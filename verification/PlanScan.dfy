/** One pass of the planner over a disk's file list, and that it takes exactly the files it should. */
module PlanScan {
  import opened Bytes
  import opened PlanRules
  import opened PlanState

  /** One pass over the file list for a hole: the key range of the files taken, their number and sum. */
  datatype Pass = Pass(startRowid: nat, lastRowid: nat, fileCount: nat, sizeSum: nat, hole: nat, finished: bool)

  /** What a pass that takes these files reports. */
  ghost function PassOf(files: seq<File>, picks: seq<nat>, hole: nat, finished: bool): Pass
    requires Within(files, picks)
  {
    if |picks| == 0 then Pass(0, 0, 0, 0, hole, finished)
    else Pass(files[picks[0]].key, files[picks[|picks| - 1]].key, |picks|, Total(files, picks), hole, finished)
  }

  lemma PassGrows(files: seq<File>, picks: seq<nat>, hole: nat, q: nat, hole2: nat)
    requires Within(files, picks) && q < |files|
    ensures Within(files, picks + [q])
    ensures PassOf(files, picks + [q], hole2, false) == Taking(PassOf(files, picks, hole, false), files[q], hole2)
  {
    TotalJoin(files, picks, [q]);
    assert Total(files, [q]) == files[q].size;
  }

  /** A pass that goes on with one more file. */
  function Taking(p: Pass, f: File, hole: nat): Pass {
    Pass(if p.fileCount == 0 then f.key else p.startRowid, f.key, p.fileCount + 1, p.sizeSum + f.size, hole, p.finished)
  }

  /** One step of a pass that has taken `picks` so far. */
  lemma ScanNext(files: seq<File>, taken: seq<bool>, bound: nat, tolerance: nat, room: nat, j: nat, hole: nat,
                 picks: seq<nat>)
    requires j <= |files| == |taken|
    ensures var r, q := Scan(files, taken, bound, tolerance, room, j, hole), NextFree(files, taken, bound, j);
      && (room == 0 ==> r == Run([], 0))
      && (room > 0 && q == |files| ==> r == Run([], hole))
      && (room > 0 && q < |files| ==>
            var size := files[q].size;
            if PercentDiff(size, hole, tolerance) == 0 then r == Run([q], 0)
            else if hole < size then r == Run([], hole)
            else
              var rest := Scan(files, taken, bound, tolerance, room - 1, q + 1, hole - size);
              r.hole == rest.hole && picks + r.picks == (picks + [q]) + rest.picks)
  {
    hide PercentDiff;
    var q := NextFree(files, taken, bound, j);
    if room > 0 && q < |files| && PercentDiff(files[q].size, hole, tolerance) != 0 && hole >= files[q].size {
      var rest := Scan(files, taken, bound, tolerance, room - 1, q + 1, hole - files[q].size);
      assert picks + ([q] + rest.picks) == (picks + [q]) + rest.picks;
    }
  }

  /** What is looked for in one pass. */
  datatype Quest = Quest(files: seq<File>, taken: seq<bool>, bound: nat, tolerance: nat, room: nat)

  ghost predicate QuestOk(z: Quest) { |z.files| == |z.taken| && ListOk(z.files) && z.bound > 0 }

  /** What the pass has to report in the end. */
  ghost function Goal(z: Quest): Pass
    requires QuestOk(z)
  {
    var r := Scan(z.files, z.taken, z.bound, z.tolerance, z.room, 0, z.bound);
    var finished := z.room > 0 && NextFree(z.files, z.taken, z.bound, 0) == |z.files|;
    if Within(z.files, r.picks) then PassOf(z.files, r.picks, if finished then 0 else r.hole, finished)
    else Pass(0, 0, 0, 0, 0, false)
  }

  /** In the middle of a pass: `picks` have been taken and the list is read up to j. */
  ghost predicate InPass(z: Quest, picks: seq<nat>, p: Pass, j: nat, first: bool)
    requires QuestOk(z)
  {
    && j <= |z.files| && |picks| <= z.room && p.hole > 0 && Within(z.files, picks)
    && p == PassOf(z.files, picks, p.hole, false)
    && (if first then j == 0 && p.hole == z.bound && picks == [] else |picks| > 0)
    && var run, rest := Scan(z.files, z.taken, z.bound, z.tolerance, z.room, 0, z.bound),
                        Scan(z.files, z.taken, z.bound, z.tolerance, z.room - |picks|, j, p.hole);
       run == Run(picks + rest.picks, rest.hole)
  }

  lemma PassBegins(z: Quest)
    requires QuestOk(z)
    ensures InPass(z, [], Pass(0, 0, 0, 0, z.bound, false), 0, true)
  {
    hide ListOk, Scan;
    var rest := Scan(z.files, z.taken, z.bound, z.tolerance, z.room, 0, z.bound);
    assert [] + rest.picks == rest.picks;
  }

  /** After the loop: a file that closed the hole is counted, and a pass of one file starts where it ends. */
  function Finish(p: Pass, seqNo: nat, size: nat): Pass {
    var q := if seqNo != 0 then p.(fileCount := p.fileCount + 1, lastRowid := seqNo, sizeSum := p.sizeSum + size)
      else p;
    if q.startRowid == 0 then q.(startRowid := q.lastRowid) else q
  }

  lemma NothingMore(z: Quest, picks: seq<nat>, p: Pass, j: nat, first: bool, hole: nat, finished: bool)
    requires QuestOk(z) && InPass(z, picks, p, j, first)
    ensures PassOf(z.files, picks, hole, finished) == Finish(p.(hole := hole, finished := finished), 0, 0)
    ensures p.fileCount == |picks| && !p.finished && (p.startRowid == 0 <==> p.fileCount == 0)
  {
    FirstKey(z, picks);
    hide Scan, ListOk;
  }

  lemma FirstKey(z: Quest, picks: seq<nat>)
    requires QuestOk(z) && Within(z.files, picks)
    ensures |picks| > 0 ==> z.files[picks[0]].key > 0
  {
  }

  /** A pass that has taken something was not at the end of the list when it began. */
  lemma NotAtEnd(z: Quest, picks: seq<nat>, p: Pass, j: nat)
    requires QuestOk(z) && InPass(z, picks, p, j, false)
    ensures z.room > 0 && NextFree(z.files, z.taken, z.bound, 0) < |z.files|
  {
    hide PassOf, ListOk, Scan, Within;
    ScanNext(z.files, z.taken, z.bound, z.tolerance, z.room, 0, z.bound, []);
  }

  /** The pass ends here: the slice is full, or the list ends. */
  lemma PassEnds(z: Quest, picks: seq<nat>, p: Pass, j: nat, first: bool)
    requires QuestOk(z) && InPass(z, picks, p, j, first)
    ensures p.fileCount == |picks| <= z.room && j <= |z.files| && !p.finished
    ensures (p.startRowid == 0 <==> p.fileCount == 0)
    ensures p.fileCount == z.room ==> Goal(z) == Finish(p.(hole := 0), 0, 0)
    ensures p.fileCount < z.room && NextFree(z.files, z.taken, z.bound, j) == |z.files| ==>
      Goal(z) == Finish(if first then p.(hole := 0, finished := true) else p, 0, 0)
  {
    hide Finish, PassOf, Scan, ListOk;
    ScanNext(z.files, z.taken, z.bound, z.tolerance, z.room - |picks|, j, p.hole, picks);
    assert picks + [] == picks;
    if !first {
      NotAtEnd(z, picks, p, j);
    }
    NothingMore(z, picks, p, j, first, 0, false);
    NothingMore(z, picks, p, j, first, 0, true);
    NothingMore(z, picks, p, j, first, p.hole, false);
    assert p == p.(hole := p.hole, finished := false);
  }

  /** The pass ends with a file that closes the hole or one that does not fit, or goes on with this file. */
  lemma PassTakes(z: Quest, picks: seq<nat>, p: Pass, j: nat, first: bool)
    requires QuestOk(z) && InPass(z, picks, p, j, first) && p.fileCount < z.room
    requires j <= |z.files| && NextFree(z.files, z.taken, z.bound, j) < |z.files|
    ensures var q := NextFree(z.files, z.taken, z.bound, j);
      var f := z.files[q];
      && f.key > 0
      && if PercentDiff(f.size, p.hole, z.tolerance) == 0 then Goal(z) == Finish(p.(hole := 0), f.key, f.size)
         else if p.hole < f.size then !first && Goal(z) == Finish(p, 0, 0)
         else f.size < p.hole && InPass(z, picks + [q], Taking(p, f, p.hole - f.size), q + 1, false)
  {
    hide PassOf, Scan, ListOk, Percent;
    var q := NextFree(z.files, z.taken, z.bound, j);
    var f := z.files[q];
    FoundKey(z, q);
    ScanNext(z.files, z.taken, z.bound, z.tolerance, z.room - |picks|, j, p.hole, picks);
    ScanNext(z.files, z.taken, z.bound, z.tolerance, z.room, 0, z.bound, []);
    NothingMore(z, picks, p, j, first, p.hole, false);
    assert picks + [] == picks;
    PassGrows(z.files, picks, p.hole, q, 0);
    if f.size <= p.hole {
      PassGrows(z.files, picks, p.hole, q, p.hole - f.size);
    }
    CloseIsFinish(z, picks, p, j, first, q);
  }

  lemma FoundKey(z: Quest, q: nat)
    requires QuestOk(z) && q < |z.files| && Fits(z.files, z.taken, z.bound, q)
    ensures z.files[q].key > 0 && z.files[q].size <= z.bound
  {
  }

  lemma CloseIsFinish(z: Quest, picks: seq<nat>, p: Pass, j: nat, first: bool, q: nat)
    requires QuestOk(z) && InPass(z, picks, p, j, first) && q < |z.files| && z.files[q].key > 0
    ensures PassOf(z.files, picks + [q], 0, false) == Finish(p.(hole := 0), z.files[q].key, z.files[q].size)
  {
    FirstKey(z, picks);
    hide Scan, ListOk;
    PassGrows(z.files, picks, p.hole, q, 0);
    assert |picks| > 0 ==> p.startRowid == z.files[picks[0]].key;
  }

  /**
   * The inner loop of filling: ask for files no larger than the hole and take them in list order until
   * one closes the hole, one does not fit, the slice is full or the list ends.
   */
  method ScanHole(z: Quest, maxSize: bool, maxFiles: nat, diskFiles: nat) returns (p: Pass)
    requires QuestOk(z) && 0 < maxFiles && diskFiles + z.room == maxFiles
    ensures p == Goal(z)
  {
    hide QuestOk, InPass, Goal, PercentDiff, Fits;
    ghost var picks: seq<nat> := [];
    var j, first, seqNo, fileSize := 0, true, 0, 0;
    p := Pass(0, 0, 0, 0, z.bound, false);
    PassBegins(z);
    SameLength(z);
    while true
      invariant j <= |z.files| && InPass(z, picks, p, j, first)
      decreases |z.files| - j
    {
      seqNo := 0;
      PassEnds(z, picks, p, j, first);
      if maxFiles > 0 && diskFiles + p.fileCount >= maxFiles {
        p := p.(hole := 0);
        break;
      }
      var q := NextFree(z.files, z.taken, z.bound, j);
      if q < |z.files| {
        PassTakes(z, picks, p, j, first);
        seqNo, fileSize := z.files[q].key, z.files[q].size;
        j := q + 1;
        if PercentDiff(fileSize, p.hole, z.tolerance) == 0 {
          p := p.(hole := 0);
          break;
        }
        if p.hole < fileSize {
          if !maxSize || !first {
            seqNo := 0;
          }
          first := false;
          break;
        }
        first := false;
        if p.startRowid == 0 {
          p := p.(startRowid := seqNo);
        }
      } else {
        if first {
          p := p.(finished := true, hole := 0);
        }
        break;
      }
      if seqNo != 0 {
        p := p.(fileCount := p.fileCount + 1, lastRowid := seqNo, sizeSum := p.sizeSum + fileSize,
          hole := p.hole - fileSize);
      }
      picks := picks + [q];
    }
    if seqNo != 0 {
      p := p.(fileCount := p.fileCount + 1, lastRowid := seqNo, sizeSum := p.sizeSum + fileSize);
    }
    if p.startRowid == 0 {
      p := p.(startRowid := p.lastRowid);
    }
  }

  lemma GoalFacts(z: Quest)
    requires QuestOk(z) && z.room > 0
    requires Within(z.files, Scan(z.files, z.taken, z.bound, z.tolerance, z.room, 0, z.bound).picks)
    ensures var r := Scan(z.files, z.taken, z.bound, z.tolerance, z.room, 0, z.bound);
      if NextFree(z.files, z.taken, z.bound, 0) == |z.files| then r.picks == [] && Goal(z) == Pass(0, 0, 0, 0, 0, true)
      else Goal(z) == PassOf(z.files, r.picks, r.hole, false)
  {
    ScanNext(z.files, z.taken, z.bound, z.tolerance, z.room, 0, z.bound, []);
    hide Scan, ListOk, Total;
  }

  lemma SameLength(z: Quest)
    requires QuestOk(z)
    ensures |z.files| == |z.taken|
  {
  }
}
