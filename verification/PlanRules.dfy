/**
 * The arithmetic of the slice planner: which unassigned files one call fills a hole with, and what is
 * true of that choice. Files of a disk are listed by ascending key and descending size.
 */
module PlanRules {
  import opened Bytes

  const MIN_THE_SAME_SIZE: nat := 64

  datatype File = File(key: nat, size: nat)

  /** The order of the file list: keys ascend from one, sizes do not increase. */
  ghost predicate ListOk(files: seq<File>) {
    && (forall j {:trigger files[j].key} :: 0 <= j < |files| ==> files[j].key > 0)
    && (forall j, m {:trigger files[j].key, files[m].key} :: 0 <= j < m < |files| ==> files[j].key < files[m].key)
    && (forall j, m {:trigger files[j].size, files[m].size} :: 0 <= j < m < |files| ==> files[j].size >= files[m].size)
  }

  function Gap(a: nat, b: nat): nat { if a <= b then b - a else a - b }

  /** A share of m in percent, rounded to the nearest whole number, halves up. */
  function Percent(part: nat, m: nat): nat
    requires m > 0
  {
    (200 * part + m) / (2 * m)
  }

  /** How much two sizes differ, in percent of the larger one; zero if they count as the same. */
  function PercentDiff(a: nat, b: nat, tolerance: nat): int {
    if Gap(a, b) <= MIN_THE_SAME_SIZE then 0
    else
      var percent: int := Percent(Gap(a, b), Max(a, b));
      if percent <= tolerance then 0 else if a < b then -percent else percent
  }

  /** Sizes that count as the same. */
  predicate Same(a: nat, b: nat, tolerance: nat) {
    Gap(a, b) <= MIN_THE_SAME_SIZE || 200 * Gap(a, b) < (2 * tolerance + 1) * Max(a, b)
  }

  lemma QuotientAtMost(x: nat, d: nat, t: nat)
    requires d > 0
    ensures x / d <= t <==> x < d * (t + 1)
  {
    var q := x / d;
    assert x == d * q + x % d;
    if q <= t {
      assert d * q <= d * t;
    } else {
      assert d * q >= d * (t + 1);
    }
  }

  lemma RoundsUpTo(part: nat, m: nat, t: nat)
    requires m > 0
    ensures Percent(part, m) <= t <==> 200 * part < (2 * t + 1) * m
  {
    QuotientAtMost(200 * part + m, 2 * m, t);
    assert 2 * m * (t + 1) == (2 * t + 1) * m + m;
  }

  /** The difference is zero for the sizes that count as the same, and has the sign of the comparison otherwise. */
  lemma PercentDiffMeans(a: nat, b: nat, tolerance: nat)
    ensures PercentDiff(a, b, tolerance) == 0 <==> Same(a, b, tolerance)
    ensures PercentDiff(a, b, tolerance) < 0 <==> a < b && !Same(a, b, tolerance)
    ensures PercentDiff(a, b, tolerance) != 0 ==> Gap(a, b) > MIN_THE_SAME_SIZE
  {
    if Gap(a, b) > MIN_THE_SAME_SIZE {
      RoundsUpTo(Gap(a, b), Max(a, b), tolerance);
    }
  }

  /**
   * The difference in numbers, for any two sizes: zero exactly if they are at most 64 bytes or less than
   * tolerance plus half a percent of the larger one apart; otherwise the nearest whole percentage, halves
   * up, negative if the first size is the smaller one.
   */
  lemma PercentDiffInNumbers(a: nat, b: nat, tolerance: nat)
    ensures var p, gap, m := PercentDiff(a, b, tolerance), if a < b then b - a else a - b, if a < b then b else a;
      && (p == 0 <==> gap <= 64 || 200 * gap < (2 * tolerance + 1) * m)
      && (p < 0 ==> a < b) && (p > 0 ==> a > b)
      && (p != 0 ==>
            var q := if p < 0 then -p else p;
            q > tolerance && (2 * q - 1) * m <= 200 * gap < (2 * q + 1) * m)
  {
    PercentDiffMeans(a, b, tolerance);
    var gap, m := Gap(a, b), Max(a, b);
    if gap > MIN_THE_SAME_SIZE {
      var q := Percent(gap, m);
      RoundsUpTo(gap, m, q);
      if q > 0 {
        RoundsUpTo(gap, m, q - 1);
      }
    }
  }

  // ---------------------------------------------------------------- the choice

  predicate Fits(files: seq<File>, taken: seq<bool>, bound: nat, j: nat)
    requires j < |files| == |taken|
  {
    !taken[j] && files[j].size <= bound
  }

  /** The next unassigned file from j on that is not larger than bound; the end of the list if there is none. */
  function NextFree(files: seq<File>, taken: seq<bool>, bound: nat, j: nat): (q: nat)
    requires j <= |files| == |taken|
    ensures j <= q <= |files|
    ensures q < |files| ==> Fits(files, taken, bound, q)
    ensures forall k {:trigger Fits(files, taken, bound, k)} :: j <= k < q ==> !Fits(files, taken, bound, k)
    decreases |files| - j
  {
    if j == |files| || Fits(files, taken, bound, j) then j else NextFree(files, taken, bound, j + 1)
  }

  /** Files picked in one pass over the list, and what is left of the hole. */
  datatype Run = Run(picks: seq<nat>, hole: nat)

  /** One pass: take files while they fit; stop at one that does not, or with one that closes the hole. */
  function Scan(files: seq<File>, taken: seq<bool>, bound: nat, tolerance: nat, room: nat, j: nat, hole: nat): (r: Run)
    requires j <= |files| == |taken|
    ensures |r.picks| <= room
    decreases |files| - j
  {
    var q := NextFree(files, taken, bound, j);
    if room == 0 then Run([], 0)
    else if q == |files| then Run([], hole)
    else if PercentDiff(files[q].size, hole, tolerance) == 0 then Run([q], 0)
    else if hole < files[q].size then Run([], hole)
    else
      var rest := Scan(files, taken, bound, tolerance, room - 1, q + 1, hole - files[q].size);
      Run([q] + rest.picks, rest.hole)
  }

  function Mark(taken: seq<bool>, picks: seq<nat>): (r: seq<bool>)
    ensures |r| == |taken|
  {
    seq(|taken|, j requires 0 <= j < |taken| => taken[j] || j in picks)
  }

  /** Files picked for a hole, and whether the disk has run out of files that fit. */
  datatype Filled = Filled(picks: seq<nat>, finished: bool)

  /** Passes with ever smaller bounds until the hole is closed, the disk is full or nothing fits. */
  function Fill(files: seq<File>, taken: seq<bool>, tolerance: nat, room: nat, hole: nat): Filled
    requires |files| == |taken|
    decreases room
  {
    if hole == 0 || room == 0 then Filled([], false)
    else if NextFree(files, taken, hole, 0) == |files| then Filled([], true)
    else
      var r := Scan(files, taken, hole, tolerance, room, 0, hole);
      FirstPassPicks(files, taken, tolerance, room, hole);
      var rest := Fill(files, Mark(taken, r.picks), tolerance, room - |r.picks|, r.hole);
      Filled(r.picks + rest.picks, rest.finished)
  }

  lemma FirstPassPicks(files: seq<File>, taken: seq<bool>, tolerance: nat, room: nat, hole: nat)
    requires |files| == |taken| && room > 0 && NextFree(files, taken, hole, 0) < |files|
    ensures var q := NextFree(files, taken, hole, 0);
      var r := Scan(files, taken, hole, tolerance, room, 0, hole);
      |r.picks| > 0 && r.picks[0] == q
  {
  }

  // ---------------------------------------------------------------- properties of the choice

  predicate Increasing(s: seq<nat>) {
    forall a, b {:trigger s[a], s[b]} :: 0 <= a < b < |s| ==> s[a] < s[b]
  }

  /** Increasing lists with the same elements are equal. */
  lemma {:induction false} SameElements(a: seq<nat>, b: seq<nat>)
    requires Increasing(a) && Increasing(b) && forall x :: x in a <==> x in b
    ensures a == b
  {
    assert |a| > 0 ==> a[0] in b;
    assert |b| > 0 ==> b[0] in a;
    if |a| > 0 {
      var m, n := |a| - 1, |b| - 1;
      assert a[m] in b && b[n] in a;
      assert a[m] == b[n];
      forall x
        ensures x in a[..m] <==> x in b[..n]
      {
        assert x in a[..m] <==> x in a && x != a[m];
        assert x in b[..n] <==> x in b && x != b[n];
      }
      SameElements(a[..m], b[..n]);
    }
  }

  predicate Within(files: seq<File>, picks: seq<nat>) {
    forall a {:trigger picks[a]} :: 0 <= a < |picks| ==> picks[a] < |files|
  }

  /** Total size of picked files. */
  function Total(files: seq<File>, picks: seq<nat>): nat
    requires Within(files, picks)
  {
    if |picks| == 0 then 0 else files[picks[0]].size + Total(files, Rest(files, picks))
  }

  function Rest(files: seq<File>, picks: seq<nat>): (r: seq<nat>)
    requires Within(files, picks) && |picks| > 0
    ensures Within(files, r) && r == picks[1..]
  {
    assert forall a {:trigger picks[1..][a]} :: 0 <= a < |picks| - 1 ==> picks[1..][a] == picks[a + 1];
    picks[1..]
  }

  lemma {:induction false} TotalJoin(files: seq<File>, a: seq<nat>, b: seq<nat>)
    requires Within(files, a) && Within(files, b)
    ensures Within(files, a + b) && Total(files, a + b) == Total(files, a) + Total(files, b)
  {
    if |a| == 0 {
      assert a + b == b;
    } else {
      TotalJoin(files, a[1..], b);
      assert (a + b)[1..] == a[1..] + b;
      assert (a + b)[0] == a[0];
    }
  }

  /** The last picked file counts as the same size as what the others left of the hole. */
  ghost predicate Closes(files: seq<File>, picks: seq<nat>, hole: nat, tolerance: nat) {
    && |picks| > 0 && Within(files, picks)
    && var n := |picks| - 1;
       Within(files, picks[..n]) && Total(files, picks[..n]) < hole
       && Same(files[picks[n]].size, hole - Total(files, picks[..n]), tolerance)
  }

  lemma ClosesLater(files: seq<File>, a: seq<nat>, b: seq<nat>, hole: nat, tolerance: nat)
    requires Within(files, a) && Total(files, a) < hole && Closes(files, b, hole - Total(files, a), tolerance)
    ensures Closes(files, a + b, hole, tolerance)
  {
    hide Same, Total, Within;
    var n, both := |b| - 1, a + b;
    TotalJoin(files, a, b);
    TotalJoin(files, a, b[..n]);
    assert both[..|both| - 1] == a + b[..n] && both[|both| - 1] == b[n];
  }

  /** How far closing a hole can go beyond it: 64 bytes, or tolerance and a half percent of the last file. */
  lemma Overshoot(files: seq<File>, picks: seq<nat>, hole: nat, tolerance: nat)
    requires Closes(files, picks, hole, tolerance) && Total(files, picks) > hole
    ensures var over := Total(files, picks) - hole;
      over <= MIN_THE_SAME_SIZE || 200 * over < (2 * tolerance + 1) * files[picks[|picks| - 1]].size
  {
    var n := |picks| - 1;
    TotalJoin(files, picks[..n], [picks[n]]);
    assert picks[..n] + [picks[n]] == picks;
    assert Total(files, [picks[n]]) == files[picks[n]].size;
  }

  /** The picks of a pass, in order: exactly the files that fit, up to the last one picked. */
  ghost predicate PicksOk(files: seq<File>, taken: seq<bool>, bound: nat, j: nat, picks: seq<nat>)
    requires |taken| == |files|
  {
    && Within(files, picks) && Increasing(picks)
    && (forall a {:trigger picks[a]} :: 0 <= a < |picks| ==> j <= picks[a] && Fits(files, taken, bound, picks[a]))
    && (forall k {:trigger Fits(files, taken, bound, k)} ::
          j <= k < |files| && Fits(files, taken, bound, k) && |picks| > 0 && k <= picks[|picks| - 1] ==> k in picks)
  }

  /** What a pass does to the hole: no room is left, or the last pick closes it, or it got smaller. */
  ghost predicate HoleOk(files: seq<File>, tolerance: nat, room: nat, hole: nat, r: Run) {
    && Within(files, r.picks)
    && (|| (r.hole == 0 && |r.picks| == room && Total(files, r.picks) < hole)
        || (r.hole == 0 && Closes(files, r.picks, hole, tolerance))
        || (r.hole == hole - Total(files, r.picks) && r.hole > 0))
  }

  ghost predicate RunOk(files: seq<File>, taken: seq<bool>, bound: nat, tolerance: nat, room: nat, j: nat, hole: nat,
                        r: Run)
    requires |taken| == |files|
  {
    PicksOk(files, taken, bound, j, r.picks) && HoleOk(files, tolerance, room, hole, r)
  }

  lemma {:induction false} ScanOk(files: seq<File>, taken: seq<bool>, bound: nat, tolerance: nat, room: nat, j: nat,
                                  hole: nat)
    requires j <= |files| == |taken| && hole > 0
    ensures RunOk(files, taken, bound, tolerance, room, j, hole, Scan(files, taken, bound, tolerance, room, j, hole))
    decreases |files| - j
  {
    hide PicksOk, HoleOk, Fits, Same, PercentDiff, Percent;
    var q := NextFree(files, taken, bound, j);
    EmptyRun(files, taken, bound, tolerance, room, j, hole);
    if room > 0 && q < |files| {
      var size := files[q].size;
      PercentDiffMeans(size, hole, tolerance);
      if PercentDiff(size, hole, tolerance) == 0 {
        ClosingRun(files, taken, bound, tolerance, room, j, hole);
      } else if size < hole {
        ScanOk(files, taken, bound, tolerance, room - 1, q + 1, hole - size);
        var rest := Scan(files, taken, bound, tolerance, room - 1, q + 1, hole - size);
        PicksStep(files, taken, bound, j, q, rest.picks);
        HoleStep(files, tolerance, room, hole, q, rest);
      }
    }
  }

  lemma EmptyRun(files: seq<File>, taken: seq<bool>, bound: nat, tolerance: nat, room: nat, j: nat, hole: nat)
    requires j <= |files| == |taken| && hole > 0
    ensures PicksOk(files, taken, bound, j, [])
    ensures HoleOk(files, tolerance, room, hole, Run([], hole))
    ensures room == 0 ==> HoleOk(files, tolerance, room, hole, Run([], 0))
  {
  }

  lemma ClosingRun(files: seq<File>, taken: seq<bool>, bound: nat, tolerance: nat, room: nat, j: nat, hole: nat)
    requires j <= |files| == |taken| && hole > 0
    requires var q := NextFree(files, taken, bound, j); q < |files| && Same(files[q].size, hole, tolerance)
    ensures var q := NextFree(files, taken, bound, j);
      PicksOk(files, taken, bound, j, [q]) && HoleOk(files, tolerance, room, hole, Run([q], 0))
  {
    hide Same;
    var q := NextFree(files, taken, bound, j);
    assert [q][..0] == [];
    assert q in [q];
  }

  lemma PicksStep(files: seq<File>, taken: seq<bool>, bound: nat, j: nat, q: nat, rest: seq<nat>)
    requires j <= |files| == |taken| && q == NextFree(files, taken, bound, j) < |files|
    requires PicksOk(files, taken, bound, q + 1, rest)
    ensures PicksOk(files, taken, bound, j, [q] + rest)
  {
    hide Fits;
    var picks := [q] + rest;
    forall k {:trigger Fits(files, taken, bound, k)} |
        j <= k < |files| && Fits(files, taken, bound, k) && k <= picks[|picks| - 1]
      ensures k in picks
    {
      if k > q {
        assert k in rest;
      } else {
        assert picks[0] == q;
      }
    }
  }

  lemma HoleStep(files: seq<File>, tolerance: nat, room: nat, hole: nat, q: nat, rest: Run)
    requires room > 0 && q < |files| && files[q].size < hole
    requires HoleOk(files, tolerance, room - 1, hole - files[q].size, rest)
    ensures HoleOk(files, tolerance, room, hole, Run([q] + rest.picks, rest.hole))
  {
    hide Closes;
    TotalJoin(files, [q], rest.picks);
    assert Total(files, [q]) == files[q].size;
    if Closes(files, rest.picks, hole - files[q].size, tolerance) {
      ClosesLater(files, [q], rest.picks, hole, tolerance);
    }
  }

  ghost predicate NothingFits(files: seq<File>, taken: seq<bool>, bound: nat)
    requires |taken| == |files|
  {
    forall k {:trigger Fits(files, taken, bound, k)} :: 0 <= k < |files| ==> !Fits(files, taken, bound, k)
  }

  /** Unassigned files no larger than the hole, in list order, at most as many as there is room for. */
  ghost predicate ChoiceOk(files: seq<File>, taken: seq<bool>, room: nat, hole: nat, picks: seq<nat>)
    requires |taken| == |files|
  {
    && Within(files, picks) && Increasing(picks) && |picks| <= room
    && (forall a {:trigger picks[a]} :: 0 <= a < |picks| ==> Fits(files, taken, hole, picks[a]))
  }

  /** How filling a hole ends: the disk is full, the last pick closes the hole, or no file fits what is left of it. */
  ghost predicate EndOk(files: seq<File>, taken: seq<bool>, tolerance: nat, room: nat, hole: nat, f: Filled)
    requires |taken| == |files|
  {
    && Within(files, f.picks)
    && (hole > 0 && room > 0 ==> |f.picks| > 0 || f.finished)
    && if f.finished then
         Total(files, f.picks) < hole && NothingFits(files, Mark(taken, f.picks), hole - Total(files, f.picks))
       else
         || (hole == 0 && f.picks == [])
         || (|f.picks| == room && Total(files, f.picks) < hole)
         || Closes(files, f.picks, hole, tolerance)
  }

  /** Main result on one filling call. */
  lemma {:induction false} FillOk(files: seq<File>, taken: seq<bool>, tolerance: nat, room: nat, hole: nat)
    requires |files| == |taken|
    ensures var f := Fill(files, taken, tolerance, room, hole);
      ChoiceOk(files, taken, room, hole, f.picks) && EndOk(files, taken, tolerance, room, hole, f)
    decreases room
  {
    hide ChoiceOk, EndOk, RunOk, Scan, Fits, PicksOk, HoleOk;
    if hole == 0 || room == 0 {
      NoFill(files, taken, tolerance, room, hole);
    } else if NextFree(files, taken, hole, 0) == |files| {
      FinishedFill(files, taken, tolerance, room, hole);
    } else {
      var r := Scan(files, taken, hole, tolerance, room, 0, hole);
      ScanOk(files, taken, hole, tolerance, room, 0, hole);
      FirstPassPicks(files, taken, tolerance, room, hole);
      FillOk(files, Mark(taken, r.picks), tolerance, room - |r.picks|, r.hole);
      var rest := Fill(files, Mark(taken, r.picks), tolerance, room - |r.picks|, r.hole);
      assert PicksOk(files, taken, hole, 0, r.picks) && HoleOk(files, tolerance, room, hole, r) by {
        ScanOk(files, taken, hole, tolerance, room, 0, hole);
        RunParts(files, taken, tolerance, room, hole, r);
      }
      ChoiceStep(files, taken, tolerance, room, hole, r, rest);
      EndStep(files, taken, tolerance, room, hole, r, rest);
    }
  }

  lemma RunParts(files: seq<File>, taken: seq<bool>, tolerance: nat, room: nat, hole: nat, r: Run)
    requires |files| == |taken| && RunOk(files, taken, hole, tolerance, room, 0, hole, r)
    ensures PicksOk(files, taken, hole, 0, r.picks) && HoleOk(files, tolerance, room, hole, r)
  {
  }

  lemma NoFill(files: seq<File>, taken: seq<bool>, tolerance: nat, room: nat, hole: nat)
    requires |files| == |taken| && (hole == 0 || room == 0)
    ensures ChoiceOk(files, taken, room, hole, []) && EndOk(files, taken, tolerance, room, hole, Filled([], false))
  {
  }

  lemma FinishedFill(files: seq<File>, taken: seq<bool>, tolerance: nat, room: nat, hole: nat)
    requires |files| == |taken| && hole > 0 && NextFree(files, taken, hole, 0) == |files|
    ensures ChoiceOk(files, taken, room, hole, []) && EndOk(files, taken, tolerance, room, hole, Filled([], true))
  {
    assert Mark(taken, []) == taken;
  }

  lemma ChoiceStep(files: seq<File>, taken: seq<bool>, tolerance: nat, room: nat, hole: nat, r: Run, rest: Filled)
    requires |files| == |taken| && hole > 0 && 0 < |r.picks| <= room
    requires PicksOk(files, taken, hole, 0, r.picks) && HoleOk(files, tolerance, room, hole, r)
    requires ChoiceOk(files, Mark(taken, r.picks), room - |r.picks|, r.hole, rest.picks)
    ensures ChoiceOk(files, taken, room, hole, r.picks + rest.picks)
  {
    assert r.hole <= hole;
    hide HoleOk;
    var last := r.picks[|r.picks| - 1];
    forall a | 0 <= a < |rest.picks|
      ensures last < rest.picks[a] < |files| && Fits(files, taken, hole, rest.picks[a])
    {
      assert Fits(files, Mark(taken, r.picks), r.hole, rest.picks[a]);
      assert Fits(files, taken, hole, rest.picks[a]);
    }
  }

  lemma EndStep(files: seq<File>, taken: seq<bool>, tolerance: nat, room: nat, hole: nat, r: Run, rest: Filled)
    requires |files| == |taken| && hole > 0 && 0 < |r.picks| <= room && HoleOk(files, tolerance, room, hole, r)
    requires rest == Fill(files, Mark(taken, r.picks), tolerance, room - |r.picks|, r.hole)
    requires EndOk(files, Mark(taken, r.picks), tolerance, room - |r.picks|, r.hole, rest)
    ensures EndOk(files, taken, tolerance, room, hole, Filled(r.picks + rest.picks, rest.finished))
  {
    hide Closes;
    TotalJoin(files, r.picks, rest.picks);
    assert r.picks + [] == r.picks;
    if r.hole > 0 {
      assert r.hole == hole - Total(files, r.picks);
      if rest.finished {
        assert Mark(Mark(taken, r.picks), rest.picks) == Mark(taken, r.picks + rest.picks);
      } else if Closes(files, rest.picks, r.hole, tolerance) {
        ClosesLater(files, r.picks, rest.picks, hole, tolerance);
      }
    }
  }

  /**
   * A filling call in numbers: it picks unassigned files in list order, none larger than the hole, at most
   * as many as there is room for. If it then finishes the disk, every file left is larger than what is left
   * of the hole; if not, the hole was empty, or the room is used up, or the last file is at most 64 bytes
   * or less than tolerance plus half a percent away from what the others had left of the hole.
   */
  lemma FillInNumbers(files: seq<File>, taken: seq<bool>, tolerance: nat, room: nat, hole: nat)
    requires |files| == |taken|
    ensures var f := Fill(files, taken, tolerance, room, hole);
      && Within(files, f.picks) && |f.picks| <= room && Increasing(f.picks)
      && (forall a {:trigger f.picks[a]} :: 0 <= a < |f.picks| ==>
            !taken[f.picks[a]] && files[f.picks[a]].size <= hole)
      && (hole > 0 && room > 0 ==> |f.picks| > 0 || f.finished)
      && (f.finished ==>
            && Total(files, f.picks) < hole
            && forall k {:trigger taken[k]} :: 0 <= k < |files| && !taken[k] && k !in f.picks ==>
                 files[k].size > hole - Total(files, f.picks))
      && (!f.finished ==>
            || (hole == 0 && f.picks == [])
            || (|f.picks| == room && Total(files, f.picks) < hole)
            || (|f.picks| > 0 && CloseTo(files, f.picks, hole, tolerance)))
  {
    hide Fill, Total, Same, Mark;
    var f := Fill(files, taken, tolerance, room, hole);
    FillOk(files, taken, tolerance, room, hole);
    forall a {:trigger f.picks[a]} | 0 <= a < |f.picks|
      ensures !taken[f.picks[a]] && files[f.picks[a]].size <= hole
    {
      assert Fits(files, taken, hole, f.picks[a]);
    }
    if f.finished {
      forall k {:trigger taken[k]} | 0 <= k < |files| && !taken[k] && k !in f.picks
        ensures files[k].size > hole - Total(files, f.picks)
      {
        StillFree(taken, f.picks, k);
        assert !Fits(files, Mark(taken, f.picks), hole - Total(files, f.picks), k);
      }
    } else if Closes(files, f.picks, hole, tolerance) {
      ClosesInNumbers(files, f.picks, hole, tolerance);
    }
  }

  lemma StillFree(taken: seq<bool>, picks: seq<nat>, k: nat)
    requires k < |taken| && !taken[k] && k !in picks
    ensures !Mark(taken, picks)[k]
  {
  }

  /** The last pick is as long as what the others left of the hole, or noticeably neither longer nor shorter. */
  ghost predicate CloseTo(files: seq<File>, picks: seq<nat>, hole: nat, tolerance: nat)
    requires |picks| > 0
  {
    && Within(files, picks) && Within(files, picks[..|picks| - 1]) && Total(files, picks[..|picks| - 1]) < hole
    && var size, left := files[picks[|picks| - 1]].size, hole - Total(files, picks[..|picks| - 1]);
       var gap, m := if size < left then left - size else size - left, if size < left then left else size;
       gap <= 64 || 200 * gap < (2 * tolerance + 1) * m
  }

  lemma ClosesInNumbers(files: seq<File>, picks: seq<nat>, hole: nat, tolerance: nat)
    requires Closes(files, picks, hole, tolerance)
    ensures |picks| > 0 && CloseTo(files, picks, hole, tolerance)
  {
    var n := |picks| - 1;
    PercentDiffMeans(files[picks[n]].size, hole - Total(files, picks[..n]), tolerance);
    PercentDiffInNumbers(files[picks[n]].size, hole - Total(files, picks[..n]), tolerance);
  }
}
