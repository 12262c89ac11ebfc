/** Inserting files into a slice and filling one disk's hole, in terms of the disk's state before and after. */
module PlanFill {
  import opened Bytes
  import opened Streams
  import opened PlanRules
  import opened PlanTables
  import opened PlanState
  import opened PlanScan

  /** The planner either goes on or stops the program because its sums do not match. */
  datatype Insertion = Fatal | Ok(full: bool)

  /** How many rows of a selection are inserted: all, or in the open-ended mode until a limit is passed. */
  function RowsTaken(su: Setup, files: seq<File>, list: seq<nat>, rest: bool, n: nat, bytes: nat): (m: nat)
    requires n <= |list| && Within(files, list)
    ensures n <= m <= |list|
    ensures n < |list| ==> n < m
    decreases |list| - n
  {
    if n == |list| then n
    else
      var sum := bytes + files[list[n]].size;
      if rest && (sum > TWO_GIGA || n + 1 > su.maxFiles) then n + 1 else RowsTaken(su, files, list, rest, n + 1, sum)
  }

  function From(startSeq: nat, lastSeq: nat): nat { if startSeq == 0 && lastSeq == 0 then 1 else startSeq }

  function To(startSeq: nat, lastSeq: nat): nat { if startSeq == 0 && lastSeq == 0 then LONG_MAX else lastSeq }

  /** The files that one insertion call puts into the slice. */
  function InsertionOf(su: Setup, i: nat, taken: seq<bool>, startSeq: nat, lastSeq: nat): (r: seq<nat>)
    requires i < |su.files| && |taken| == |su.files[i]|
  {
    var list := InRange(su.files[i], taken, From(startSeq, lastSeq), To(startSeq, lastSeq), |taken|);
    if Within(su.files[i], list) then
      list[..RowsTaken(su, su.files[i], list, startSeq == 0 && lastSeq == 0, 0, 0)]
    else []
  }

  /** An insertion of a key range takes the unassigned files with keys in it, all of them and in list order. */
  lemma RangeInserted(su: Setup, i: nat, taken: seq<bool>, startSeq: nat, lastSeq: nat)
    requires i < |su.files| && |taken| == |su.files[i]| && (startSeq > 0 || lastSeq > 0)
    ensures var picks, files := InsertionOf(su, i, taken, startSeq, lastSeq), su.files[i];
      && Within(files, picks) && Increasing(picks)
      && forall k: nat {:trigger k in picks} ::
        k in picks <==> k < |files| && !taken[k] && startSeq <= files[k].key <= lastSeq
  {
    hide Increasing;
    var files := su.files[i];
    var list := InRange(files, taken, startSeq, lastSeq, |taken|);
    SelectionWithin(files, taken, startSeq, lastSeq);
    InRangeOk(files, taken, startSeq, lastSeq, |taken|);
    RowsTakenAll(su, files, list, 0, 0);
    assert list[..|list|] == list;
  }

  lemma SelectionWithin(files: seq<File>, taken: seq<bool>, from: nat, to: nat)
    requires |files| == |taken|
    ensures Within(files, InRange(files, taken, from, to, |files|))
  {
    InRangeOk(files, taken, from, to, |files|);
  }

  /** One more inserted row. */
  lemma RowAdded(rows: seq<Row>, files: seq<File>, list: seq<nat>, n: nat)
    requires Within(files, list) && n < |list| && Contiguous(rows)
    ensures Within(files, list[..n]) && Within(files, list[..n + 1])
    ensures var before, now := AddRows(rows, files, list[..n]), AddRows(rows, files, list[..n + 1]);
      && now == AddRow(before, files[list[n]])
      && End(now, |now|) == End(before, |before|) + files[list[n]].size
    ensures Total(files, list[..n + 1]) == Total(files, list[..n]) + files[list[n]].size
  {
    var one := [list[n]];
    assert list[..n + 1] == list[..n] + one;
    assert Within(files, list[..n]) && Within(files, one);
    AddRowsJoin(rows, files, list[..n], one);
    TotalJoin(files, list[..n], one);
    var before := AddRows(rows, files, list[..n]);
    assert Rest(files, one) == [];
    assert AddRows(before, files, one) == AddRow(before, files[list[n]]);
    AddRowsTile(rows, files, list[..n]);
    AddRowTiles(before, files[list[n]]);
  }

  lemma NoRowsYet(before: seq<Row>, files: seq<File>, list: seq<nat>)
    ensures Within(files, list[..0]) && AddRows(before, files, list[..0]) == before && Total(files, list[..0]) == 0
  {
    assert list[..0] == [];
  }

  lemma Listed(files: seq<File>, list: seq<nat>, n: nat)
    requires Within(files, list) && n < |list|
    ensures list[n] < |files|
  {
  }

  /** The insertion loop: rows of the listed files, laid end to end behind those already there. */
  method InsertRows(su: Setup, files: seq<File>, list: seq<nat>, rest: bool, before: seq<Row>, start: nat)
    returns (rows: seq<Row>, filesAdded: nat, bytesAdded: nat, seqNo: nat)
    requires Within(files, list) && Contiguous(before) && start == End(before, |before|)
    ensures filesAdded == RowsTaken(su, files, list, rest, 0, 0)
    ensures Within(files, list[..filesAdded])
    ensures rows == AddRows(before, files, list[..filesAdded]) && bytesAdded == Total(files, list[..filesAdded])
    ensures filesAdded > 0 ==> seqNo == files[list[filesAdded - 1]].key
  {
    hide AddRows, Total, End, Contiguous, Within;
    ghost var all := RowsTaken(su, files, list, rest, 0, 0);
    var soffset := start;
    NoRowsYet(before, files, list);
    rows, filesAdded, bytesAdded, seqNo := before, 0, 0, 0;
    while filesAdded < |list|
      invariant filesAdded <= |list| && Within(files, list[..filesAdded])
      invariant RowsTaken(su, files, list, rest, filesAdded, bytesAdded) == all
      invariant rows == AddRows(before, files, list[..filesAdded]) && soffset == End(rows, |rows|)
      invariant bytesAdded == Total(files, list[..filesAdded])
      invariant filesAdded > 0 ==> list[filesAdded - 1] < |files| && seqNo == files[list[filesAdded - 1]].key
    {
      Listed(files, list, filesAdded);
      var f := files[list[filesAdded]];
      seqNo := f.key;
      RowAdded(before, files, list, filesAdded);
      rows := rows + [Row(seqNo, f.size, soffset)];
      soffset := soffset + f.size;
      filesAdded := filesAdded + 1;
      bytesAdded := bytesAdded + f.size;
      if rest && (bytesAdded > TWO_GIGA || filesAdded > su.maxFiles) {
        break;
      }
    }
  }

  lemma {:induction false} RowsTakenAll(su: Setup, files: seq<File>, list: seq<nat>, n: nat, bytes: nat)
    requires n <= |list| && Within(files, list)
    ensures RowsTaken(su, files, list, false, n, bytes) == |list|
    decreases |list| - n
  {
    if n < |list| {
      RowsTakenAll(su, files, list, n + 1, bytes + files[list[n]].size);
    }
  }

  function QuestOf(su: Setup, i: nat, d: PlanDisk, hole: nat): Quest
    requires i < |su.files| && d.filesInSlice <= su.maxFiles
  {
    Quest(su.files[i], d.taken, hole, su.tolerance, su.maxFiles - d.filesInSlice)
  }

  /** The files of a pass, as the insertion call is given them: by key range, number and sum. */
  lemma PassIsInserted(su: Setup, i: nat, d: PlanDisk, hole: nat)
    requires i < |su.files| == |su.filesSize| && DiskSetupOk(su, i) && |d.taken| == |su.files[i]|
    requires d.filesInSlice < su.maxFiles && hole > 0
    ensures QuestOk(QuestOf(su, i, d, hole))
    ensures var files, p := su.files[i], Goal(QuestOf(su, i, d, hole));
      var r := Scan(files, d.taken, hole, su.tolerance, su.maxFiles - d.filesInSlice, 0, hole);
      && FreePicks(files, d.taken, r.picks) && |d.taken| == |files|
      && p.finished == (NextFree(files, d.taken, hole, 0) == |files|)
      && (p.finished ==> p.hole == 0 && p.startRowid == 0)
      && (!p.finished ==>
            && p.hole == r.hole && p.startRowid > 0 && p.lastRowid > 0 && |r.picks| > 0
            && p.fileCount == |r.picks| && p.sizeSum == Total(files, r.picks)
            && InsertionOf(su, i, d.taken, p.startRowid, p.lastRowid) == r.picks)
  {
    hide Scan, NextFree, ListOk, DiskSetupOk, FreePicks, InsertionOf, PicksOk, Total, Fits, Increasing, InRange, Goal;
    var files, room := su.files[i], su.maxFiles - d.filesInSlice;
    var r := Scan(files, d.taken, hole, su.tolerance, room, 0, hole);
    SetupList(su, i);
    PassPicks(files, d.taken, su.tolerance, room, hole);
    PicksWithin(files, d.taken, r.picks);
    GoalFacts(QuestOf(su, i, d, hole));
    if NextFree(files, d.taken, hole, 0) < |files| {
      FirstPassPicks(files, d.taken, su.tolerance, room, hole);
      RangeIsInserted(su, i, d.taken, hole, r.picks);
    }
  }

  /** A disk after one round of filling, and the hole that is left. */
  datatype Round = Round(disk: PlanDisk, hole: nat)

  ghost function AfterRound(su: Setup, i: nat, d: PlanDisk, hole: nat): Round
    requires i < |su.files| && d.filesInSlice < su.maxFiles && |d.taken| == |su.files[i]|
  {
    var files := su.files[i];
    var r := Scan(files, d.taken, hole, su.tolerance, su.maxFiles - d.filesInSlice, 0, hole);
    if NextFree(files, d.taken, hole, 0) == |files| || !Within(files, r.picks) then Round(d.(diskFinished := true), 0)
    else
      var d2 := Inserted(files, d, r.picks);
      Round(d2, if d2.filesInSlice >= su.maxFiles then 0 else r.hole)
  }

  /** What the round's method relies on. */
  lemma RoundFacts(su: Setup, i: nat, d: PlanDisk, hole: nat)
    requires SetupOk(su) && i < |su.files| && DiskOk(su.files[i], su.filesSize[i], d)
    requires d.filesInSlice < su.maxFiles && hole > 0
    ensures |d.taken| == |su.files[i]| && ListOk(su.files[i]) && Contiguous(d.rows)
    ensures d.sumFilesLen == End(d.rows, |d.rows|)
    ensures QuestOk(QuestOf(su, i, d, hole)) && QuestOf(su, i, d, hole).room + d.filesInSlice == su.maxFiles
    ensures var p, z := Goal(QuestOf(su, i, d, hole)), AfterRound(su, i, d, hole);
      && (p.finished ==> z == Round(d.(diskFinished := true), 0) && p.hole == 0 && p.startRowid == 0)
      && (!p.finished ==> p.startRowid > 0 && p.lastRowid > 0)
      && (!p.finished ==>
            var picks := InsertionOf(su, i, d.taken, p.startRowid, p.lastRowid);
            && Within(su.files[i], picks) && |picks| > 0 && p.fileCount == |picks|
              && p.sizeSum == Total(su.files[i], picks)
            && z.disk == Inserted(su.files[i], d, picks)
            && z.hole == if z.disk.filesInSlice >= su.maxFiles then 0 else p.hole)
  {
    hide DiskSetupOk, Scan, NextFree, InsertionOf, Goal, FreeBytes, Inserted, Contiguous, End, Total, Increasing,
      ListOk, Within, FreePicks;
    assert DiskSetupOk(su, i);
    hide SetupOk;
    SetupList(su, i);
    PassIsInserted(su, i, d, hole);
    PicksWithin(su.files[i], d.taken,
      Scan(su.files[i], d.taken, hole, su.tolerance, su.maxFiles - d.filesInSlice, 0, hole).picks);
  }

  lemma PassPicks(files: seq<File>, taken: seq<bool>, tolerance: nat, room: nat, hole: nat)
    requires |files| == |taken| && hole > 0
    ensures var picks := Scan(files, taken, hole, tolerance, room, 0, hole).picks;
      PicksOk(files, taken, hole, 0, picks) && FreePicks(files, taken, picks)
  {
    var r := Scan(files, taken, hole, tolerance, room, 0, hole);
    assert PicksOk(files, taken, hole, 0, r.picks) by {
      hide PicksOk;
      ScanOk(files, taken, hole, tolerance, room, 0, hole);
      RunParts(files, taken, tolerance, room, hole, r);
    }
    hide Scan;
  }

  lemma RangeIsInserted(su: Setup, i: nat, taken: seq<bool>, hole: nat, picks: seq<nat>)
    requires i < |su.files| && |taken| == |su.files[i]| && ListOk(su.files[i])
    requires PicksOk(su.files[i], taken, hole, 0, picks) && |picks| > 0
    ensures Within(su.files[i], picks)
    ensures var from, to := su.files[i][picks[0]].key, su.files[i][picks[|picks| - 1]].key;
      from > 0 && to > 0 && InsertionOf(su, i, taken, from, to) == picks
  {
    var files := su.files[i];
    assert files[picks[0]].key > 0 && files[picks[|picks| - 1]].key > 0;
    RangeIsPass(files, taken, hole, picks);
    RowsTakenAll(su, files, picks, 0, 0);
    assert picks[..|picks|] == picks;
  }

  lemma SetupList(su: Setup, i: nat)
    requires i < |su.files| == |su.filesSize| && DiskSetupOk(su, i)
    ensures ListOk(su.files[i])
  {
  }

  /** A disk after its hole has been filled. */
  ghost function AfterFill(su: Setup, i: nat, d: PlanDisk, hole: nat): PlanDisk
    requires i < |su.files| && d.filesInSlice <= su.maxFiles && |d.taken| == |su.files[i]|
  {
    var f := Fill(su.files[i], d.taken, su.tolerance, su.maxFiles - d.filesInSlice, hole);
    if !Within(su.files[i], f.picks) then d
    else Inserted(su.files[i], d, f.picks).(diskFinished := d.diskFinished || f.finished)
  }

  lemma InsertedJoin(files: seq<File>, d: PlanDisk, a: seq<nat>, b: seq<nat>)
    requires Within(files, a) && Within(files, b)
    ensures Within(files, a + b) && Inserted(files, d, a + b) == Inserted(files, Inserted(files, d, a), b)
  {
    hide AddRows, Total;
    TotalJoin(files, a, b);
    AddRowsJoin(d.rows, files, a, b);
    assert Mark(d.taken, a + b) == Mark(Mark(d.taken, a), b);
  }

  lemma InsertedNothing(files: seq<File>, d: PlanDisk)
    ensures Within(files, []) && Inserted(files, d, []) == d
  {
    assert Mark(d.taken, []) == d.taken;
  }

  lemma FillWithin(files: seq<File>, taken: seq<bool>, tolerance: nat, room: nat, hole: nat)
    requires |files| == |taken|
    ensures Within(files, Fill(files, taken, tolerance, room, hole).picks)
  {
    FillOk(files, taken, tolerance, room, hole);
  }

  /** With no hole nothing changes; otherwise filling is one round and then filling what is left. */
  lemma FillByRounds(su: Setup, i: nat, d: PlanDisk, hole: nat)
    requires i < |su.files| && d.filesInSlice <= su.maxFiles && |d.taken| == |su.files[i]|
    ensures AfterFill(su, i, d, 0) == d
    ensures hole > 0 && d.filesInSlice < su.maxFiles ==>
      var z := AfterRound(su, i, d, hole);
      && |z.disk.taken| == |d.taken| && d.filesInSlice <= z.disk.filesInSlice <= su.maxFiles
      && d.sumFilesLen <= z.disk.sumFilesLen
      && (z.hole > 0 ==> d.filesInSlice < z.disk.filesInSlice < su.maxFiles)
      && AfterFill(su, i, d, hole) == AfterFill(su, i, z.disk, z.hole)
  {
    InsertedNothing(su.files[i], d);
    assert AfterFill(su, i, d, 0) == d;
    hide AfterFill, AfterRound;
    if hole > 0 && d.filesInSlice < su.maxFiles {
      RoundGrows(su, i, d, hole);
      RoundThenRest(su, i, d, hole);
    }
  }

  lemma RoundGrows(su: Setup, i: nat, d: PlanDisk, hole: nat)
    requires i < |su.files| && d.filesInSlice < su.maxFiles && |d.taken| == |su.files[i]| && hole > 0
    ensures var z := AfterRound(su, i, d, hole);
      && |z.disk.taken| == |d.taken| && d.filesInSlice <= z.disk.filesInSlice <= su.maxFiles
      && d.sumFilesLen <= z.disk.sumFilesLen
      && (z.hole > 0 ==> d.filesInSlice < z.disk.filesInSlice < su.maxFiles)
  {
    hide Increasing, Fits, Total, AddRows, Scan;
    if NextFree(su.files[i], d.taken, hole, 0) < |su.files[i]| {
      FirstPassPicks(su.files[i], d.taken, su.tolerance, su.maxFiles - d.filesInSlice, hole);
    }
  }

  /** What filling and one round mean when the pass finds something. */
  lemma FillUnfolds(su: Setup, i: nat, d: PlanDisk, hole: nat)
    requires i < |su.files| && d.filesInSlice < su.maxFiles && |d.taken| == |su.files[i]| && hole > 0
    requires NextFree(su.files[i], d.taken, hole, 0) < |su.files[i]|
    ensures var files, room := su.files[i], su.maxFiles - d.filesInSlice;
      var r := Scan(files, d.taken, hole, su.tolerance, room, 0, hole);
      && Within(files, r.picks) && |r.picks| <= room
      && AfterRound(su, i, d, hole).disk == Inserted(files, d, r.picks)
      && AfterRound(su, i, d, hole).hole == (if |r.picks| >= room then 0 else r.hole)
      && var rest := Fill(files, Inserted(files, d, r.picks).taken, su.tolerance, room - |r.picks|, r.hole);
         Fill(files, d.taken, su.tolerance, room, hole) == Filled(r.picks + rest.picks, rest.finished)
  {
    hide Scan, NextFree;
    PassPicks(su.files[i], d.taken, su.tolerance, su.maxFiles - d.filesInSlice, hole);
  }

  lemma AfterFillIs(su: Setup, i: nat, d: PlanDisk, hole: nat)
    requires i < |su.files| && d.filesInSlice <= su.maxFiles && |d.taken| == |su.files[i]|
    ensures var f := Fill(su.files[i], d.taken, su.tolerance, su.maxFiles - d.filesInSlice, hole);
      Within(su.files[i], f.picks)
      && AfterFill(su, i, d, hole) == Inserted(su.files[i], d, f.picks).(diskFinished := d.diskFinished || f.finished)
  {
    hide Fill;
    FillWithin(su.files[i], d.taken, su.tolerance, su.maxFiles - d.filesInSlice, hole);
  }

  lemma FullFill(files: seq<File>, taken: seq<bool>, tolerance: nat, hole: nat)
    requires |files| == |taken|
    ensures Fill(files, taken, tolerance, 0, hole) == Filled([], false)
  {
  }

  lemma RoundThenRest(su: Setup, i: nat, d: PlanDisk, hole: nat)
    requires i < |su.files| && d.filesInSlice < su.maxFiles && |d.taken| == |su.files[i]| && hole > 0
    ensures var z := AfterRound(su, i, d, hole);
      && |z.disk.taken| == |d.taken| && z.disk.filesInSlice <= su.maxFiles
      && AfterFill(su, i, d, hole) == AfterFill(su, i, z.disk, z.hole)
  {
    hide Fill, AfterRound, AfterFill, Scan, NextFree, Inserted, Within, Increasing;
    var files, room, z := su.files[i], su.maxFiles - d.filesInSlice, AfterRound(su, i, d, hole);
    RoundGrows(su, i, d, hole);
    if NextFree(files, d.taken, hole, 0) == |files| {
      NothingFound(su, i, d, hole);
    } else {
      FillUnfolds(su, i, d, hole);
      var r := Scan(files, d.taken, hole, su.tolerance, room, 0, hole);
      AfterFillIs(su, i, d, hole);
      AfterFillIs(su, i, z.disk, z.hole);
      InsertedCounts(files, d, r.picks);
      if z.hole != r.hole {
        FullFill(files, z.disk.taken, su.tolerance, r.hole);
        FullFill(files, z.disk.taken, su.tolerance, 0);
      }
      var rest := Fill(files, z.disk.taken, su.tolerance, room - |r.picks|, r.hole);
      InsertedJoin(files, d, r.picks, rest.picks);
    }
  }

  lemma InsertedCounts(files: seq<File>, d: PlanDisk, picks: seq<nat>)
    requires Within(files, picks)
    ensures Inserted(files, d, picks).filesInSlice == d.filesInSlice + |picks|
    ensures Inserted(files, d, picks).diskFinished == d.diskFinished
  {
  }

  lemma NothingFound(su: Setup, i: nat, d: PlanDisk, hole: nat)
    requires i < |su.files| && d.filesInSlice < su.maxFiles && |d.taken| == |su.files[i]| && hole > 0
    requires NextFree(su.files[i], d.taken, hole, 0) == |su.files[i]|
    ensures AfterRound(su, i, d, hole) == Round(d.(diskFinished := true), 0)
    ensures AfterFill(su, i, d, hole) == d.(diskFinished := true)
    ensures AfterFill(su, i, d.(diskFinished := true), 0) == d.(diskFinished := true)
  {
    hide Scan;
    InsertedNothing(su.files[i], d);
    InsertedNothing(su.files[i], d.(diskFinished := true));
  }

  lemma PicksWithin(files: seq<File>, taken: seq<bool>, picks: seq<nat>)
    requires |files| == |taken| && FreePicks(files, taken, picks)
    ensures Within(files, picks)
  {
  }

  /** A round keeps the disk's accounts. */
  lemma RoundKeepsDisk(su: Setup, i: nat, slices: seq<Slice>, d: PlanDisk, hole: nat)
    requires i < |su.files| == |su.filesSize| && d.filesInSlice < su.maxFiles && hole > 0
    requires DiskOk(su.files[i], su.filesSize[i], d) && PlacedOk(su.files[i], slices, i, d)
    ensures var z := AfterRound(su, i, d, hole).disk;
      DiskOk(su.files[i], su.filesSize[i], z) && PlacedOk(su.files[i], slices, i, z)
  {
    hide Scan, NextFree, Inserted, FreePicks;
    PassPicks(su.files[i], d.taken, su.tolerance, su.maxFiles - d.filesInSlice, hole);
    InsertKeepsDisk(su.files[i], su.filesSize[i], slices, i, d, 
      Scan(su.files[i], d.taken, hole, su.tolerance, su.maxFiles - d.filesInSlice, 0, hole).picks);
  }

  /** Filling a hole of disk i has got from d to `now`, with holeSize left. */
  ghost predicate Filling(su: Setup, i: nat, slices: seq<Slice>, d: PlanDisk, hole: nat, now: PlanDisk, holeSize: nat)
    requires i < |su.files| == |su.filesSize| && d.filesInSlice <= su.maxFiles && |d.taken| == |su.files[i]|
  {
    && |now.taken| == |su.files[i]| && d.filesInSlice <= now.filesInSlice <= su.maxFiles
    && (holeSize > 0 ==> now.filesInSlice < su.maxFiles) && d.sumFilesLen <= now.sumFilesLen
    && DiskOk(su.files[i], su.filesSize[i], now) && PlacedOk(su.files[i], slices, i, now)
    && AfterFill(su, i, now, holeSize) == AfterFill(su, i, d, hole)
  }

  lemma FillingRound(su: Setup, i: nat, slices: seq<Slice>, d: PlanDisk, hole: nat, now: PlanDisk, holeSize: nat)
    requires i < |su.files| == |su.filesSize| && d.filesInSlice <= su.maxFiles && |d.taken| == |su.files[i]|
    requires Filling(su, i, slices, d, hole, now, holeSize) && holeSize > 0
    ensures now.filesInSlice < su.maxFiles && |now.taken| == |su.files[i]|
    ensures var z := AfterRound(su, i, now, holeSize);
      && Filling(su, i, slices, d, hole, z.disk, z.hole)
      && (z.hole == 0 || z.disk.filesInSlice > now.filesInSlice)
      && now.sumFilesLen <= z.disk.sumFilesLen && now.filesInSlice <= z.disk.filesInSlice
  {
    hide AfterRound, AfterFill, DiskOk, PlacedOk;
    RoundKeepsDisk(su, i, slices, now, holeSize);
    FillByRounds(su, i, now, holeSize);
  }

  lemma FillingEnds(su: Setup, i: nat, slices: seq<Slice>, d: PlanDisk, hole: nat, now: PlanDisk)
    requires i < |su.files| == |su.filesSize| && d.filesInSlice <= su.maxFiles && |d.taken| == |su.files[i]|
    requires Filling(su, i, slices, d, hole, now, 0)
    ensures now == AfterFill(su, i, d, hole)
    ensures DiskOk(su.files[i], su.filesSize[i], now) && PlacedOk(su.files[i], slices, i, now)
  {
    hide AfterFill;
    FillByRounds(su, i, now, 0);
  }

  lemma FillingFacts(su: Setup, i: nat, slices: seq<Slice>, d: PlanDisk, hole: nat, now: PlanDisk, holeSize: nat)
    requires i < |su.files| == |su.filesSize| && d.filesInSlice <= su.maxFiles && |d.taken| == |su.files[i]|
    requires Filling(su, i, slices, d, hole, now, holeSize)
    ensures |now.taken| == |su.files[i]| && d.filesInSlice <= now.filesInSlice <= su.maxFiles
    ensures d.sumFilesLen <= now.sumFilesLen && DiskOk(su.files[i], su.filesSize[i], now)
  {
  }

  lemma FillingBegins(su: Setup, i: nat, slices: seq<Slice>, d: PlanDisk, hole: nat)
    requires i < |su.files| == |su.filesSize| && d.filesInSlice < su.maxFiles
    requires DiskOk(su.files[i], su.filesSize[i], d) && PlacedOk(su.files[i], slices, i, d)
    ensures |d.taken| == |su.files[i]| && Filling(su, i, slices, d, hole, d, hole)
  {
  }

  lemma UpdateTwice<T>(s: seq<T>, i: nat, a: T, b: T)
    requires i < |s|
    ensures s[i := a][i := b] == s[i := b]
  {
  }

  /** No disk that could still take files differs noticeably from the fullest one. */
  predicate Balanced(su: Setup, disks: seq<PlanDisk>, sliceSize: nat)
    requires |disks| <= |su.filesSize|
  {
    forall i {:trigger disks[i]} :: 0 <= i < |disks| && Active(su, i, disks[i]) ==>
      Same(disks[i].sumFilesLen, sliceSize, su.tolerance)
  }

  /** How a disk compares with the fullest one; zero if it takes no more files. */
  function Deficit(su: Setup, disks: seq<PlanDisk>, sliceSize: nat, i: nat): int
    requires i < |disks| <= |su.filesSize|
  {
    if Active(su, i, disks[i]) then PercentDiff(disks[i].sumFilesLen, sliceSize, su.tolerance) else 0
  }

  /** The choice of the next disk. */
  ghost predicate IsNext(su: Setup, disks: seq<PlanDisk>, sliceSize: nat, maxFilledDisk: nat, r: nat)
    requires r < |disks| <= |su.filesSize| && su.maxSizeDisk < |disks|
  {
    && Deficit(su, disks, sliceSize, r) < 0
    && if maxFilledDisk != su.maxSizeDisk && Deficit(su, disks, sliceSize, su.maxSizeDisk) < 0 then r == su.maxSizeDisk
       else forall i {:trigger Deficit(su, disks, sliceSize, i)} :: 0 <= i < |disks| ==>
         && Deficit(su, disks, sliceSize, r) <= Deficit(su, disks, sliceSize, i)
         && (i < r ==> Deficit(su, disks, sliceSize, r) < Deficit(su, disks, sliceSize, i))
  }

  lemma DeficitMeans(su: Setup, disks: seq<PlanDisk>, sliceSize: nat, i: nat)
    requires i < |disks| <= |su.filesSize| && disks[i].sumFilesLen <= sliceSize
    ensures var f := Deficit(su, disks, sliceSize, i);
      && f <= 0 && (f == 0 || f + su.tolerance < 0)
      && (f < 0 <==> Active(su, i, disks[i]) && !Same(disks[i].sumFilesLen, sliceSize, su.tolerance))
  {
    PercentDiffMeans(disks[i].sumFilesLen, sliceSize, su.tolerance);
  }

  /** A disk below the file limit that has bytes left and is not finished. */
  predicate Open(su: Setup, i: nat, d: PlanDisk)
    requires i < |su.filesSize|
  {
    d.filesInSlice < su.maxFiles && d.consumedSize < su.filesSize[i] && !d.diskFinished
  }

  /** Such a disk that lacks more than 64 bytes, and tolerance plus half a percent of the slice or more. */
  predicate Behind(su: Setup, i: nat, d: PlanDisk, sliceSize: nat)
    requires i < |su.filesSize|
  {
    && Open(su, i, d) && d.sumFilesLen + 64 < sliceSize
    && 200 * (sliceSize - d.sumFilesLen) >= (2 * su.tolerance + 1) * sliceSize
  }

  lemma BehindIff(su: Setup, disks: seq<PlanDisk>, sliceSize: nat, i: nat)
    requires i < |disks| <= |su.filesSize| && disks[i].sumFilesLen <= sliceSize
    ensures Behind(su, i, disks[i], sliceSize) <==> Deficit(su, disks, sliceSize, i) < 0
    ensures Active(su, i, disks[i]) <==> Open(su, i, disks[i])
    ensures Behind(su, i, disks[i], sliceSize)
      <==> Active(su, i, disks[i]) && !Same(disks[i].sumFilesLen, sliceSize, su.tolerance)
  {
    PercentDiffInNumbers(disks[i].sumFilesLen, sliceSize, su.tolerance);
    PercentDiffMeans(disks[i].sumFilesLen, sliceSize, su.tolerance);
  }

  /**
   * How the choice of the next disk comes out in bytes: no disk lacks noticeably more, unless the one with
   * most data comes first.
   */
  ghost predicate Neediest(su: Setup, disks: seq<PlanDisk>, sliceSize: nat, maxFilledDisk: nat, r: nat)
    requires r < |disks| <= |su.filesSize| && su.maxSizeDisk < |disks|
  {
    && Behind(su, r, disks[r], sliceSize)
    && if maxFilledDisk != su.maxSizeDisk && Behind(su, su.maxSizeDisk, disks[su.maxSizeDisk], sliceSize)
       then r == su.maxSizeDisk
       else forall i {:trigger disks[i]} :: 0 <= i < |disks| && Behind(su, i, disks[i], sliceSize) ==>
         100 * (disks[r].sumFilesLen - disks[i].sumFilesLen) < sliceSize
  }

  /** If one percentage is not below another, the gap it stands for is less than one percent smaller. */
  lemma GapsFollow(x: nat, y: nat, m: nat, p: nat, q: nat)
    requires m > 0 && p <= q && 200 * x < (2 * p + 1) * m && (2 * q - 1) * m <= 200 * y
    ensures 100 * (x - y) < m
  {
    assert (2 * q - 1) * m - (2 * p + 1) * m == 2 * (q - p) * m - 2 * m;
    assert (q - p) * m >= 0;
  }

  lemma NextIsNeediest(su: Setup, disks: seq<PlanDisk>, sliceSize: nat, maxFilledDisk: nat, r: nat)
    requires r < |disks| <= |su.filesSize| && su.maxSizeDisk < |disks|
    requires forall i {:trigger disks[i]} :: 0 <= i < |disks| ==> disks[i].sumFilesLen <= sliceSize
    requires IsNext(su, disks, sliceSize, maxFilledDisk, r)
    ensures Neediest(su, disks, sliceSize, maxFilledDisk, r)
  {
    hide Behind, PercentDiff, Active, Open;
    BehindIff(su, disks, sliceSize, r);
    BehindIff(su, disks, sliceSize, su.maxSizeDisk);
    forall i {:trigger disks[i]} | 0 <= i < |disks| && Behind(su, i, disks[i], sliceSize)
        && Deficit(su, disks, sliceSize, r) <= Deficit(su, disks, sliceSize, i)
      ensures 100 * (disks[r].sumFilesLen - disks[i].sumFilesLen) < sliceSize
    {
      BehindIff(su, disks, sliceSize, i);
      DeficitGaps(su, disks, sliceSize, r, i);
    }
  }

  lemma DeficitGaps(su: Setup, disks: seq<PlanDisk>, sliceSize: nat, r: nat, i: nat)
    requires r < |disks| <= |su.filesSize| && i < |disks|
    requires disks[r].sumFilesLen <= sliceSize && disks[i].sumFilesLen <= sliceSize
    requires Deficit(su, disks, sliceSize, r) <= Deficit(su, disks, sliceSize, i) < 0
    ensures 100 * (disks[r].sumFilesLen - disks[i].sumFilesLen) < sliceSize
  {
    hide PercentDiff, Active;
    PercentDiffInNumbers(disks[r].sumFilesLen, sliceSize, su.tolerance);
    PercentDiffInNumbers(disks[i].sumFilesLen, sliceSize, su.tolerance);
    GapsFollow(sliceSize - disks[i].sumFilesLen, sliceSize - disks[r].sumFilesLen, sliceSize,
      -Deficit(su, disks, sliceSize, i), -Deficit(su, disks, sliceSize, r));
  }

  /** Balance in bytes. */
  lemma BalancedIff(su: Setup, disks: seq<PlanDisk>, sliceSize: nat)
    requires |disks| <= |su.filesSize|
    requires forall i {:trigger disks[i]} :: 0 <= i < |disks| ==> disks[i].sumFilesLen <= sliceSize
    ensures Balanced(su, disks, sliceSize)
      <==> forall i {:trigger Behind(su, i, disks[i], sliceSize)} :: 0 <= i < |disks| ==>
        !Behind(su, i, disks[i], sliceSize)
  {
    hide Behind, Active, Same;
    forall i {:trigger disks[i]} | 0 <= i < |disks|
      ensures Behind(su, i, disks[i], sliceSize)
        <==> Active(su, i, disks[i]) && !Same(disks[i].sumFilesLen, sliceSize, su.tolerance)
    {
      BehindIff(su, disks, sliceSize, i);
    }
  }

  lemma ChoiceInBytes(su: Setup, disks: seq<PlanDisk>, sliceSize: nat, maxFilledDisk: nat)
    requires |disks| <= |su.filesSize| && su.maxSizeDisk < |disks|
    requires forall i {:trigger disks[i]} :: 0 <= i < |disks| ==> disks[i].sumFilesLen <= sliceSize
    ensures Balanced(su, disks, sliceSize)
      <==> forall i {:trigger Behind(su, i, disks[i], sliceSize)} :: 0 <= i < |disks| ==>
        !Behind(su, i, disks[i], sliceSize)
    ensures forall r: nat {:trigger IsNext(su, disks, sliceSize, maxFilledDisk, r)} ::
      r < |disks| && IsNext(su, disks, sliceSize, maxFilledDisk, r) ==> Neediest(su, disks, sliceSize, maxFilledDisk, r)
  {
    hide Behind, Neediest, IsNext, Balanced;
    BalancedIff(su, disks, sliceSize);
    forall r: nat {:trigger IsNext(su, disks, sliceSize, maxFilledDisk, r)} |
        r < |disks| && IsNext(su, disks, sliceSize, maxFilledDisk, r)
      ensures Neediest(su, disks, sliceSize, maxFilledDisk, r)
    {
      NextIsNeediest(su, disks, sliceSize, maxFilledDisk, r);
    }
  }

  /** How far one filling call may take a disk beyond the size it aims at, given the size of the last file it added. */
  predicate WithinReach(sum: nat, aim: nat, last: nat, tolerance: nat) {
    sum <= aim || sum - aim <= MIN_THE_SAME_SIZE || 200 * (sum - aim) < (2 * tolerance + 1) * last
  }

  /** Size of the last row of a disk. */
  function LastSize(rows: seq<Row>): nat { if |rows| == 0 then 0 else rows[|rows| - 1].fsize }

  lemma {:induction false} LastAdded(rows: seq<Row>, files: seq<File>, picks: seq<nat>)
    requires Within(files, picks) && |picks| > 0
    ensures LastSize(AddRows(rows, files, picks)) == files[picks[|picks| - 1]].size
    decreases |picks|
  {
    var rest := Rest(files, picks);
    if |picks| > 1 {
      LastAdded(AddRow(rows, files[picks[0]]), files, rest);
    }
  }

  /** The disk is shorter than s, and none of its unassigned files fits what it lacks. */
  ghost predicate FitsNone(files: seq<File>, s: nat, d: PlanDisk) {
    d.sumFilesLen < s && |d.taken| == |files| && NothingFits(files, d.taken, s - d.sumFilesLen)
  }

  /** If filling finishes a disk, no file fits what is left of that very hole. */
  lemma FinishedFitsNone(su: Setup, i: nat, sliceSize: nat, d: PlanDisk, z: PlanDisk)
    requires FilledUp(su, sliceSize, i, d, z) && !d.diskFinished && z.diskFinished
    ensures FitsNone(su.files[i], sliceSize, z)
  {
    hide Fill, Mark, NothingFits, AddRows, Total, Closes, ChoiceOk;
    FillOk(su.files[i], d.taken, su.tolerance, su.maxFiles - d.filesInSlice, sliceSize - d.sumFilesLen);
  }

  /**
   * What filling a hole up to the slice size does to a disk. If it finishes the disk, no file fits what is
   * left of that hole.
   */
  lemma FillKeepsDisk(su: Setup, i: nat, slices: seq<Slice>, sliceSize: nat, d: PlanDisk)
    requires i < |su.files| == |su.filesSize| && DiskInv(su, slices, i, d)
    requires d.filesInSlice < su.maxFiles && !d.diskFinished && d.sumFilesLen < sliceSize
    ensures |d.taken| == |su.files[i]|
    ensures var z := AfterFill(su, i, d, sliceSize - d.sumFilesLen);
      && z.consumedSize == d.consumedSize && d.filesInSlice <= z.filesInSlice <= su.maxFiles
      && d.sumFilesLen <= z.sumFilesLen && |z.taken| == |d.taken|
      && (z.diskFinished ==> FitsNone(su.files[i], sliceSize, z))
      && WithinReach(z.sumFilesLen, sliceSize, LastSize(z.rows), su.tolerance)
      && FreeCount(z.taken, |z.taken|) + (z.filesInSlice - d.filesInSlice) == FreeCount(d.taken, |d.taken|)
      && (z.filesInSlice > d.filesInSlice || z.diskFinished)
  {
    hide DiskOk, PlacedOk, Fill, FreeCount, Mark, NothingFits, AddRows, Total, Closes, ChoiceOk, FreePicks, Increasing,
      WithinReach, LastSize;
    var files, hole, room := su.files[i], sliceSize - d.sumFilesLen, su.maxFiles - d.filesInSlice;
    SameCount(files, su.filesSize[i], d);
    hide DiskInv;
    var f := Fill(files, d.taken, su.tolerance, room, hole);
    FillOk(files, d.taken, su.tolerance, room, hole);
    ChoiceIsFree(files, d.taken, room, hole, f.picks);
    FreeShrinks(files, d.taken, f.picks);
    FillReach(files, d, su.tolerance, room, hole, f);
  }

  lemma SameCount(files: seq<File>, filesSize: nat, d: PlanDisk)
    requires DiskOk(files, filesSize, d)
    ensures |d.taken| == |files|
  {
  }

  lemma ChoiceIsFree(files: seq<File>, taken: seq<bool>, room: nat, hole: nat, picks: seq<nat>)
    requires |files| == |taken| && ChoiceOk(files, taken, room, hole, picks)
    ensures Within(files, picks) && FreePicks(files, taken, picks) && |picks| <= room
  {
    forall a {:trigger picks[a]} | 0 <= a < |picks|
      ensures !taken[picks[a]]
    {
      assert Fits(files, taken, hole, picks[a]);
    }
  }

  lemma FillReach(files: seq<File>, d: PlanDisk, tolerance: nat, room: nat, hole: nat, f: Filled)
    requires |files| == |d.taken| && hole > 0 && EndOk(files, d.taken, tolerance, room, hole, f)
    ensures Within(files, f.picks)
    ensures WithinReach(d.sumFilesLen + Total(files, f.picks), d.sumFilesLen + hole,
      LastSize(AddRows(d.rows, files, f.picks)), tolerance)
  {
    hide NothingFits, Same, Mark;
    if Total(files, f.picks) > hole {
      hide Total, AddRows, LastSize, Closes;
      Overshoot(files, f.picks, hole, tolerance);
      LastAdded(d.rows, files, f.picks);
    }
  }

  /** The invariant of planning: every disk's accounts balance and the slice's head sums them up. */
  ghost predicate StateOk(su: Setup, slices: seq<Slice>, disks: seq<PlanDisk>, sliceSize: nat, maxFilledDisk: nat,
                          filesCount: nat) {
    && SetupOk(su) && |disks| == |su.files| == |su.filesSize|
    && (forall i {:trigger disks[i]} :: 0 <= i < |disks| ==> DiskInv(su, slices, i, disks[i]))
    && HeadOk(disks, sliceSize, maxFilledDisk, filesCount)
  }

  /** Progress: files have been assigned, or as many are left and one more disk is finished. */
  ghost predicate Progress(before: seq<PlanDisk>, after: seq<PlanDisk>) {
    || TotalFree(after, |after|) < TotalFree(before, |before|)
    || (TotalFree(after, |after|) == TotalFree(before, |before|)
      && Unfinished(after, |after|) < Unfinished(before, |before|))
  }

  lemma DiskFacts(su: Setup, slices: seq<Slice>, disks: seq<PlanDisk>, sliceSize: nat, maxFilledDisk: nat,
                  filesCount: nat, r: nat)
    requires StateOk(su, slices, disks, sliceSize, maxFilledDisk, filesCount) && r < |disks|
    ensures SetupOk(su) && |disks| == |su.files| == |su.filesSize| && su.maxSizeDisk < |disks|
    ensures DiskInv(su, slices, r, disks[r]) && |disks[r].taken| == |su.files[r]|
    ensures DiskOk(su.files[r], su.filesSize[r], disks[r]) && PlacedOk(su.files[r], slices, r, disks[r])
    ensures HeadOk(disks, sliceSize, maxFilledDisk, filesCount) && disks[r].sumFilesLen <= sliceSize
    ensures disks[maxFilledDisk].sumFilesLen == sliceSize
  {
  }

  /** A disk with a deficit is one that filling applies to. */
  lemma DeficitFacts(su: Setup, disks: seq<PlanDisk>, sliceSize: nat, r: nat)
    requires r < |disks| <= |su.filesSize| && disks[r].sumFilesLen <= sliceSize && Deficit(su, disks, sliceSize, r) < 0
    ensures disks[r].filesInSlice < su.maxFiles && !disks[r].diskFinished && disks[r].sumFilesLen < sliceSize
  {
    PercentDiffMeans(disks[r].sumFilesLen, sliceSize, su.tolerance);
  }

  /** Disk r after it has been filled up towards the slice size. */
  ghost predicate FilledUp(su: Setup, sliceSize: nat, r: nat, d: PlanDisk, z: PlanDisk) {
    && r < |su.files| && d.filesInSlice < su.maxFiles && |d.taken| == |su.files[r]| && d.sumFilesLen < sliceSize
    && z == AfterFill(su, r, d, sliceSize - d.sumFilesLen)
  }

  lemma FilledUpFacts(su: Setup, r: nat, slices: seq<Slice>, sliceSize: nat, d: PlanDisk, z: PlanDisk)
    requires r < |su.files| == |su.filesSize| && DiskInv(su, slices, r, d)
    requires FilledUp(su, sliceSize, r, d, z) && !d.diskFinished
    ensures d.filesInSlice <= z.filesInSlice <= su.maxFiles && d.sumFilesLen <= z.sumFilesLen
    ensures z.diskFinished ==> FitsNone(su.files[r], sliceSize, z)
    ensures WithinReach(z.sumFilesLen, sliceSize, LastSize(z.rows), su.tolerance)
    ensures FreeCount(z.taken, |z.taken|) + (z.filesInSlice - d.filesInSlice) == FreeCount(d.taken, |d.taken|)
    ensures z.filesInSlice > d.filesInSlice || z.diskFinished
  {
    hide DiskInv, AfterFill, WithinReach, FitsNone;
    FillKeepsDisk(su, r, slices, sliceSize, d);
  }

  /** Filling one disk makes progress. */
  lemma FillProgress(disks: seq<PlanDisk>, r: nat, z: PlanDisk)
    requires r < |disks| && !disks[r].diskFinished && disks[r].filesInSlice <= z.filesInSlice
    requires FreeCount(z.taken, |z.taken|) + (z.filesInSlice - disks[r].filesInSlice)
      == FreeCount(disks[r].taken, |disks[r].taken|)
    requires z.filesInSlice > disks[r].filesInSlice || z.diskFinished
    ensures Progress(disks, disks[r := z])
  {
    hide FreeCount;
    CountsChange(disks, r, z, |disks|);
  }

  /** Filling one disk keeps the invariant. */
  lemma FillKeepsState(su: Setup, slices: seq<Slice>, disks: seq<PlanDisk>, sliceSize: nat, maxFilledDisk: nat,
                       filesCount: nat, r: nat, z: PlanDisk)
    requires StateOk(su, slices, disks, sliceSize, maxFilledDisk, filesCount)
    requires r < |disks| == |su.files| == |su.filesSize|
    requires DiskOk(su.files[r], su.filesSize[r], z) && PlacedOk(su.files[r], slices, r, z)
    requires disks[r].filesInSlice <= z.filesInSlice && disks[r].sumFilesLen <= z.sumFilesLen
    ensures StateOk(su, slices, disks[r := z], Max(sliceSize, z.sumFilesLen),
                    if z.sumFilesLen > sliceSize then r
                      else maxFilledDisk, filesCount + z.filesInSlice - disks[r].filesInSlice)
  {
    DiskFacts(su, slices, disks, sliceSize, maxFilledDisk, filesCount, r);
    hide StateOk, DiskInv, HeadOk, DiskOk, PlacedOk;
    InvFromParts(su, slices, r, z);
    GrowKeepsHead(disks, sliceSize, maxFilledDisk, filesCount, r, z);
    StateUpdated(su, slices, disks, sliceSize, maxFilledDisk, filesCount, r, z, Max(sliceSize, z.sumFilesLen),
                 if z.sumFilesLen > sliceSize then r
                   else maxFilledDisk, filesCount + z.filesInSlice - disks[r].filesInSlice);
  }

  lemma FillUpDone(su: Setup, slices: seq<Slice>, disks: seq<PlanDisk>, sliceSize: nat, maxFilledDisk: nat,
                   filesCount: nat,
                   r: nat, z: PlanDisk, after: seq<PlanDisk>, sliceSize2: nat, maxFilledDisk2: nat, filesCount2: nat)
    requires StateOk(su, slices, disks, sliceSize, maxFilledDisk, filesCount)
    requires r < |disks| == |su.files| == |su.filesSize| && Deficit(su, disks, sliceSize, r) < 0
    requires |disks[r].taken| == |su.files[r]| && disks[r].filesInSlice < su.maxFiles
    requires disks[r].sumFilesLen < sliceSize
    requires z == AfterFill(su, r, disks[r], sliceSize - disks[r].sumFilesLen)
    requires DiskOk(su.files[r], su.filesSize[r], z) && PlacedOk(su.files[r], slices, r, z)
    requires after == disks[r := z] && sliceSize2 == Max(sliceSize, z.sumFilesLen)
    requires maxFilledDisk2 == (if z.sumFilesLen > sliceSize then r else maxFilledDisk)
    requires filesCount2 == filesCount + z.filesInSlice - disks[r].filesInSlice
    ensures StateOk(su, slices, after, sliceSize2, maxFilledDisk2, filesCount2) && sliceSize <= sliceSize2
    ensures Progress(disks, after) && FilledUp(su, sliceSize, r, disks[r], z) && z.filesInSlice <= su.maxFiles
    ensures z.diskFinished ==> FitsNone(su.files[r], sliceSize, z)
    ensures WithinReach(z.sumFilesLen, sliceSize, LastSize(z.rows), su.tolerance)
  {
    hide AfterFill, StateOk, HeadOk, DiskInv, DiskOk, PlacedOk, FitsNone, Progress, WithinReach, LastSize, Deficit,
      FreeCount, SetupOk;
    assert FilledUp(su, sliceSize, r, disks[r], z);
    hide FilledUp;
    DiskFacts(su, slices, disks, sliceSize, maxFilledDisk, filesCount, r);
    DeficitFacts(su, disks, sliceSize, r);
    FilledUpFacts(su, r, slices, sliceSize, disks[r], z);
    FillProgress(disks, r, z);
    FillKeepsState(su, slices, disks, sliceSize, maxFilledDisk, filesCount, r, z);
  }

  lemma StateUpdated(su: Setup, slices: seq<Slice>, disks: seq<PlanDisk>, sliceSize: nat, maxFilledDisk: nat,
                     filesCount: nat, r: nat, z: PlanDisk, sliceSize2: nat, maxFilledDisk2: nat, filesCount2: nat)
    requires StateOk(su, slices, disks, sliceSize, maxFilledDisk, filesCount)
    requires r < |disks| <= |su.files| == |su.filesSize| && DiskInv(su, slices, r, z)
    requires HeadOk(disks[r := z], sliceSize2, maxFilledDisk2, filesCount2)
    ensures StateOk(su, slices, disks[r := z], sliceSize2, maxFilledDisk2, filesCount2)
  {
    hide DiskInv, HeadOk, SetupOk;
  }

  lemma InvFromParts(su: Setup, slices: seq<Slice>, i: nat, d: PlanDisk)
    requires i < |su.files| == |su.filesSize| && DiskOk(su.files[i], su.filesSize[i], d)
    requires PlacedOk(su.files[i], slices, i, d)
    ensures DiskInv(su, slices, i, d)
  {
  }
}
