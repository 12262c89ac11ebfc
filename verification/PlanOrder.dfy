/**
 * What planned slices mean for the rest of the program. Rows record the start of each file in insertion
 * order, while parity is generated, and headers are loaded, in key order: the two agree exactly if a
 * disk's files were inserted by ascending key. Within one filling call they are; across calls they are
 * exactly if each call found the first file that fits behind the rows the disk already had.
 */
module PlanOrder {
  import opened Bytes
  import opened Streams
  import opened PlanRules
  import opened PlanTables
  import opened PlanState
  import opened PlanFill
  import opened PlanRun
  import opened PlanHistory
  import opened Planner

  // ---------------------------------------------------------------- exactly once

  lemma {:induction false} TakenCount(files: seq<File>, taken: seq<bool>, n: nat, j: nat)
    requires ListOk(files) && n <= |files| == |taken| && j < |files|
    ensures TakenBag(files, taken, n)[files[j]] == if j < n && taken[j] then 1 else 0
  {
    if n > 0 {
      TakenCount(files, taken, n - 1, j);
      assert n - 1 != j ==> files[n - 1].key != files[j].key;
    }
  }

  /** After planning, a file has exactly one row in all committed slices if it is assigned, and none otherwise. */
  lemma PlacedOnce(su: Setup, slices: seq<Slice>, disks: seq<PlanDisk>, i: nat, j: nat)
    requires SetupOk(su) && CommittedOk(su, slices, disks) && i < |su.files| && j < |su.files[i]|
    ensures i < |disks| && j < |disks[i].taken|
    ensures Placed(slices, i)[su.files[i][j]] == if disks[i].taken[j] then 1 else 0
  {
    assert DiskSetupOk(su, i);
    assert |disks[i].taken| == |su.files[i]|;
    hide SetupOk, Placed;
    TakenCount(su.files[i], disks[i].taken, |su.files[i]|, j);
  }

  // ---------------------------------------------------------------- starts and key order

  /** Bytes of the first n rows whose key is smaller: where a file lies when the rows are taken in key order. */
  function KeyOffset(rows: seq<Row>, key: nat, n: nat): nat
    requires n <= |rows|
  {
    if n == 0 then 0 else KeyOffset(rows, key, n - 1) + if rows[n - 1].dseq < key then rows[n - 1].fsize else 0
  }

  /** Recorded starts are the prefix sums in key order. */
  ghost predicate StartsInKeyOrder(rows: seq<Row>) {
    forall j {:trigger rows[j].start} :: 0 <= j < |rows| ==> rows[j].start == KeyOffset(rows, rows[j].dseq, |rows|)
  }

  predicate Ascending(rows: seq<Row>) {
    forall j, m {:trigger rows[j].dseq, rows[m].dseq} :: 0 <= j < m < |rows| ==> rows[j].dseq < rows[m].dseq
  }

  /** Ascending keys, except that files without bytes may come in any order among themselves. */
  predicate InOrder(rows: seq<Row>) {
    forall j, m {:trigger rows[j].dseq, rows[m].dseq} :: 0 <= j < m < |rows| ==>
      rows[j].dseq < rows[m].dseq || (rows[j].fsize == 0 && rows[m].fsize == 0)
  }

  lemma {:induction false} OffsetInOrder(rows: seq<Row>, j: nat, n: nat)
    requires InOrder(rows) && j < |rows| && n <= |rows|
    ensures KeyOffset(rows, rows[j].dseq, n) == End(rows, if n <= j then n else j)
  {
    if n > 0 {
      OffsetInOrder(rows, j, n - 1);
      assert n - 1 < j ==> rows[n - 1].dseq < rows[j].dseq || rows[n - 1].fsize == 0;
      assert n - 1 > j ==> rows[n - 1].dseq > rows[j].dseq || rows[n - 1].fsize == 0;
    }
  }

  /** A row between two keys counts for the larger one only. */
  lemma {:induction false} OffsetCounts(rows: seq<Row>, a: nat, b: nat, n: nat, m: nat)
    requires m < n <= |rows| && a <= rows[m].dseq < b
    ensures KeyOffset(rows, a, n) + rows[m].fsize <= KeyOffset(rows, b, n)
  {
    if m < n - 1 {
      OffsetCounts(rows, a, b, n - 1, m);
    } else {
      OffsetGrows(rows, a, b, n - 1);
    }
  }

  lemma {:induction false} OffsetGrows(rows: seq<Row>, a: nat, b: nat, n: nat)
    requires a <= b && n <= |rows|
    ensures KeyOffset(rows, a, n) <= KeyOffset(rows, b, n)
  {
    if n > 0 {
      OffsetGrows(rows, a, b, n - 1);
    }
  }

  /** Rows that tile a stream start behind the ones before them. */
  lemma StartsGrow(rows: seq<Row>, j: nat, m: nat)
    requires Contiguous(rows) && j < m < |rows|
    ensures rows[j].start + rows[j].fsize <= rows[m].start
  {
    EndMono(rows, j + 1, m);
  }

  /** The recorded starts are right for parity and header exactly if files with bytes were inserted by ascending key. */
  lemma StartsRightIff(rows: seq<Row>)
    requires Contiguous(rows)
    requires forall j, m {:trigger rows[j].dseq, rows[m].dseq} :: 0 <= j < m < |rows| ==> rows[j].dseq != rows[m].dseq
    ensures StartsInKeyOrder(rows) <==> InOrder(rows)
  {
    if InOrder(rows) {
      forall j {:trigger rows[j].start} | 0 <= j < |rows|
        ensures rows[j].start == KeyOffset(rows, rows[j].dseq, |rows|)
      {
        OffsetInOrder(rows, j, |rows|);
      }
    }
    if StartsInKeyOrder(rows) {
      hide Contiguous;
      forall j, m {:trigger rows[j].dseq, rows[m].dseq} | 0 <= j < m < |rows| && rows[j].dseq > rows[m].dseq
        ensures rows[j].fsize == 0 && rows[m].fsize == 0
      {
        StartsGrow(rows, j, m);
        OffsetCounts(rows, rows[m].dseq, rows[j].dseq, |rows|, m);
      }
    }
  }

  lemma AscendsIff(rows: seq<Row>)
    requires forall j {:trigger rows[j].fsize} :: 0 <= j < |rows| ==> rows[j].fsize > 0
    ensures InOrder(rows) <==> Ascending(rows)
  {
  }

  // ---------------------------------------------------------------- one filling call

  lemma {:induction false} AddedKeys(rows: seq<Row>, files: seq<File>, picks: seq<nat>, a: nat)
    requires Within(files, picks)
    ensures var r := AddRows(rows, files, picks);
      && |r| == |rows| + |picks| && r[..|rows|] == rows
      && (a < |picks| ==> r[|rows| + a].dseq == files[picks[a]].key && r[|rows| + a].fsize == files[picks[a]].size)
    decreases |picks|
  {
    if |picks| > 0 {
      var rest := Rest(files, picks);
      AddedKeys(AddRow(rows, files[picks[0]]), files, rest, if a > 0 then a - 1 else 0);
      var r := AddRows(rows, files, picks);
      assert r[..|rows|] == r[..|rows| + 1][..|rows|];
      assert r[|rows|] == r[..|rows| + 1][|rows|];
    }
  }

  lemma AddedKey(rows: seq<Row>, files: seq<File>, picks: seq<nat>, x: nat)
    requires Within(files, picks) && x < |rows| + |picks|
    ensures var r := AddRows(rows, files, picks);
      && |r| == |rows| + |picks|
      && (x < |rows| ==> r[x] == rows[x])
      && (x >= |rows| ==> r[x].dseq == files[picks[x - |rows|]].key && r[x].fsize == files[picks[x - |rows|]].size)
  {
    hide AddRows;
    AddedKeys(rows, files, picks, if x < |rows| then 0 else x - |rows|);
    var r := AddRows(rows, files, picks);
    assert x < |rows| ==> r[x] == r[..|rows|][x];
  }

  /** The row stands for a file of the list. */
  ghost predicate IsFile(files: seq<File>, row: Row) {
    exists p {:trigger files[p]} :: 0 <= p < |files| && files[p] == File(row.dseq, row.fsize)
  }

  ghost predicate AreFiles(files: seq<File>, rows: seq<Row>) {
    forall j {:trigger rows[j]} :: 0 <= j < |rows| ==> IsFile(files, rows[j])
  }

  lemma AddedAreFiles(rows: seq<Row>, files: seq<File>, picks: seq<nat>)
    requires Within(files, picks) && AreFiles(files, rows)
    ensures AreFiles(files, AddRows(rows, files, picks))
  {
    hide AddRows;
    var r := AddRows(rows, files, picks);
    AddedKeys(rows, files, picks, 0);
    forall x {:trigger r[x]} | 0 <= x < |r|
      ensures IsFile(files, r[x])
    {
      AddedKey(rows, files, picks, x);
      if x >= |rows| {
        assert files[picks[x - |rows|]] == File(r[x].dseq, r[x].fsize);
      } else {
        assert IsFile(files, rows[x]);
      }
    }
  }

  /** Of two files the one with the larger key is not the larger one. */
  lemma LaterIsSmaller(files: seq<File>, row: Row, p: nat)
    requires ListOk(files) && IsFile(files, row) && p < |files| && files[p].key <= row.dseq
    ensures row.fsize <= files[p].size
  {
    var t :| 0 <= t < |files| && files[t] == File(row.dseq, row.fsize);
    assert t >= p;
  }

  /**
   * What a caller can check before a filling call: the first file that fits the hole comes behind all rows
   * that the disk already has, or has no bytes, or there is none.
   */
  ghost predicate CallInOrder(files: seq<File>, rows: seq<Row>, taken: seq<bool>, hole: nat)
    requires |files| == |taken|
  {
    var q := NextFree(files, taken, hole, 0);
    q == |files| || files[q].size == 0 || forall j {:trigger rows[j].dseq} :: 0 <= j < |rows| ==>
      rows[j].dseq < files[q].key
  }

  lemma FillFirst(files: seq<File>, taken: seq<bool>, tolerance: nat, room: nat, hole: nat)
    requires |files| == |taken| && hole > 0 && room > 0
    ensures var picks, q := Fill(files, taken, tolerance, room, hole).picks, NextFree(files, taken, hole, 0);
      && Within(files, picks) && Increasing(picks)
      && (q == |files| ==> picks == []) && (q < |files| ==> |picks| > 0 && picks[0] == q)
  {
    hide Scan, NextFree, EndOk;
    FillOk(files, taken, tolerance, room, hole);
    if NextFree(files, taken, hole, 0) < |files| {
      FirstPassPicks(files, taken, tolerance, room, hole);
    }
  }

  /** A disk in key order stays so in a filling call exactly if the call meets its condition. */
  lemma FillInOrderIff(files: seq<File>, rows: seq<Row>, taken: seq<bool>, tolerance: nat, room: nat, hole: nat)
    requires ListOk(files) && |files| == |taken| && hole > 0 && room > 0 && AreFiles(files, rows)
    ensures var picks := Fill(files, taken, tolerance, room, hole).picks;
      Within(files, picks) && (InOrder(AddRows(rows, files, picks))
        <==> InOrder(rows) && CallInOrder(files, rows, taken, hole))
  {
    hide Fill, NextFree, AddRows, InOrder, CallInOrder;
    var picks, q := Fill(files, taken, tolerance, room, hole).picks, NextFree(files, taken, hole, 0);
    FillFirst(files, taken, tolerance, room, hole);
    if InOrder(AddRows(rows, files, picks)) {
      StillInOrder(files, rows, picks, taken, hole);
    } else if InOrder(rows) && CallInOrder(files, rows, taken, hole) {
      BecomesInOrder(files, rows, picks, taken, hole);
    }
  }

  lemma StillInOrder(files: seq<File>, rows: seq<Row>, picks: seq<nat>, taken: seq<bool>, hole: nat)
    requires |files| == |taken| && Within(files, picks) && InOrder(AddRows(rows, files, picks))
    requires var q := NextFree(files, taken, hole, 0); q < |files| ==> |picks| > 0 && picks[0] == q
    ensures InOrder(rows) && CallInOrder(files, rows, taken, hole)
  {
    hide AddRows, NextFree;
    var r, q := AddRows(rows, files, picks), NextFree(files, taken, hole, 0);
    AddedKeys(rows, files, picks, 0);
    forall j, m {:trigger rows[j].dseq, rows[m].dseq} | 0 <= j < m < |rows|
      ensures rows[j].dseq < rows[m].dseq || (rows[j].fsize == 0 && rows[m].fsize == 0)
    {
      AddedKey(rows, files, picks, j);
      AddedKey(rows, files, picks, m);
      assert r[j].dseq < r[m].dseq || (r[j].fsize == 0 && r[m].fsize == 0);
    }
    if q < |files| && files[q].size > 0 {
      AddedKey(rows, files, picks, |rows|);
      forall j {:trigger rows[j].dseq} | 0 <= j < |rows|
        ensures rows[j].dseq < files[q].key
      {
        AddedKey(rows, files, picks, j);
        assert r[j].dseq < r[|rows|].dseq;
      }
    }
  }

  lemma BecomesInOrder(files: seq<File>, rows: seq<Row>, picks: seq<nat>, taken: seq<bool>, hole: nat)
    requires ListOk(files) && |files| == |taken| && AreFiles(files, rows) && Within(files, picks) && Increasing(picks)
    requires InOrder(rows) && CallInOrder(files, rows, taken, hole)
    requires var q := NextFree(files, taken, hole, 0); if q < |files| then |picks| > 0 && picks[0] == q else picks == []
    ensures InOrder(AddRows(rows, files, picks))
  {
    hide AddRows, NextFree, Within;
    var r := AddRows(rows, files, picks);
    AddedKeys(rows, files, picks, 0);
    forall j, m {:trigger r[j].dseq, r[m].dseq} | 0 <= j < m < |r|
      ensures r[j].dseq < r[m].dseq || (r[j].fsize == 0 && r[m].fsize == 0)
    {
      AddedKey(rows, files, picks, j);
      AddedKey(rows, files, picks, m);
      if m < |rows| {
        assert rows[j].dseq < rows[m].dseq || (rows[j].fsize == 0 && rows[m].fsize == 0);
      } else if j < |rows| {
        assert IsFile(files, rows[j]);
        NewBehindOld(files, rows, picks, taken, hole, j, m - |rows|);
      } else {
        NewAscend(files, picks, j - |rows|, m - |rows|);
      }
    }
  }

  lemma NewAscend(files: seq<File>, picks: seq<nat>, a: nat, b: nat)
    requires ListOk(files) && Within(files, picks) && Increasing(picks) && a < b < |picks|
    ensures files[picks[a]].key < files[picks[b]].key
  {
    assert picks[a] < picks[b];
  }

  lemma NewBehindOld(files: seq<File>, rows: seq<Row>, picks: seq<nat>, taken: seq<bool>, hole: nat, j: nat, a: nat)
    requires ListOk(files) && |files| == |taken| && Within(files, picks) && Increasing(picks) && a < |picks|
    requires j < |rows| && IsFile(files, rows[j]) && CallInOrder(files, rows, taken, hole)
    requires var q := NextFree(files, taken, hole, 0); q < |files| && picks[0] == q
    ensures rows[j].dseq < files[picks[a]].key || (rows[j].fsize == 0 && files[picks[a]].size == 0)
  {
    hide NextFree, IsFile;
    var q, p := NextFree(files, taken, hole, 0), picks[a];
    assert picks[0] <= picks[a] && p < |files|;
    assert files[q].key <= files[p].key && files[q].size >= files[p].size;
    if files[p].key <= rows[j].dseq {
      LaterIsSmaller(files, rows[j], p);
    }
  }

  /**
   * A disk that got its first file and then was filled at most once in a slice has its files in key
   * order: the filling picks later files of the list only, in list order.
   */
  lemma OneFillAscends(files: seq<File>, d: PlanDisk, first: nat, tolerance: nat, room: nat, hole: nat)
    requires ListOk(files) && |d.taken| == |files| && first < |files|
    requires d.rows == [Row(files[first].key, files[first].size, 0)]
    requires forall k :: 0 <= k <= first ==> d.taken[k]
    ensures var picks := Fill(files, d.taken, tolerance, room, hole).picks;
      Within(files, picks) && Ascending(AddRows(d.rows, files, picks))
  {
    hide Fill, ChoiceOk, EndOk, AddRows;
    var picks := Fill(files, d.taken, tolerance, room, hole).picks;
    FillOk(files, d.taken, tolerance, room, hole);
    ChoiceIsFree(files, d.taken, room, hole, picks);
    var r := AddRows(d.rows, files, picks);
    AddedKeys(d.rows, files, picks, 0);
    forall j, m {:trigger r[j].dseq, r[m].dseq} | 0 <= j < m < |r|
      ensures r[j].dseq < r[m].dseq
    {
      AddedKeys(d.rows, files, picks, m - 1);
      if j == 0 {
        assert r[0] == r[..1][0];
        assert picks[m - 1] > first;
      } else {
        AddedKeys(d.rows, files, picks, j - 1);
        assert picks[j - 1] < picks[m - 1];
      }
    }
  }

  // ---------------------------------------------------------------- whole slices

  /** A call that fills disk i meets its condition. */
  ghost predicate Guarded(su: Setup, a: Moment, i: nat) {
    && MomentOk(su, a) && i < |a.disks| && a.disks[i].sumFilesLen < a.sliceSize
    && CallInOrder(su.files[i], a.disks[i].rows, a.disks[i].taken, a.sliceSize - a.disks[i].sumFilesLen)
  }

  /** Each of the first n calls that fills disk i meets its condition. */
  ghost predicate GuardsMet(su: Setup, h: History, n: nat, i: nat) {
    n <= |h.calls| <= |h.moments| && forall k {:trigger h.calls[k]} :: 0 <= k < n && h.calls[k] == FillDisk(i) ==>
      Guarded(su, h.moments[k], i)
  }

  lemma OneMoreGuard(su: Setup, h: History, n: nat, m: nat, i: nat)
    requires m == n + 1 <= |h.calls| <= |h.moments|
    ensures GuardsMet(su, h, m, i) <==> GuardsMet(su, h, n, i) && (h.calls[n] == FillDisk(i) ==>
      Guarded(su, h.moments[n], i))
  {
    hide Guarded;
  }

  /** The first file of a disk; no file before it is unassigned. */
  lemma StartedRows(su: Setup, i: nat, d: PlanDisk)
    requires i < |su.files| == |su.filesSize| && DiskSetupOk(su, i) && |d.taken| == |su.files[i]| && d.rows == []
    ensures var z := Started(su, i, d);
      && |z.taken| == |su.files[i]| && |z.rows| <= 1 && AreFiles(su.files[i], z.rows)
      && forall p {:trigger z.taken[p]} :: 0 <= p < |z.taken| && !z.taken[p] && |z.rows| == 1 ==>
        z.rows[0].dseq < su.files[i][p].key
  {
    hide FreeBytes;
    var files, q, z := su.files[i], FirstFree(su, i, d), Started(su, i, d);
    if Active(su, i, d) && q < |files| {
      AddedKeys([], files, [q], 0);
      assert files[q] == File(z.rows[0].dseq, z.rows[0].fsize);
      forall p {:trigger z.taken[p]} | 0 <= p < |z.taken| && !z.taken[p]
        ensures files[q].key < files[p].key
      {
        assert files[p].size <= LONG_MAX;
        assert q in [q];
        assert !d.taken[p] && Fits(files, d.taken, LONG_MAX, p);
        assert p > q;
      }
    }
  }

  /** The filling call of a history that fills disk i. */
  lemma GuardDecides(su: Setup, a: Moment, b: Moment, i: nat)
    requires CallOk(su, a, FillDisk(i), b) && DiskSetupOk(su, i) && AreFiles(su.files[i], a.disks[i].rows)
    ensures AreFiles(su.files[i], b.disks[i].rows)
    ensures InOrder(b.disks[i].rows) <==> InOrder(a.disks[i].rows) && Guarded(su, a, i)
  {
    hide AreFiles, InOrder, CallInOrder, Fill, IsNext, DiskSetupOk;
    var d, files, hole := a.disks[i], su.files[i], a.sliceSize - a.disks[i].sumFilesLen;
    SetupList(su, i);
    FillFacts(su, a, i, b);
    FillInOrderIff(files, d.rows, d.taken, su.tolerance, su.maxFiles - d.filesInSlice, hole);
    AddedAreFiles(d.rows, files, Fill(files, d.taken, su.tolerance, su.maxFiles - d.filesInSlice, hole).picks);
  }

  lemma {:induction false} HistoryInOrderIff(su: Setup, h: History, n: nat, i: nat)
    requires HistoryOk(su, h) && n <= |h.calls| && Fills(h, n) && i < |h.before| == |su.files| == |su.filesSize|
    requires DiskSetupOk(su, i)
    ensures |h.moments| == |h.calls| + 1 && |h.moments[n].disks| == |h.before|
    ensures AreFiles(su.files[i], h.moments[n].disks[i].rows)
    ensures InOrder(h.moments[n].disks[i].rows) <==> GuardsMet(su, h, n, i)
  {
    hide CallOk, Begun, Started, AreFiles, DiskSetupOk, Guarded, GuardsMet;
    if n == 0 {
      BegunDisk(su, h.before, h.moments[0], i);
      StartedRows(su, i, h.before[i]);
      NoGuard(su, h, i);
    } else {
      var last := n - 1;
      HistoryInOrderIff(su, h, last, i);
      hide InOrder;
      CallAt(su, h, last);
      OneMoreGuard(su, h, last, n, i);
      FillFacts(su, h.moments[last], h.calls[last].disk, h.moments[n]);
      if h.calls[last].disk == i {
        GuardDecides(su, h.moments[last], h.moments[n], i);
      }
    }
  }

  lemma NoGuard(su: Setup, h: History, i: nat)
    requires |h.moments| > |h.calls|
    ensures GuardsMet(su, h, 0, i)
  {
  }

  /** A slice that only one disk starts with bytes is in key order. */
  lemma SoloInOrder(su: Setup, h: History, s: nat, i: nat)
    requires HistoryOk(su, h) && h.calls == [CopyAll(s)] && i < |h.before| == |su.files| == |su.filesSize|
    requires DiskSetupOk(su, i)
    ensures i < |Last(h).disks| && Ascending(Last(h).disks[i].rows)
  {
    hide Begun, Started, AreFiles, DiskSetupOk, TwoLeft, InsertionOf, FreePicks;
    BegunDisk(su, h.before, h.moments[0], i);
    StartedRows(su, i, h.before[i]);
    CallAt(su, h, 0);
    if i == s {
      var d := h.moments[0].disks[i];
      RestPicks(su, i, d.taken);
      SetupList(su, i);
      RestAscends(su.files[i], d, InsertionOf(su, i, d.taken, 0, 0));
    }
  }

  /** Unassigned files behind a single row, or none, in list order. */
  lemma RestAscends(files: seq<File>, d: PlanDisk, picks: seq<nat>)
    requires ListOk(files) && |d.taken| == |files| && |d.rows| <= 1 && Within(files, picks)
    requires FreePicks(files, d.taken, picks)
    requires forall p {:trigger d.taken[p]} :: 0 <= p < |d.taken| && !d.taken[p] && |d.rows| == 1 ==>
      d.rows[0].dseq < files[p].key
    ensures Ascending(AddRows(d.rows, files, picks))
  {
    hide AddRows;
    var r := AddRows(d.rows, files, picks);
    AddedKeys(d.rows, files, picks, 0);
    forall j, m {:trigger r[j].dseq, r[m].dseq} | 0 <= j < m < |r|
      ensures r[j].dseq < r[m].dseq
    {
      AddedKey(d.rows, files, picks, j);
      AddedKey(d.rows, files, picks, m);
      assert !d.taken[picks[m - |d.rows|]];
      if j >= |d.rows| {
        NewAscend(files, picks, j - |d.rows|, m - |d.rows|);
      }
    }
  }

  /** A disk's rows in a whole slice are in key order exactly if each call that filled it met its condition. */
  lemma WholeInOrderIff(su: Setup, h: History, i: nat)
    requires Whole(su, h) && i < |h.before| == |su.files| == |su.filesSize| && DiskSetupOk(su, i)
    ensures i < |Last(h).disks| && (InOrder(Last(h).disks[i].rows) <==> GuardsMet(su, h, |h.calls|, i))
  {
    hide HistoryOk, Balanced, SoleBig, DiskSetupOk, Guarded;
    HistoryShape(su, h);
    if Fills(h, |h.calls|) {
      HistoryInOrderIff(su, h, |h.calls|, i);
    } else {
      var s: nat :| h.calls == [CopyAll(s)];
      SoloInOrder(su, h, s, i);
    }
  }

  lemma {:induction false} BagCounts(rows: seq<Row>, j: nat, m: nat)
    requires j < m < |rows| && rows[j].dseq == rows[m].dseq && rows[j].fsize == rows[m].fsize
    ensures RowBag(rows)[File(rows[j].dseq, rows[j].fsize)] >= 2
    decreases |rows|
  {
    var before := rows[..|rows| - 1];
    if m < |before| {
      BagCounts(before, j, m);
    } else {
      RowInBag(before, j);
    }
  }

  lemma {:induction false} BagInPlaced(slices: seq<Slice>, k: nat, i: nat)
    requires k < |slices| && i < |slices[k].rows|
    ensures RowBag(slices[k].rows[i]) <= Placed(slices, i)
    decreases |slices|
  {
    if k < |slices| - 1 {
      BagInPlaced(slices[..|slices| - 1], k, i);
    }
  }

  /** The rows of a disk in a slice have different keys. */
  lemma DistinctKeys(su: Setup, slices: seq<Slice>, disks: seq<PlanDisk>, k: nat, i: nat, j: nat, m: nat)
    requires SetupOk(su) && CommittedOk(su, slices, disks) && k < |slices| && i < |su.files| && i < |slices[k].rows|
    requires j < m < |slices[k].rows[i]|
    ensures slices[k].rows[i][j].dseq != slices[k].rows[i][m].dseq
  {
    var rows, files := slices[k].rows[i], su.files[i];
    hide CommittedOk, RowBag, Placed;
    RowIsFile(su, slices, disks, k, i, j);
    RowIsFile(su, slices, disks, k, i, m);
    SetupDisk(su, i);
    hide SetupOk;
    if rows[j].dseq == rows[m].dseq {
      var q: nat :| q < |files| && files[q] == File(rows[j].dseq, rows[j].fsize);
      var p: nat :| p < |files| && files[p] == File(rows[m].dseq, rows[m].fsize);
      SameKey(su, i, p, q);
      BagCounts(rows, j, m);
      BagInPlaced(slices, k, i);
      PlacedOnce(su, slices, disks, i, q);
      assert false;
    }
  }

  lemma SameKey(su: Setup, i: nat, p: nat, q: nat)
    requires i < |su.files| == |su.filesSize| && DiskSetupOk(su, i) && p < |su.files[i]| && q < |su.files[i]|
    requires su.files[i][p].key == su.files[i][q].key
    ensures p == q
  {
    assert ListOk(su.files[i]);
  }

  /**
   * Over whole plans: a disk's recorded starts in a slice are the prefix sums in key order, as parity and
   * header take them, exactly if each call that filled the disk found its first file behind the disk's rows.
   * For a slice that one disk starts alone that is always so.
   */
  lemma PlannedStartsRightIff(su: Setup, slices: seq<Slice>, histories: seq<History>, disks: seq<PlanDisk>, k: nat,
                              i: nat)
    requires SetupOk(su) && CommittedOk(su, slices, disks) && ClosedAll(su, slices, histories) && k < |slices|
    requires i < |slices[k].rows|
    ensures StartsInKeyOrder(slices[k].rows[i]) <==> GuardsMet(su, histories[k], |histories[k].calls|, i)
  {
    hide CommittedOk, StartsInKeyOrder, InOrder, SetupOk, Contiguous, GuardsMet;
    ClosedFacts(su, slices, histories, k, i);
    SetupDisk(su, i);
    WholeInOrderIff(su, histories[k], i);
    var rows := slices[k].rows[i];
    forall j, m {:trigger rows[j].dseq, rows[m].dseq} | 0 <= j < m < |rows|
      ensures rows[j].dseq != rows[m].dseq
    {
      DistinctKeys(su, slices, disks, k, i, j, m);
    }
    StartsRightIff(rows);
  }

  lemma ClosedFacts(su: Setup, slices: seq<Slice>, histories: seq<History>, k: nat, i: nat)
    requires ClosedAll(su, slices, histories) && k < |slices| && i < |slices[k].rows|
    ensures var h := histories[k];
      && |h.moments| > 0 && Whole(su, h) && i < |Last(h).disks| == |h.before| == |su.files| == |su.filesSize|
      && slices[k].rows[i] == Last(h).disks[i].rows && Contiguous(slices[k].rows[i])
  {
    hide Whole, HeadOk, Contiguous, FreeBytes;
    assert ClosedOk(su, slices[k], histories[k]);
  }

  // ---------------------------------------------------------------- rows and files

  lemma {:induction false} RowInBag(rows: seq<Row>, j: nat)
    requires j < |rows|
    ensures File(rows[j].dseq, rows[j].fsize) in RowBag(rows)
    decreases |rows|
  {
    if j < |rows| - 1 {
      RowInBag(rows[..|rows| - 1], j);
    }
  }

  lemma {:induction false} SliceInPlaced(slices: seq<Slice>, k: nat, i: nat, f: File)
    requires k < |slices| && i < |slices[k].rows| && f in RowBag(slices[k].rows[i])
    ensures f in Placed(slices, i)
    decreases |slices|
  {
    if k < |slices| - 1 {
      SliceInPlaced(slices[..|slices| - 1], k, i, f);
    }
  }

  lemma {:induction false} BagInFiles(files: seq<File>, taken: seq<bool>, n: nat, f: File)
    requires n <= |files| == |taken| && f in TakenBag(files, taken, n)
    ensures exists q :: 0 <= q < n && files[q] == f
  {
    if n > 0 && !(taken[n - 1] && files[n - 1] == f) {
      BagInFiles(files, taken, n - 1, f);
    }
  }

  /** A row of a committed slice is a file of its disk. */
  lemma RowIsFile(su: Setup, slices: seq<Slice>, disks: seq<PlanDisk>, k: nat, i: nat, j: nat)
    requires CommittedOk(su, slices, disks) && k < |slices| && i < |su.files| && i < |slices[k].rows|
    requires j < |slices[k].rows[i]|
    ensures exists q ::
      0 <= q < |su.files[i]| && su.files[i][q] == File(slices[k].rows[i][j].dseq, slices[k].rows[i][j].fsize)
  {
    var row := slices[k].rows[i][j];
    assert i < |disks| && |disks[i].taken| == |su.files[i]|;
    hide Placed, TakenBag;
    RowInBag(slices[k].rows[i], j);
    SliceInPlaced(slices, k, i, File(row.dseq, row.fsize));
    BagInFiles(su.files[i], disks[i].taken, |su.files[i]|, File(row.dseq, row.fsize));
  }

  lemma SetupDisk(su: Setup, i: nat)
    requires SetupOk(su) && i < |su.files|
    ensures |su.files| == |su.filesSize| && DiskSetupOk(su, i)
  {
  }

  /** A closed slice is exactly as long as its longest disk. */
  lemma SliceExtent(su: Setup, slice: Slice, h: History)
    requires ClosedOk(su, slice, h)
    ensures forall i {:trigger slice.rows[i]} :: 0 <= i < |slice.rows| ==>
      End(slice.rows[i], |slice.rows[i]|) <= slice.ssize
    ensures exists i {:trigger slice.rows[i]} ::
      0 <= i < |slice.rows| && End(slice.rows[i], |slice.rows[i]|) == slice.ssize
  {
    hide Whole, Contiguous, FreeBytes;
    var m := Last(h);
    forall i {:trigger slice.rows[i]} | 0 <= i < |slice.rows|
      ensures End(slice.rows[i], |slice.rows[i]|) <= slice.ssize
    {
      assert slice.rows[i] == m.disks[i].rows && m.disks[i].sumFilesLen <= slice.ssize;
    }
    assert slice.rows[m.maxFilledDisk] == m.disks[m.maxFilledDisk].rows;
  }
}
