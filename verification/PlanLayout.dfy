/**
 * From plan to archive. Parity and header take the rows of a disk by key, so a planned slice is a layout
 * that sync and restore work on exactly if its rows, taken by key, start where their predecessors end.
 */
module PlanLayout {
  import opened Bytes
  import opened Streams
  import opened Jobs
  import opened Archive
  import opened PlanRules
  import opened PlanTables
  import opened PlanState
  import opened PlanRun
  import opened PlanHistory
  import opened Planner
  import opened PlanOrder

  // ---------------------------------------------------------------- rows by key

  function Insert(rows: seq<Row>, r: Row): (s: seq<Row>)
    ensures |s| == |rows| + 1
    decreases |rows|
  {
    var n := |rows|;
    if n == 0 || rows[n - 1].dseq < r.dseq then rows + [r] else Insert(rows[..n - 1], r) + [rows[n - 1]]
  }

  /** The rows as a query ordered by key returns them. */
  function ByKey(rows: seq<Row>): (s: seq<Row>)
    ensures |s| == |rows|
    decreases |rows|
  {
    if |rows| == 0 then [] else Insert(ByKey(rows[..|rows| - 1]), rows[|rows| - 1])
  }

  ghost predicate DistinctRows(rows: seq<Row>) {
    forall j, m {:trigger rows[j].dseq, rows[m].dseq} :: 0 <= j < m < |rows| ==> rows[j].dseq != rows[m].dseq
  }

  lemma {:induction false} InsertElements(rows: seq<Row>, r: Row)
    ensures forall x :: x in Insert(rows, r) <==> x in rows || x == r
    decreases |rows|
  {
    var n := |rows|;
    if n > 0 && rows[n - 1].dseq >= r.dseq {
      InsertElements(rows[..n - 1], r);
      assert rows == rows[..n - 1] + [rows[n - 1]];
    }
  }

  lemma {:induction false} OffsetPrefix(a: seq<Row>, b: seq<Row>, key: nat, n: nat)
    requires n <= |a| <= |b| && b[..|a|] == a
    ensures KeyOffset(a, key, n) == KeyOffset(b, key, n) && End(a, n) == End(b, n)
  {
    if n > 0 {
      OffsetPrefix(a, b, key, n - 1);
      assert a[n - 1] == b[..|a|][n - 1];
    }
  }

  /** One more row behind others. */
  lemma OffsetAppend(rows: seq<Row>, r: Row, key: nat)
    ensures var s := rows + [r];
      && KeyOffset(s, key, |s|) == KeyOffset(rows, key, |rows|) + (if r.dseq < key then r.fsize else 0)
      && End(s, |s|) == End(rows, |rows|) + r.fsize
  {
    OffsetPrefix(rows, rows + [r], key, |rows|);
  }

  lemma {:induction false} InsertOffset(rows: seq<Row>, r: Row, key: nat)
    ensures var s := Insert(rows, r);
      && KeyOffset(s, key, |s|) == KeyOffset(rows, key, |rows|) + (if r.dseq < key then r.fsize else 0)
      && End(s, |s|) == End(rows, |rows|) + r.fsize
    decreases |rows|
  {
    hide KeyOffset, End;
    var n := |rows|;
    if n == 0 || rows[n - 1].dseq < r.dseq {
      OffsetAppend(rows, r, key);
    } else {
      InsertOffset(rows[..n - 1], r, key);
      OffsetAppend(rows[..n - 1], rows[n - 1], key);
      OffsetAppend(Insert(rows[..n - 1], r), rows[n - 1], key);
      assert rows == rows[..n - 1] + [rows[n - 1]];
    }
  }

  lemma {:induction false} InsertAscends(rows: seq<Row>, r: Row)
    requires Ascending(rows) && forall x :: x in rows ==> x.dseq != r.dseq
    ensures Ascending(Insert(rows, r))
    decreases |rows|
  {
    var n, s := |rows|, Insert(rows, r);
    if n > 0 && rows[n - 1].dseq >= r.dseq {
      var before, last := rows[..n - 1], rows[n - 1];
      assert last in rows;
      InsertAscends(before, r);
      InsertElements(before, r);
      forall j, m {:trigger s[j].dseq, s[m].dseq} | 0 <= j < m < |s|
        ensures s[j].dseq < s[m].dseq
      {
        assert s[j] in Insert(before, r);
        if s[j] != r {
          var a: nat :| a < |before| && before[a] == s[j];
          assert rows[a].dseq < rows[n - 1].dseq;
        }
      }
    }
  }

  lemma {:induction false} ByKeyElements(rows: seq<Row>)
    ensures forall x :: x in ByKey(rows) <==> x in rows
    decreases |rows|
  {
    var n := |rows|;
    if n > 0 {
      ByKeyElements(rows[..n - 1]);
      InsertElements(ByKey(rows[..n - 1]), rows[n - 1]);
      assert rows == rows[..n - 1] + [rows[n - 1]];
    }
  }

  lemma {:induction false} ByKeyOffset(rows: seq<Row>, key: nat)
    ensures KeyOffset(ByKey(rows), key, |rows|) == KeyOffset(rows, key, |rows|)
    ensures End(ByKey(rows), |rows|) == End(rows, |rows|)
    decreases |rows|
  {
    hide KeyOffset, End;
    var n := |rows|;
    if n > 0 {
      ByKeyOffset(rows[..n - 1], key);
      OffsetAppend(rows[..n - 1], rows[n - 1], key);
      InsertOffset(ByKey(rows[..n - 1]), rows[n - 1], key);
      assert rows == rows[..n - 1] + [rows[n - 1]];
    }
  }

  lemma {:induction false} ByKeyAscends(rows: seq<Row>)
    requires DistinctRows(rows)
    ensures Ascending(ByKey(rows))
    decreases |rows|
  {
    var n := |rows|;
    if n > 0 {
      var before := rows[..n - 1];
      LastIsDistinct(rows);
      hide DistinctRows, Ascending;
      ByKeyAscends(before);
      ByKeyElements(before);
      InsertAscends(ByKey(before), rows[n - 1]);
    }
  }

  lemma LastIsDistinct(rows: seq<Row>)
    requires DistinctRows(rows) && |rows| > 0
    ensures var n := |rows|;
      DistinctRows(rows[..n - 1]) && forall x :: x in rows[..n - 1] ==> x.dseq != rows[n - 1].dseq
  {
    var before, last := rows[..|rows| - 1], rows[|rows| - 1];
    forall x | x in before
      ensures x.dseq != last.dseq
    {
      var a: nat :| a < |before| && before[a] == x;
      assert rows[a].dseq != rows[|rows| - 1].dseq;
    }
  }

  lemma {:induction false} SortedAlready(rows: seq<Row>)
    requires Ascending(rows)
    ensures ByKey(rows) == rows
    decreases |rows|
  {
    hide Insert;
    var n := |rows|;
    if n > 0 {
      LastAscends(rows);
      hide Ascending;
      SortedAlready(rows[..n - 1]);
    }
  }

  lemma LastAscends(rows: seq<Row>)
    requires Ascending(rows) && |rows| > 0
    ensures var before, last := rows[..|rows| - 1], rows[|rows| - 1];
      Ascending(before) && Insert(before, last) == rows
  {
    var n := |rows|;
    assert n > 1 ==> rows[n - 2].dseq < rows[n - 1].dseq;
    assert rows == rows[..n - 1] + [rows[n - 1]];
  }

  /** A row taken by key lies behind the rows with smaller keys. */
  lemma SortedEnd(rows: seq<Row>, j: nat)
    requires DistinctRows(rows) && j < |rows|
    ensures End(ByKey(rows), j) == KeyOffset(rows, ByKey(rows)[j].dseq, |rows|)
  {
    hide End, KeyOffset, DistinctRows, ByKey;
    ByKeyAscends(rows);
    assert InOrder(ByKey(rows));
    OffsetInOrder(ByKey(rows), j, |rows|);
    ByKeyOffset(rows, ByKey(rows)[j].dseq);
  }

  /** Taken by key, rows tile the disk's part exactly if their recorded starts are the prefix sums in key order. */
  lemma ByKeyTilesIff(rows: seq<Row>)
    requires DistinctRows(rows)
    ensures Contiguous(ByKey(rows)) <==> StartsInKeyOrder(rows)
  {
    hide End, KeyOffset, DistinctRows, ByKey;
    var s := ByKey(rows);
    ByKeyElements(rows);
    forall j | 0 <= j < |s|
      ensures End(s, j) == KeyOffset(rows, s[j].dseq, |rows|)
    {
      SortedEnd(rows, j);
    }
    if Contiguous(s) {
      forall j {:trigger rows[j].start} | 0 <= j < |rows|
        ensures rows[j].start == KeyOffset(rows, rows[j].dseq, |rows|)
      {
        assert rows[j] in s;
        var a: nat :| a < |s| && s[a] == rows[j];
        assert s[a].start == End(s, a);
      }
    }
    if StartsInKeyOrder(rows) {
      forall j {:trigger s[j].start} | 0 <= j < |s|
        ensures s[j].start == End(s, j)
      {
        assert s[j] in rows;
        var a: nat :| a < |rows| && rows[a] == s[j];
        assert rows[a].start == KeyOffset(rows, rows[a].dseq, |rows|);
      }
    }
  }

  /** Taken by key, rows of files have positive ascending keys and descending sizes. */
  lemma ByKeyOfFiles(files: seq<File>, rows: seq<Row>)
    requires ListOk(files) && AreFiles(files, rows) && DistinctRows(rows)
    ensures KeysAscend(ByKey(rows)) && SizesDescend(ByKey(rows))
  {
    hide ByKey, End, KeyOffset;
    var s := ByKey(rows);
    ByKeyAscends(rows);
    ByKeyElements(rows);
    forall j {:trigger s[j].dseq} | 0 <= j < |s|
      ensures s[j].dseq > 0 && IsFile(files, s[j])
    {
      assert s[j] in rows;
    }
    forall j, m {:trigger s[j].fsize, s[m].fsize} | 0 <= j < m < |s|
      ensures s[j].fsize >= s[m].fsize
    {
      assert s[j].dseq < s[m].dseq;
      var p :| 0 <= p < |files| && files[p] == File(s[j].dseq, s[j].fsize);
      LaterIsSmaller(files, s[m], p);
    }
  }

  // ---------------------------------------------------------------- planned slices

  function SortedRows(slice: Slice): seq<seq<Row>> {
    seq(|slice.rows|, i requires 0 <= i < |slice.rows| => ByKey(slice.rows[i]))
  }

  /** Each call that filled a disk of the slice met its condition. */
  ghost predicate AllGuardsMet(su: Setup, slice: Slice, h: History) {
    forall i {:trigger GuardsMet(su, h, |h.calls|, i)} :: 0 <= i < |slice.rows| ==> GuardsMet(su, h, |h.calls|, i)
  }

  /** A disk of a planned slice. */
  lemma PlannedDisk(su: Setup, slices: seq<Slice>, histories: seq<History>, disks: seq<PlanDisk>, k: nat, i: nat)
    requires SetupOk(su) && CommittedOk(su, slices, disks) && ClosedAll(su, slices, histories) && k < |slices|
    requires i < |slices[k].rows|
    ensures var rows := slices[k].rows[i];
      && DistinctRows(rows) && KeysAscend(ByKey(rows)) && SizesDescend(ByKey(rows))
      && End(ByKey(rows), |rows|) == End(rows, |rows|)
      && (Contiguous(ByKey(rows)) <==> GuardsMet(su, histories[k], |histories[k].calls|, i))
  {
    hide CommittedOk, SetupOk, Contiguous, GuardsMet, StartsInKeyOrder, ByKey, End, KeyOffset, IsFile;
    var rows := slices[k].rows[i];
    ClosedFacts(su, slices, histories, k, i);
    SetupDisk(su, i);
    PlannedStartsRightIff(su, slices, histories, disks, k, i);
    hide ClosedAll;
    forall j, m {:trigger rows[j].dseq, rows[m].dseq} | 0 <= j < m < |rows|
      ensures rows[j].dseq != rows[m].dseq
    {
      DistinctKeys(su, slices, disks, k, i, j, m);
    }
    forall j {:trigger rows[j]} | 0 <= j < |rows|
      ensures IsFile(su.files[i], rows[j])
    {
      PlannedRowIsFile(su, slices, disks, k, i, j);
    }
    ListOfSetup(su, i);
    ByKeyOffset(rows, 0);
    ByKeyTilesIff(rows);
    ByKeyOfFiles(su.files[i], rows);
  }

  lemma ListOfSetup(su: Setup, i: nat)
    requires i < |su.files| == |su.filesSize| && DiskSetupOk(su, i)
    ensures ListOk(su.files[i])
  {
  }

  lemma PlannedRowIsFile(su: Setup, slices: seq<Slice>, disks: seq<PlanDisk>, k: nat, i: nat, j: nat)
    requires CommittedOk(su, slices, disks) && k < |slices| && i < |su.files| && i < |slices[k].rows|
    requires j < |slices[k].rows[i]|
    ensures IsFile(su.files[i], slices[k].rows[i][j])
  {
    hide CommittedOk;
    RowIsFile(su, slices, disks, k, i, j);
  }

  /**
   * From plan to archive, for every plan and all contents of the right sizes: taken by key, the rows of a
   * planned slice are a layout, so that generating parity and restoring from it gives back every file, if
   * and only if each call that filled a disk of the slice met its condition.
   */
  lemma PlannedSliceIsLayoutIff(su: Setup, slices: seq<Slice>, histories: seq<History>, disks: seq<PlanDisk>, k: nat,
                                contents: seq<seq<seq<byte>>>)
    requires SetupOk(su) && CommittedOk(su, slices, disks) && ClosedAll(su, slices, histories) && k < |slices|
    requires |contents| == |slices[k].rows| && slices[k].ssize < 0x1_0000_0000_0000_0000
    requires forall i {:trigger slices[k].rows[i]} {:trigger contents[i]} :: 0 <= i < |contents| ==>
      SizesMatch(ByKey(slices[k].rows[i]), contents[i])
    ensures LayoutOk(Layout(SortedRows(slices[k]), contents, slices[k].ssize))
      <==> AllGuardsMet(su, slices[k], histories[k])
  {
    hide CommittedOk, SetupOk, Contiguous, GuardsMet, ByKey, End, SizesMatch, KeysAscend, SizesDescend, DistinctRows,
      LayoutOk;
    var slice, lay := slices[k], Layout(SortedRows(slices[k]), contents, slices[k].ssize);
    SlicesExtent(su, slices, histories, k);
    forall i {:trigger slice.rows[i]} {:trigger GuardsMet(su, histories[k], |histories[k].calls|, i)} |
        0 <= i < |slice.rows|
      ensures KeysAscend(ByKey(slice.rows[i])) && SizesDescend(ByKey(slice.rows[i]))
      ensures End(lay.rows[i], |lay.rows[i]|) == End(slice.rows[i], |slice.rows[i]|)
      ensures Contiguous(lay.rows[i]) <==> GuardsMet(su, histories[k], |histories[k].calls|, i)
    {
      PlannedDisk(su, slices, histories, disks, k, i);
    }
    hide ClosedAll;
    LayoutIff(slice, contents);
  }

  /** Sorted rows that reach as far as the slice are a layout exactly if they tile. */
  lemma LayoutIff(slice: Slice, contents: seq<seq<seq<byte>>>)
    requires |contents| == |slice.rows| && slice.ssize < 0x1_0000_0000_0000_0000
    requires forall i {:trigger slice.rows[i]} :: 0 <= i < |slice.rows| ==>
      && SizesMatch(ByKey(slice.rows[i]), contents[i])
      && KeysAscend(ByKey(slice.rows[i])) && SizesDescend(ByKey(slice.rows[i]))
      && End(ByKey(slice.rows[i]), |slice.rows[i]|) == End(slice.rows[i], |slice.rows[i]|) <= slice.ssize
    requires exists i {:trigger slice.rows[i]} ::
      0 <= i < |slice.rows| && End(slice.rows[i], |slice.rows[i]|) == slice.ssize
    ensures LayoutOk(Layout(SortedRows(slice), contents, slice.ssize))
      <==> forall i {:trigger slice.rows[i]} :: 0 <= i < |slice.rows| ==> Contiguous(ByKey(slice.rows[i]))
  {
    hide Contiguous, ByKey, End, SizesMatch, KeysAscend, SizesDescend;
    var lay := Layout(SortedRows(slice), contents, slice.ssize);
    assert forall i {:trigger slice.rows[i]} :: 0 <= i < |slice.rows| ==> lay.rows[i] == ByKey(slice.rows[i]);
    var m :| 0 <= m < |slice.rows| && End(slice.rows[m], |slice.rows[m]|) == slice.ssize;
    assert End(lay.rows[m], |lay.rows[m]|) == lay.sliceSize;
    if LayoutOk(lay) {
      forall i {:trigger slice.rows[i]} | 0 <= i < |slice.rows|
        ensures Contiguous(ByKey(slice.rows[i]))
      {
        assert RowsOk(lay.rows[i]);
      }
    }
  }

  /** A closed slice is exactly as long as its longest disk. */
  lemma SlicesExtent(su: Setup, slices: seq<Slice>, histories: seq<History>, k: nat)
    requires ClosedAll(su, slices, histories) && k < |slices|
    ensures var slice := slices[k];
      && (forall i {:trigger slice.rows[i]} :: 0 <= i < |slice.rows| ==>
        End(slice.rows[i], |slice.rows[i]|) <= slice.ssize)
      && (exists i {:trigger slice.rows[i]} ::
        0 <= i < |slice.rows| && End(slice.rows[i], |slice.rows[i]|) == slice.ssize)
  {
    hide Whole, Contiguous, FreeBytes;
    assert ClosedOk(su, slices[k], histories[k]);
    var slice, m := slices[k], Last(histories[k]);
    forall i {:trigger slice.rows[i]} | 0 <= i < |slice.rows|
      ensures End(slice.rows[i], |slice.rows[i]|) <= slice.ssize
    {
      assert slice.rows[i] == m.disks[i].rows && m.disks[i].sumFilesLen <= slice.ssize;
    }
    assert slice.rows[m.maxFilledDisk] == m.disks[m.maxFilledDisk].rows;
  }

  /** Without empty files the rows are then in key order as they are. */
  lemma PlannedSliceIsLayout(su: Setup, slices: seq<Slice>, histories: seq<History>, disks: seq<PlanDisk>, k: nat,
                             contents: seq<seq<seq<byte>>>)
    requires SetupOk(su) && CommittedOk(su, slices, disks) && ClosedAll(su, slices, histories) && k < |slices|
    requires AllPositive(su) && AllGuardsMet(su, slices[k], histories[k])
    requires |contents| == |slices[k].rows| && slices[k].ssize < 0x1_0000_0000_0000_0000
    requires forall i {:trigger slices[k].rows[i]} {:trigger contents[i]} :: 0 <= i < |contents| ==>
      SizesMatch(slices[k].rows[i], contents[i])
    ensures LayoutOk(Layout(slices[k].rows, contents, slices[k].ssize))
  {
    hide CommittedOk, SetupOk, ClosedAll, AllPositive, GuardsMet, ByKey, SizesMatch, LayoutOk;
    forall i {:trigger slices[k].rows[i]} | 0 <= i < |slices[k].rows|
      ensures ByKey(slices[k].rows[i]) == slices[k].rows[i]
    {
      PositiveAscends(su, slices, histories, disks, k, i);
      SortedAlready(slices[k].rows[i]);
    }
    assert SortedRows(slices[k]) == slices[k].rows;
    PlannedSliceIsLayoutIff(su, slices, histories, disks, k, contents);
  }

  lemma PositiveAscends(su: Setup, slices: seq<Slice>, histories: seq<History>, disks: seq<PlanDisk>, k: nat, i: nat)
    requires SetupOk(su) && CommittedOk(su, slices, disks) && ClosedAll(su, slices, histories) && k < |slices|
    requires AllPositive(su) && i < |slices[k].rows| && GuardsMet(su, histories[k], |histories[k].calls|, i)
    ensures Ascending(slices[k].rows[i])
  {
    hide CommittedOk, SetupOk, GuardsMet, Contiguous, Ascending, InOrder;
    ClosedFacts(su, slices, histories, k, i);
    hide ClosedAll;
    SetupDisk(su, i);
    WholeInOrderIff(su, histories[k], i);
    var rows := slices[k].rows[i];
    forall j {:trigger rows[j].fsize} | 0 <= j < |rows|
      ensures rows[j].fsize > 0
    {
      PlannedRowIsFile(su, slices, disks, k, i, j);
      var p :| 0 <= p < |su.files[i]| && su.files[i][p] == File(rows[j].dseq, rows[j].fsize);
      assert su.files[i][p].size > 0;
    }
    AscendsIff(rows);
  }
}
