/** Starting, closing and committing slices, in terms of the planner's state before and after. */
module PlanRun {
  import opened Bytes
  import opened Streams
  import opened PlanRules
  import opened PlanTables
  import opened PlanState
  import opened PlanFill

  /** Inserting unassigned files of one disk keeps the invariant; as many files fewer are left. */
  lemma InsertKeepsState(su: Setup, slices: seq<Slice>, disks: seq<PlanDisk>, sliceSize: nat, maxFilledDisk: nat,
                         filesCount: nat, r: nat, picks: seq<nat>, z: PlanDisk)
    requires StateOk(su, slices, disks, sliceSize, maxFilledDisk, filesCount)
    requires r < |disks| && |disks| <= |su.files| && |disks[r].taken| == |su.files[r]|
    requires FreePicks(su.files[r], disks[r].taken, picks)
    requires Within(su.files[r], picks) && z == Inserted(su.files[r], disks[r], picks)
    ensures StateOk(su, slices, disks[r := z], Max(sliceSize, z.sumFilesLen),
                    if z.sumFilesLen > sliceSize then r else maxFilledDisk, filesCount + |picks|)
    ensures TotalFree(disks[r := z], |disks|) + |picks| == TotalFree(disks, |disks|)
  {
    hide StateOk, HeadOk, DiskInv, DiskOk, PlacedOk, FreePicks, SetupOk, Mark, AddRows, Total;
    DiskFacts(su, slices, disks, sliceSize, maxFilledDisk, filesCount, r);
    InsertKeepsDisk(su.files[r], su.filesSize[r], slices, r, disks[r], picks);
    FreeShrinks(su.files[r], disks[r].taken, picks);
    FillKeepsState(su, slices, disks, sliceSize, maxFilledDisk, filesCount, r, z);
    CountsChange(disks, r, z, |disks|);
  }

  // ---------------------------------------------------------------- beginning

  function FreshDisk(n: nat): PlanDisk { PlanDisk(AllFree(n), [], 0, 0, false, 0) }

  function FreshDisks(su: Setup): seq<PlanDisk> {
    seq(|su.files|, i requires 0 <= i < |su.files| => FreshDisk(|su.files[i]|))
  }

  lemma {:induction false} NothingTaken(files: seq<File>, n: nat)
    requires n <= |files|
    ensures TakenBag(files, AllFree(|files|), n) == multiset{}
  {
    if n > 0 {
      NothingTaken(files, n - 1);
    }
  }

  lemma {:induction false} NothingCounted(su: Setup, n: nat)
    requires n <= |su.files|
    ensures FileCount(FreshDisks(su), n) == 0
  {
    if n > 0 {
      NothingCounted(su, n - 1);
    }
  }

  lemma FreshState(su: Setup)
    requires SetupOk(su)
    ensures StateOk(su, [], FreshDisks(su), 0, 0, 0)
    ensures Cleared(FreshDisks(su)) && Shapes(su, FreshDisks(su))
  {
    hide FreeBytes, TakenBag;
    var disks := FreshDisks(su);
    NothingCounted(su, |disks|);
    forall i {:trigger disks[i]} | 0 <= i < |disks|
      ensures DiskInv(su, [], i, disks[i])
    {
      assert DiskSetupOk(su, i);
      NothingTaken(su.files[i], |su.files[i]|);
    }
  }

  // ---------------------------------------------------------------- starting

  /** The first unassigned file of a disk, which is its largest. */
  function FirstFree(su: Setup, i: nat, d: PlanDisk): nat
    requires i < |su.files| && |d.taken| == |su.files[i]|
  {
    NextFree(su.files[i], d.taken, LONG_MAX, 0)
  }

  /** A disk that still takes files gets its first one. */
  function Started(su: Setup, i: nat, d: PlanDisk): PlanDisk
    requires i < |su.files| == |su.filesSize| && |d.taken| == |su.files[i]|
  {
    var q := FirstFree(su, i, d);
    if Active(su, i, d) && q < |su.files[i]| then Inserted(su.files[i], d, [q]) else d
  }

  /** Whether a disk starts with a file that is not empty. */
  predicate StartsBig(su: Setup, i: nat, d: PlanDisk)
    requires i < |su.files| == |su.filesSize| && |d.taken| == |su.files[i]|
  {
    var q := FirstFree(su, i, d);
    Active(su, i, d) && q < |su.files[i]| && su.files[i][q].size > 0
  }

  ghost predicate Shapes(su: Setup, disks: seq<PlanDisk>) {
    && |disks| == |su.files| == |su.filesSize|
    && forall i {:trigger disks[i]} :: 0 <= i < |disks| ==> |disks[i].taken| == |su.files[i]|
  }

  lemma StateShapes(su: Setup, slices: seq<Slice>, disks: seq<PlanDisk>, sliceSize: nat, maxFilledDisk: nat,
                    filesCount: nat)
    requires StateOk(su, slices, disks, sliceSize, maxFilledDisk, filesCount)
    ensures Shapes(su, disks)
  {
    hide PlacedOk, HeadOk, SetupOk, Contiguous;
    forall i {:trigger disks[i]} | 0 <= i < |disks|
      ensures |disks[i].taken| == |su.files[i]|
    {
      assert DiskInv(su, slices, i, disks[i]);
    }
  }

  /** Disk s is the only one of the first n that starts with a file that is not empty. */
  ghost predicate SoleBig(su: Setup, disks: seq<PlanDisk>, n: nat, s: int)
    requires Shapes(su, disks) && n <= |disks|
  {
    && 0 <= s < n && StartsBig(su, s, disks[s])
    && forall k {:trigger StartsBig(su, k, disks[k])} :: 0 <= k < n && k != s ==> !StartsBig(su, k, disks[k])
  }

  ghost predicate NoBig(su: Setup, disks: seq<PlanDisk>, n: nat)
    requires Shapes(su, disks) && n <= |disks|
  {
    forall k {:trigger StartsBig(su, k, disks[k])} :: 0 <= k < n ==> !StartsBig(su, k, disks[k])
  }

  /** Disks 0 to n - 1 have been started. */
  ghost predicate StartedUpTo(su: Setup, before: seq<PlanDisk>, after: seq<PlanDisk>, n: nat)
    requires Shapes(su, before)
  {
    && |after| == |before| >= n
    && (forall k {:trigger after[k]} :: 0 <= k < n ==> after[k] == Started(su, k, before[k]))
    && (forall k {:trigger after[k]} :: n <= k < |after| ==> after[k] == before[k])
  }

  lemma OneMoreStarted(su: Setup, before: seq<PlanDisk>, after: seq<PlanDisk>, n: nat)
    requires Shapes(su, before) && n < |before| && StartedUpTo(su, before, after, n)
    ensures StartedUpTo(su, before, after[n := Started(su, n, before[n])], n + 1)
    ensures !Active(su, n, before[n]) ==> StartedUpTo(su, before, after, n + 1)
    ensures after[n] == before[n]
  {
    hide Active, FirstFree, Inserted;
    if !Active(su, n, before[n]) {
      assert Started(su, n, before[n]) == before[n];
    }
  }

  lemma BigStep(su: Setup, disks: seq<PlanDisk>, n: nat, m: nat)
    requires Shapes(su, disks) && n < |disks| && m == n + 1
    ensures NoBig(su, disks, m) <==> NoBig(su, disks, n) && !StartsBig(su, n, disks[n])
    ensures SoleBig(su, disks, m, n) <==> NoBig(su, disks, n) && StartsBig(su, n, disks[n])
    ensures forall s {:trigger SoleBig(su, disks, m, s)} {:trigger SoleBig(su, disks, n, s)} ::
      s != n ==> (SoleBig(su, disks, m, s) <==> SoleBig(su, disks, n, s) && !StartsBig(su, n, disks[n]))
    ensures forall s {:trigger SoleBig(su, disks, n, s)} :: SoleBig(su, disks, n, s) ==> s < n && !NoBig(su, disks, n)
  {
    hide StartsBig;
  }

  /** The range of a single key selects that file. */
  lemma OneFileRange(su: Setup, i: nat, taken: seq<bool>, q: nat)
    requires i < |su.files| && |taken| == |su.files[i]| && ListOk(su.files[i]) && q < |taken|
    requires q == NextFree(su.files[i], taken, LONG_MAX, 0)
    ensures Within(su.files[i], [q]) && FreePicks(su.files[i], taken, [q])
    ensures su.files[i][q].key > 0 && InsertionOf(su, i, taken, su.files[i][q].key, su.files[i][q].key) == [q]
    ensures Total(su.files[i], [q]) == su.files[i][q].size
  {
    assert q in [q];
    assert PicksOk(su.files[i], taken, LONG_MAX, 0, [q]);
    RangeIsInserted(su, i, taken, LONG_MAX, [q]);
  }

  /** Nothing is in the current slice. */
  ghost predicate Cleared(disks: seq<PlanDisk>) {
    forall i {:trigger disks[i]} :: 0 <= i < |disks| ==>
      disks[i].rows == [] && disks[i].filesInSlice == 0 && disks[i].sumFilesLen == 0 && !disks[i].diskFinished
  }

  ghost predicate AllPositive(su: Setup) {
    forall i, j {:trigger su.files[i][j]} :: 0 <= i < |su.files| && 0 <= j < |su.files[i]| ==> su.files[i][j].size > 0
  }

  /** Every unassigned file is empty. */
  ghost predicate OnlyEmptyFree(files: seq<File>, taken: seq<bool>)
    requires |files| == |taken|
  {
    forall j {:trigger taken[j]} :: 0 <= j < |taken| && !taken[j] ==> files[j].size == 0
  }

  lemma {:induction false} FreeBytesAtLeast(files: seq<File>, taken: seq<bool>, n: nat, j: nat)
    requires j < n <= |files| == |taken| && !taken[j]
    ensures FreeBytes(files, taken, n) >= files[j].size
  {
    if j < n - 1 {
      FreeBytesAtLeast(files, taken, n - 1, j);
    }
  }

  /** A new slice starts with bytes of a disk exactly if the disk has an unassigned file that is not empty. */
  lemma StartsBigIff(su: Setup, i: nat, d: PlanDisk)
    requires i < |su.files| == |su.filesSize| && |d.taken| == |su.files[i]| && DiskSetupOk(su, i) && su.maxFiles > 0
    requires DiskOk(su.files[i], su.filesSize[i], d) && d.filesInSlice == 0 && d.sumFilesLen == 0 && !d.diskFinished
    ensures StartsBig(su, i, d) <==> !OnlyEmptyFree(su.files[i], d.taken)
    ensures !StartsBig(su, i, d) ==> Started(su, i, d).sumFilesLen == 0
  {
    var files, q := su.files[i], FirstFree(su, i, d);
    assert ListOk(files);
    if q < |files| {
      assert Fits(files, d.taken, LONG_MAX, q);
      assert Total(files, [q]) == files[q].size;
    }
    if !OnlyEmptyFree(files, d.taken) {
      hide Total, AddRows, Mark;
      var j: nat :| j < |files| && !d.taken[j] && files[j].size > 0;
      FreeBytesAtLeast(files, d.taken, |files|, j);
      assert files[j].size <= LONG_MAX && Fits(files, d.taken, LONG_MAX, j);
      assert q <= j;
    }
  }

  // ---------------------------------------------------------------- slices of a single disk

  /** When an open-ended insertion that has taken n files ends within k of them. */
  lemma {:induction false} RowsTakenWithin(su: Setup, files: seq<File>, list: seq<nat>, n: nat, bytes: nat, k: nat)
    requires n <= |list| && Within(files, list) && n <= k <= su.maxFiles
    requires Within(files, list[..n]) && bytes == Total(files, list[..n])
    ensures RowsTaken(su, files, list, true, n, bytes) <= k
      <==> |list| <= k || (k > n && Within(files, list[..k]) && Total(files, list[..k]) > TWO_GIGA)
    decreases |list| - n
  {
    if n < |list| && n < k {
      hide Total;
      FirstTotal(files, list, n, n + 1);
      if k <= |list| {
        FirstTotal(files, list, n + 1, k);
      }
      RowsTakenWithin(su, files, list, n + 1, bytes + files[list[n]].size, k);
    }
  }

  /** Totals of prefixes grow. */
  lemma FirstTotal(files: seq<File>, list: seq<nat>, a: nat, b: nat)
    requires Within(files, list) && a <= b <= |list|
    ensures Within(files, list[..a]) && Within(files, list[..b]) && Total(files, list[..a]) <= Total(files, list[..b])
    ensures b == a + 1 ==> Total(files, list[..b]) == Total(files, list[..a]) + files[list[a]].size
  {
    assert Within(files, list[..a]) && Within(files, list[a..b]);
    assert list[..b] == list[..a] + list[a..b];
    TotalJoin(files, list[..a], list[a..b]);
    if b == a + 1 {
      assert list[a..b] == [list[a]];
      assert Total(files, [list[a]]) == files[list[a]].size;
    }
  }

  lemma {:induction false} FreeInRange(files: seq<File>, taken: seq<bool>, n: nat)
    requires n <= |files| == |taken| && forall j {:trigger files[j]} :: 0 <= j < n ==> 0 < files[j].key <= LONG_MAX
    ensures InRange(files, taken, 1, LONG_MAX, n) == FreeList(taken, n)
  {
    if n > 0 {
      FreeInRange(files, taken, n - 1);
      assert 0 < files[n - 1].key <= LONG_MAX;
    }
  }

  /** The unassigned files of a disk are at most k, or the first k of them alone pass the byte limit. */
  ghost predicate RestWithin(files: seq<File>, taken: seq<bool>, k: nat)
    requires |files| == |taken|
  {
    var free := FreeList(taken, |taken|);
    |free| <= k || (Within(files, free[..k]) && Total(files, free[..k]) > 2_147_483_648)
  }

  lemma RestList(su: Setup, i: nat, taken: seq<bool>)
    requires i < |su.files| == |su.filesSize| && DiskSetupOk(su, i) && |taken| == |su.files[i]|
    ensures var list := FreeList(taken, |taken|);
      && Within(su.files[i], list) && Increasing(list) && |list| == FreeCount(taken, |taken|)
      && (forall a {:trigger list[a]} :: 0 <= a < |list| ==> !taken[list[a]])
      && InsertionOf(su, i, taken, 0, 0) == list[..RowsTaken(su, su.files[i], list, true, 0, 0)]
  {
    hide RowsTaken, Increasing, Selected;
    SetupKeys(su, i);
    FreeInRange(su.files[i], taken, |taken|);
    FreeListOk(taken, |taken|);
  }

  lemma SetupKeys(su: Setup, i: nat)
    requires i < |su.files| == |su.filesSize| && DiskSetupOk(su, i)
    ensures forall j {:trigger su.files[i][j]} :: 0 <= j < |su.files[i]| ==> 0 < su.files[i][j].key <= LONG_MAX
  {
    hide FreeBytes;
    assert ListOk(su.files[i]);
    assert forall j {:trigger su.files[i][j]} :: 0 <= j < |su.files[i]| ==> su.files[i][j].key > 0;
  }

  lemma FreePrefix(files: seq<File>, taken: seq<bool>, list: seq<nat>, n: nat)
    requires |files| == |taken| && Within(files, list) && Increasing(list) && n <= |list|
    requires forall a {:trigger list[a]} :: 0 <= a < |list| ==> !taken[list[a]]
    ensures Within(files, list[..n]) && FreePicks(files, taken, list[..n])
  {
  }

  /** What the open-ended insertion takes: unassigned files from the first one on, and how many of them. */
  lemma RestPicks(su: Setup, i: nat, taken: seq<bool>)
    requires i < |su.files| == |su.filesSize| && DiskSetupOk(su, i) && |taken| == |su.files[i]|
    ensures var picks := InsertionOf(su, i, taken, 0, 0);
      && Within(su.files[i], picks) && FreePicks(su.files[i], taken, picks)
      && picks <= FreeList(taken, |taken|) && |FreeList(taken, |taken|)| == FreeCount(taken, |taken|)
      && (|picks| == 0 <==> FreeCount(taken, |taken|) == 0) && |picks| <= su.maxFiles + 1
  {
    hide InsertionOf, DiskSetupOk, RowsTaken, FreeList, FreeCount, FreePicks, Increasing, Within;
    var list := FreeList(taken, |taken|);
    RestList(su, i, taken);
    RestLimit(su, su.files[i], list, 0, 0);
    FreePrefix(su.files[i], taken, list, RowsTaken(su, su.files[i], list, true, 0, 0));
  }

  /** When that is no more than k files. */
  lemma RestPicksIff(su: Setup, i: nat, taken: seq<bool>, k: nat)
    requires i < |su.files| == |su.filesSize| && DiskSetupOk(su, i) && |taken| == |su.files[i]| && k <= su.maxFiles
    ensures |InsertionOf(su, i, taken, 0, 0)| <= k <==> RestWithin(su.files[i], taken, k)
  {
    hide InsertionOf, DiskSetupOk, RowsTaken, FreeList, FreeCount, Increasing;
    var list := FreeList(taken, |taken|);
    RestList(su, i, taken);
    assert list[..0] == [];
    RowsTakenWithin(su, su.files[i], list, 0, 0, k);
  }

  lemma {:induction false} RestLimit(su: Setup, files: seq<File>, list: seq<nat>, n: nat, bytes: nat)
    requires n <= |list| && Within(files, list) && n <= su.maxFiles
    ensures RowsTaken(su, files, list, true, n, bytes) <= su.maxFiles + 1
    decreases |list| - n
  {
    if n < |list| && n + 1 <= su.maxFiles {
      RestLimit(su, files, list, n + 1, bytes + files[list[n]].size);
    }
  }

  /** A disk after the open-ended insertion. */
  ghost function AfterRest(su: Setup, i: nat, d: PlanDisk): PlanDisk
    requires i < |su.files| && |d.taken| == |su.files[i]|
  {
    var picks := InsertionOf(su, i, d.taken, 0, 0);
    if Within(su.files[i], picks) then Inserted(su.files[i], d, picks) else d
  }

  /**
   * The open-ended insertion keeps the disk within the file limit exactly if its unassigned files do, or
   * if as many of them as the limit still admits pass the byte limit.
   */
  lemma RestKeepsLimitIff(su: Setup, i: nat, d: PlanDisk)
    requires i < |su.files| == |su.filesSize| && DiskSetupOk(su, i) && |d.taken| == |su.files[i]|
    requires d.filesInSlice <= su.maxFiles
    ensures AfterRest(su, i, d).filesInSlice <= su.maxFiles
      <==> RestWithin(su.files[i], d.taken, su.maxFiles - d.filesInSlice)
    ensures AfterRest(su, i, d).filesInSlice <= d.filesInSlice + su.maxFiles + 1
  {
    hide RestWithin, InsertionOf, DiskSetupOk, FreePicks;
    RestPicks(su, i, d.taken);
    RestPicksIff(su, i, d.taken, su.maxFiles - d.filesInSlice);
  }

  /** The next disk, from i on, that has unassigned files: a group of the query that counts them. */
  function NextGroup(disks: seq<PlanDisk>, i: nat): (g: nat)
    requires i <= |disks|
    ensures i <= g <= |disks|
    ensures g < |disks| ==> FreeCount(disks[g].taken, |disks[g].taken|) > 0
    ensures forall k {:trigger disks[k]} :: i <= k < g ==> FreeCount(disks[k].taken, |disks[k].taken|) == 0
    decreases |disks| - i
  {
    if i == |disks| || FreeCount(disks[i].taken, |disks[i].taken|) > 0 then i else NextGroup(disks, i + 1)
  }

  lemma {:induction false} SomeFree(taken: seq<bool>, n: nat) returns (q: nat)
    requires n <= |taken| && FreeCount(taken, n) > 0
    ensures q < n && !taken[q]
  {
    if taken[n - 1] {
      q := SomeFree(taken, n - 1);
    } else {
      q := n - 1;
    }
  }

  lemma {:induction false} AllTaken(taken: seq<bool>, n: nat)
    requires n <= |taken|
    ensures FreeCount(taken, n) == 0 <==> forall j :: 0 <= j < n ==> taken[j]
  {
    if n > 0 {
      AllTaken(taken, n - 1);
    }
  }

  // ---------------------------------------------------------------- closing

  function RowsOf(disks: seq<PlanDisk>): seq<seq<Row>> {
    seq(|disks|, i requires 0 <= i < |disks| => disks[i].rows)
  }

  /** A disk ready for the next slice. */
  function ClearedDisk(d: PlanDisk): PlanDisk {
    d.(rows := [], filesInSlice := 0, sumFilesLen := 0, diskFinished := false,
      consumedSize := d.consumedSize + d.sumFilesLen)
  }

  function ClearAll(disks: seq<PlanDisk>): seq<PlanDisk> {
    seq(|disks|, i requires 0 <= i < |disks| => ClearedDisk(disks[i]))
  }

  lemma PlacedCommit(slices: seq<Slice>, slice: Slice, i: nat)
    requires i < |slice.rows|
    ensures Placed(slices + [slice], i) == Placed(slices, i) + RowBag(slice.rows[i])
  {
    assert (slices + [slice])[..|slices|] == slices;
  }

  lemma {:induction false} ClearedCounts(disks: seq<PlanDisk>, n: nat)
    requires n <= |disks|
    ensures FileCount(ClearAll(disks), n) == 0 && TotalFree(ClearAll(disks), n) == TotalFree(disks, n)
  {
    if n > 0 {
      ClearedCounts(disks, n - 1);
    }
  }

  /** A commit moves the rows from the current slice to the committed ones and keeps all accounts. */
  lemma CommitKeepsState(su: Setup, slices: seq<Slice>, disks: seq<PlanDisk>, sliceSize: nat, maxFilledDisk: nat,
                         filesCount: nat)
    requires StateOk(su, slices, disks, sliceSize, maxFilledDisk, filesCount)
    ensures var slice := Slice(RowsOf(disks), sliceSize, filesCount);
      StateOk(su, slices + [slice], ClearAll(disks), 0, 0, 0)
    ensures Cleared(ClearAll(disks)) && |su.files| == |su.filesSize| == |disks|
    ensures forall i {:trigger disks[i]} :: 0 <= i < |disks| ==>
      disks[i].consumedSize + disks[i].sumFilesLen <= su.filesSize[i]
  {
    var slice := Slice(RowsOf(disks), sliceSize, filesCount);
    hide FreeBytes, Placed, RowBag, TakenBag, SetupOk;
    ClearedCounts(disks, |disks|);
    forall i {:trigger ClearAll(disks)[i]} | 0 <= i < |disks|
      ensures DiskInv(su, slices + [slice], i, ClearAll(disks)[i])
    {
      assert DiskInv(su, slices, i, disks[i]);
      ClearKeepsDisk(su, slices, slice, i, disks[i]);
    }
  }

  lemma ClearKeepsDisk(su: Setup, slices: seq<Slice>, slice: Slice, i: nat, d: PlanDisk)
    requires i < |su.files| == |su.filesSize| && DiskInv(su, slices, i, d)
    requires i < |slice.rows| && slice.rows[i] == d.rows
    ensures DiskInv(su, slices + [slice], i, ClearedDisk(d))
  {
    hide FreeBytes, Placed;
    PlacedCommit(slices, slice, i);
  }

  // ---------------------------------------------------------------- the committed state

  /** Every assigned file is in exactly one row of exactly one committed slice, and every such row is of one. */
  ghost predicate CommittedOk(su: Setup, slices: seq<Slice>, disks: seq<PlanDisk>) {
    && |disks| == |su.files|
    && forall i {:trigger disks[i]} :: 0 <= i < |disks| ==>
      |disks[i].taken| == |su.files[i]| && Placed(slices, i) == TakenBag(su.files[i], disks[i].taken, |su.files[i]|)
  }

  lemma ClearedIsCommitted(su: Setup, slices: seq<Slice>, disks: seq<PlanDisk>, sliceSize: nat, maxFilledDisk: nat,
                           filesCount: nat)
    requires StateOk(su, slices, disks, sliceSize, maxFilledDisk, filesCount) && Cleared(disks)
    ensures CommittedOk(su, slices, disks)
  {
    hide Placed, TakenBag, SetupOk, HeadOk, DiskOk;
    forall i {:trigger disks[i]} | 0 <= i < |disks|
      ensures |disks[i].taken| == |su.files[i]|
      ensures Placed(slices, i) == TakenBag(su.files[i], disks[i].taken, |su.files[i]|)
    {
      assert DiskInv(su, slices, i, disks[i]);
      assert RowBag(disks[i].rows) == multiset{};
    }
  }
}
