/** What the planner keeps per disk and per slice, and the invariants every insertion preserves. */
module PlanState {
  import opened Bytes
  import opened Streams
  import opened PlanRules
  import opened PlanTables

  /** Sizes are signed 64-bit numbers. */
  const LONG_MAX: nat := 0x7fff_ffff_ffff_ffff

  /** Limit on the bytes a slice of a single disk takes after its first file. */
  const TWO_GIGA: nat := 2 * 1024 * 1024 * 1024

  /** The unassigned files of each disk when planning begins, the disks' total sizes, and the configuration. */
  datatype Setup = Setup(files: seq<seq<File>>, filesSize: seq<nat>, tolerance: nat, maxFiles: nat, maxSlices: nat,
                         maxSizeDisk: nat)

  function AllFree(n: nat): seq<bool> { seq(n, _ => false) }

  ghost predicate DiskSetupOk(su: Setup, i: nat)
    requires i < |su.files| == |su.filesSize|
  {
    && ListOk(su.files[i])
    && (forall j {:trigger su.files[i][j]} :: 0 <= j < |su.files[i]| ==>
          su.files[i][j].size <= LONG_MAX && su.files[i][j].key <= LONG_MAX)
    && FreeBytes(su.files[i], AllFree(|su.files[i]|), |su.files[i]|) <= su.filesSize[i]
  }

  ghost predicate SetupOk(su: Setup) {
    && |su.files| == |su.filesSize| > 0 && su.maxFiles > 0 && su.maxSizeDisk < |su.files|
    && forall i {:trigger DiskSetupOk(su, i)} :: 0 <= i < |su.files| ==> DiskSetupOk(su, i)
  }

  /** One disk: which files are assigned, its rows and counts in the current slice, and what earlier slices hold. */
  datatype PlanDisk = PlanDisk(taken: seq<bool>, rows: seq<Row>, filesInSlice: nat, sumFilesLen: nat,
                               diskFinished: bool, consumedSize: nat)

  /** A committed slice. */
  datatype Slice = Slice(rows: seq<seq<Row>>, ssize: nat, filesCount: nat)

  /** Bytes of a disk that may still go into the current slice; zero if it is at the file limit. */
  function DiskInUse(su: Setup, i: nat, d: PlanDisk): nat
    requires i < |su.filesSize|
  {
    if d.filesInSlice >= su.maxFiles then 0 else Max(su.filesSize[i] - d.consumedSize, 0)
  }

  predicate Active(su: Setup, i: nat, d: PlanDisk)
    requires i < |su.filesSize|
  {
    DiskInUse(su, i, d) > 0 && !d.diskFinished
  }

  function Inserted(files: seq<File>, d: PlanDisk, picks: seq<nat>): PlanDisk
    requires Within(files, picks)
  {
    d.(taken := Mark(d.taken, picks), rows := AddRows(d.rows, files, picks),
       filesInSlice := d.filesInSlice + |picks|, sumFilesLen := d.sumFilesLen + Total(files, picks))
  }

  // ---------------------------------------------------------------- invariants

  /** The rows of all slices for one disk. */
  function Placed(slices: seq<Slice>, i: nat): multiset<File>
    decreases |slices|
  {
    if |slices| == 0 then multiset{}
    else
      var last := slices[|slices| - 1];
      Placed(slices[..|slices| - 1], i) + if i < |last.rows| then RowBag(last.rows[i]) else multiset{}
  }

  /** Rows tile [0, sumFilesLen) in insertion order, and the byte counts cover what is not assigned yet. */
  ghost predicate DiskOk(files: seq<File>, filesSize: nat, d: PlanDisk) {
    && |d.taken| == |files|
    && Contiguous(d.rows) && d.filesInSlice == |d.rows| && d.sumFilesLen == End(d.rows, |d.rows|)
    && d.consumedSize + d.sumFilesLen + FreeBytes(files, d.taken, |files|) <= filesSize
  }

  /** Every assigned file has exactly one row, in a slice or in the slice being planned, and no other file has one. */
  ghost predicate PlacedOk(files: seq<File>, slices: seq<Slice>, i: nat, d: PlanDisk) {
    |d.taken| == |files| && Placed(slices, i) + RowBag(d.rows) == TakenBag(files, d.taken, |files|)
  }

  ghost predicate DiskInv(su: Setup, slices: seq<Slice>, i: nat, d: PlanDisk)
    requires i < |su.files| == |su.filesSize|
  {
    DiskOk(su.files[i], su.filesSize[i], d) && PlacedOk(su.files[i], slices, i, d)
  }

  function FileCount(disks: seq<PlanDisk>, n: nat): nat
    requires n <= |disks|
  {
    if n == 0 then 0 else FileCount(disks, n - 1) + disks[n - 1].filesInSlice
  }

  /** The slice is as long as its fullest disk and counts all its files. */
  ghost predicate HeadOk(disks: seq<PlanDisk>, sliceSize: nat, maxFilledDisk: nat, filesCount: nat) {
    && maxFilledDisk < |disks| && disks[maxFilledDisk].sumFilesLen == sliceSize
    && (forall i {:trigger disks[i].sumFilesLen} :: 0 <= i < |disks| ==> disks[i].sumFilesLen <= sliceSize)
    && filesCount == FileCount(disks, |disks|)
  }

  function TotalFree(disks: seq<PlanDisk>, n: nat): nat
    requires n <= |disks|
  {
    if n == 0 then 0 else TotalFree(disks, n - 1) + FreeCount(disks[n - 1].taken, |disks[n - 1].taken|)
  }

  function Unfinished(disks: seq<PlanDisk>, n: nat): nat
    requires n <= |disks|
  {
    if n == 0 then 0 else Unfinished(disks, n - 1) + if disks[n - 1].diskFinished then 0 else 1
  }

  // ---------------------------------------------------------------- preservation

  /** Inserting unassigned files keeps the disk's accounts. */
  lemma InsertKeepsDisk(files: seq<File>, filesSize: nat, slices: seq<Slice>, i: nat, d: PlanDisk, picks: seq<nat>)
    requires DiskOk(files, filesSize, d) && PlacedOk(files, slices, i, d) && FreePicks(files, d.taken, picks)
    ensures Within(files, picks)
    ensures DiskOk(files, filesSize, Inserted(files, d, picks)) && PlacedOk(files, slices, i, Inserted(files, d, picks))
  {
    assert DiskOk(files, filesSize, Inserted(files, d, picks)) by {
      hide PlacedOk, Mark, FreeBytes;
      AddRowsTile(d.rows, files, picks);
      FreeShrinks(files, d.taken, picks);
    }
    hide DiskOk, Mark, FreePicks;
    Moved(files, d.taken, d.rows, picks);
    Rebalance(Placed(slices, i), RowBag(d.rows), TakenBag(files, d.taken, |files|),
              TakenBag(files, Mark(d.taken, picks), |files|), RowBag(AddRows(d.rows, files, picks)));
  }

  lemma Rebalance(p: multiset<File>, r: multiset<File>, t: multiset<File>, t2: multiset<File>, r2: multiset<File>)
    requires p + r == t && t2 + r == t + r2
    ensures p + r2 == t2
  {
    forall x
      ensures (p + r2)[x] == t2[x]
    {
      assert (p + r)[x] == t[x] && (t2 + r)[x] == (t + r2)[x];
    }
  }

  lemma {:induction false} CountsChange(disks: seq<PlanDisk>, i: nat, d: PlanDisk, n: nat)
    requires i < |disks| && n <= |disks|
    ensures FileCount(disks[i := d], n) == FileCount(disks, n) + if i < n then d.filesInSlice - disks[i].filesInSlice
      else 0
    ensures TotalFree(disks[i := d], n) == TotalFree(disks, n)
      + if i < n then FreeCount(d.taken, |d.taken|) - FreeCount(disks[i].taken, |disks[i].taken|) else 0
    ensures Unfinished(disks[i := d], n) == Unfinished(disks, n)
      + if i < n then (if disks[i].diskFinished then 1 else 0) - (if d.diskFinished then 1 else 0) else 0
  {
    if n > 0 {
      CountsChange(disks, i, d, n - 1);
    }
  }

  /** The head after disk i grew. */
  lemma GrowKeepsHead(disks: seq<PlanDisk>, sliceSize: nat, maxFilledDisk: nat, filesCount: nat, i: nat, d: PlanDisk)
    requires HeadOk(disks, sliceSize, maxFilledDisk, filesCount) && i < |disks|
    requires d.sumFilesLen >= disks[i].sumFilesLen && d.filesInSlice >= disks[i].filesInSlice
    ensures HeadOk(disks[i := d], Max(sliceSize, d.sumFilesLen), if d.sumFilesLen > sliceSize then i else maxFilledDisk,
                   filesCount + d.filesInSlice - disks[i].filesInSlice)
  {
    CountsChange(disks, i, d, |disks|);
  }
}
