/** A run of the planner in which another disk's overshoot reopens a disk, which then records wrong starts. */
module PlanExample {
  import opened Bytes
  import opened Streams
  import opened PlanRules
  import opened PlanTables
  import opened PlanState
  import opened PlanFill
  import opened PlanRun
  import opened Planner
  import opened PlanOrder

  function ListA(): seq<File> { [File(1, 8264), File(2, 127), File(3, 62)] }
  function ListB(): seq<File> { [File(1, 8390), File(2, 65)] }
  function ListC(): seq<File> { [File(1, 8196), File(2, 129), File(3, 129)] }

  /** Three disks, all files new, a tolerance of one percent and a limit of 1000 files. */
  function Example(): Setup {
    Setup([ListA(), ListB(), ListC()], [8453, 8455, 8454], 1, 1000, 0, 1)
  }

  lemma ExampleOk()
    ensures SetupOk(Example())
  {
    var su := Example();
    DiskAOk();
    DiskBOk();
    DiskCOk();
    hide DiskSetupOk, ListA, ListB, ListC;
    forall i {:trigger DiskSetupOk(su, i)} | 0 <= i < |su.files|
      ensures DiskSetupOk(su, i)
    {
      assert i == 0 || i == 1 || i == 2;
    }
  }

  lemma DiskAOk()
    ensures DiskSetupOk(Example(), 0)
  {
    hide ListB, ListC;
    assert AllFree(3) == [false, false, false];
    assert FreeBytes(ListA(), AllFree(3), 2) == 8391;
  }

  lemma DiskBOk()
    ensures DiskSetupOk(Example(), 1)
  {
    hide ListA, ListC;
    assert AllFree(2) == [false, false];
    assert FreeBytes(ListB(), AllFree(2), 1) == 8390;
  }

  lemma DiskCOk()
    ensures DiskSetupOk(Example(), 2)
  {
    hide ListA, ListB;
    assert AllFree(3) == [false, false, false];
    assert FreeBytes(ListC(), AllFree(3), 2) == 8325;
  }

  /** The first call of disk A finds a hole of 126 bytes: file 2 does not fit, file 3 closes it. */
  lemma FirstFillOfA()
    ensures Fill(ListA(), [true, false, false], 1, 999, 126) == Filled([2], false)
  {
    var files, taken := ListA(), [true, false, false];
    assert NextFree(files, taken, 126, 0) == 2;
    assert PercentDiff(62, 126, 1) == 0;
    assert Scan(files, taken, 126, 1, 999, 0, 126) == Run([2], 0);
  }

  /** Disk C, filled up by 194 bytes, takes both its small files and overshoots by 64. */
  lemma FillOfC()
    ensures Fill(ListC(), [true, false, false], 1, 999, 194) == Filled([1, 2], false)
  {
    var files, taken := ListC(), [true, false, false];
    assert NextFree(files, taken, 194, 0) == 1;
    assert PercentDiff(129, 194, 1) != 0 && PercentDiff(129, 65, 1) == 0;
    assert NextFree(files, taken, 194, 2) == 2;
    assert Scan(files, taken, 194, 1, 998, 2, 65) == Run([2], 0);
    assert Scan(files, taken, 194, 1, 999, 0, 194) == Run([1, 2], 0);
  }

  /** Now disk A has a hole of 128 bytes, and file 2 fits after all. */
  lemma SecondFillOfA()
    ensures Fill(ListA(), [true, false, true], 1, 998, 128) == Filled([1], false)
  {
    var files, taken := ListA(), [true, false, true];
    assert NextFree(files, taken, 128, 0) == 1;
    assert PercentDiff(127, 128, 1) == 0;
    assert Scan(files, taken, 128, 1, 998, 0, 128) == Run([1], 0);
  }

  // ---------------------------------------------------------------- the states of the run

  const A0 := Row(1, 8264, 0)
  const A1 := PlanDisk([true, false, false], [A0], 1, 8264, false, 0)
  const A2 := PlanDisk([true, false, true], [A0, Row(3, 62, 8264)], 2, 8326, false, 0)
  const A3 := PlanDisk([true, true, true], [A0, Row(3, 62, 8264), Row(2, 127, 8326)], 3, 8453, false, 0)
  const B1 := PlanDisk([true, false], [Row(1, 8390, 0)], 1, 8390, false, 0)
  const C1 := PlanDisk([true, false, false], [Row(1, 8196, 0)], 1, 8196, false, 0)
  const C2 := PlanDisk([true, true, true], [Row(1, 8196, 0), Row(2, 129, 8196), Row(3, 129, 8325)], 3, 8454, false, 0)

  lemma StartOf(files: seq<File>, i: nat, n: nat, z: PlanDisk)
    requires i < 3 && files == Example().files[i] && n == |files|
    requires z == PlanDisk(AllFree(n)[0 := true], [Row(1, files[0].size, 0)], 1, files[0].size, false, 0)
    ensures Started(Example(), i, FreshDisk(n)) == z
  {
    var d := FreshDisk(n);
    assert NextFree(files, d.taken, LONG_MAX, 0) == 0;
    assert Mark(d.taken, [0]) == AllFree(n)[0 := true];
    OneRow(files, 0, [], files[0].size);
  }

  lemma OneRow(files: seq<File>, q: nat, rows: seq<Row>, size: nat)
    requires q < |files| && size == files[q].size
    ensures Within(files, [q]) && Total(files, [q]) == size
    ensures AddRows(rows, files, [q]) == rows + [Row(files[q].key, size, End(rows, |rows|))]
  {
    assert Rest(files, [q]) == [];
  }

  /** The disk after a call that takes one file. */
  lemma OneFilled(i: nat, sliceSize: nat, d: PlanDisk, z: PlanDisk, q: nat)
    requires i < 3 && FilledUp(Example(), sliceSize, i, d, z) && q < |Example().files[i]| && !d.diskFinished
    requires Fill(Example().files[i], d.taken, 1, 1000 - d.filesInSlice, sliceSize - d.sumFilesLen)
      == Filled([q], false)
    ensures var f := Example().files[i][q];
      z == PlanDisk(d.taken[q := true], d.rows + [Row(f.key, f.size, End(d.rows, |d.rows|))], d.filesInSlice + 1,
                    d.sumFilesLen + f.size, false, d.consumedSize)
  {
    hide Fill;
    var files := Example().files[i];
    OneRow(files, q, d.rows, files[q].size);
    assert Mark(d.taken, [q]) == d.taken[q := true];
  }

  lemma RunOfA(z: PlanDisk)
    ensures FilledUp(Example(), 8390, 0, A1, z) ==> z == A2
    ensures FilledUp(Example(), 8454, 0, A2, z) ==> z == A3
  {
    hide FilledUp, Fill;
    FirstFillOfA();
    SecondFillOfA();
    EndsOfA();
    hide End;
    if FilledUp(Example(), 8390, 0, A1, z) {
      OneFilled(0, 8390, A1, z, 2);
    }
    if FilledUp(Example(), 8454, 0, A2, z) {
      OneFilled(0, 8454, A2, z, 1);
    }
  }

  lemma EndsOfA()
    ensures End(A1.rows, 1) == 8264 && End(A2.rows, 2) == 8326
  {
    assert End(A2.rows, 1) == 8264;
  }

  lemma EndsOfLast()
    ensures End(A3.rows, 0) == 0 && End(A3.rows, 1) == 8264 && End(A3.rows, 2) == 8326
  {
    assert End(A3.rows, 0) == 0;
    assert End(A3.rows, 1) == 8264;
  }

  lemma RunOfC(z: PlanDisk)
    ensures FilledUp(Example(), 8390, 2, C1, z) ==> z == C2
  {
    hide Fill;
    FillOfC();
    BothRowsOfC();
    hide AddRows, Mark, Total;
  }

  lemma BothRowsOfC()
    ensures Within(ListC(), [1, 2]) && Total(ListC(), [1, 2]) == 258
    ensures AddRows(C1.rows, ListC(), [1, 2]) == C2.rows && Mark(C1.taken, [1, 2]) == C2.taken
  {
    var files, rows := ListC(), [Row(1, 8196, 0), Row(2, 129, 8196)];
    assert Rest(files, [1, 2]) == [2];
    assert End(C1.rows, 1) == 8196;
    assert AddRow(C1.rows, files[1]) == rows;
    assert End(rows, 1) == 8196 && End(rows, 2) == 8325;
    OneRow(files, 2, rows, 129);
  }

  /** Which disk comes next in each of the three states, and that none of them is balanced. */
  lemma NextDisks(r: nat)
    requires r < 3
    ensures IsNext(Example(), [A1, B1, C1], 8390, 1, r) ==> r == 0
    ensures IsNext(Example(), [A2, B1, C1], 8390, 1, r) ==> r == 2
    ensures IsNext(Example(), [A2, B1, C2], 8454, 2, r) ==> r == 0
    ensures !Balanced(Example(), [A1, B1, C1], 8390) && !Balanced(Example(), [A2, B1, C1], 8390)
    ensures !Balanced(Example(), [A2, B1, C2], 8454)
  {
    var su := Example();
    var s1, s2, s3 := [A1, B1, C1], [A2, B1, C1], [A2, B1, C2];
    assert Deficit(su, s1, 8390, 0) == -2 && Deficit(su, s1, 8390, 1) == 0 && Deficit(su, s1, 8390, 2) == -2;
    assert Deficit(su, s2, 8390, 0) == 0 && Deficit(su, s2, 8390, 1) == 0 && Deficit(su, s2, 8390, 2) == -2;
    assert Deficit(su, s3, 8454, 0) == -2 && Deficit(su, s3, 8454, 1) == 0 && Deficit(su, s3, 8454, 2) == 0;
    DeficitMeans(su, s1, 8390, 0);
    DeficitMeans(su, s2, 8390, 2);
    DeficitMeans(su, s3, 8454, 0);
    assert !Same(s1[0].sumFilesLen, 8390, 1) && !Same(s2[2].sumFilesLen, 8390, 1) && !Same(s3[0].sumFilesLen, 8454, 1);
  }

  lemma AfterStart(after: seq<PlanDisk>, size: nat, top: nat, count: nat)
    requires Shapes(Example(), FreshDisks(Example())) && StartedUpTo(Example(), FreshDisks(Example()), after, 3)
    requires HeadOk(after, size, top, count)
    ensures after == [A1, B1, C1] && size == 8390 && top == 1
  {
    var su := Example();
    assert AllFree(3)[0 := true] == [true, false, false] && AllFree(2)[0 := true] == [true, false];
    StartOf(ListA(), 0, 3, A1);
    StartOf(ListB(), 1, 2, B1);
    StartOf(ListC(), 2, 3, C1);
    hide Started, FileCount;
    assert after[0] == A1 && after[1] == B1 && after[2] == C1;
  }

  lemma FinallyBalanced()
    ensures Balanced(Example(), [A3, B1, C2], 8454)
    ensures [A1, B1, C1][0 := A2] == [A2, B1, C1] && [A2, B1, C1][2 := C2] == [A2, B1, C2]
    ensures [A2, B1, C2][0 := A3] == [A3, B1, C2]
    ensures Contiguous(A3.rows) && !Ascending(A3.rows) && !StartsInKeyOrder(A3.rows)
  {
    var rows := A3.rows;
    EndsOfLast();
    hide End;
    assert rows[1].dseq == 3 && rows[2].dseq == 2;
    StartsRightIff(rows);
  }

  /**
   * A whole planning run up to a balanced slice. Disk A is filled twice because disk C overshot: its
   * file 2 is recorded behind file 3, so its recorded start is not where file 2 lies in key order.
   */
  method ReopenedDisk() returns (rows: seq<Row>, balanced: bool)
    ensures rows == [Row(1, 8264, 0), Row(3, 62, 8264), Row(2, 127, 8326)] && balanced
    ensures Contiguous(rows) && !Ascending(rows) && !StartsInKeyOrder(rows)
  {
    hide SetupOk, StateOk, Shapes, Cleared, StartedUpTo, HeadOk, FreshDisks, Example, IsNext, Balanced, FilledUp,
      WithinReach, Progress, SoleBig, NoBig, Ascending, StartsInKeyOrder, Contiguous, TotalFree, Deficit;
    ExampleOk();
    var p := new Planner(Example());
    var solo := p.StartSlice();
    ThreeDisks();
    DiskFacts(p.su, p.slices, p.disks, p.sliceSize, p.maxFilledDisk, p.filesCount, 0);
    AfterStart(p.disks, p.sliceSize, p.maxFilledDisk, p.filesCount);
    NextDisks(0);
    NextDisks(1);
    NextDisks(2);
    FinallyBalanced();
    var next := p.AddFile2Slice();
    RunOfA(p.disks[0]);
    next := p.AddFile2Slice();
    RunOfC(p.disks[2]);
    next := p.AddFile2Slice();
    RunOfA(p.disks[0]);
    next := p.AddFile2Slice();
    return p.disks[0].rows, next < 0;
  }

  lemma ThreeDisks()
    ensures |Example().files| == 3
  {
  }
}
