/** Runs of the planner at its edges: a slice of one disk beyond the file limit, empty files that stop the program. */
module PlanEdges {
  import opened Bytes
  import opened Streams
  import opened PlanRules
  import opened PlanTables
  import opened PlanState
  import opened PlanFill
  import opened PlanRun
  import opened PlanHistory
  import opened Planner

  // ---------------------------------------------------------------- one disk beyond the limit

  function ThreeFiles(): seq<File> { [File(1, 30), File(2, 20), File(3, 10)] }

  /** One disk with three files, and a limit of one file in a slice. */
  function Single(): Setup { Setup([ThreeFiles()], [60], 1, 1, 0, 0) }

  const Single1 := PlanDisk([true, false, false], [Row(1, 30, 0)], 1, 30, false, 0)

  lemma SingleOk()
    ensures SetupOk(Single())
  {
    SingleDisk();
    hide DiskSetupOk, ThreeFiles;
  }

  lemma SingleDisk()
    ensures DiskSetupOk(Single(), 0)
  {
    assert AllFree(3) == [false, false, false];
    assert FreeBytes(ThreeFiles(), AllFree(3), 2) == 50;
  }

  lemma SingleStarts()
    ensures |FreshDisks(Single())| == 1 && FreshDisks(Single())[0] == FreshDisk(3)
    ensures Started(Single(), 0, FreshDisk(3)) == Single1 && StartsBig(Single(), 0, FreshDisk(3))
  {
    var d := FreshDisk(3);
    assert NextFree(ThreeFiles(), d.taken, LONG_MAX, 0) == 0;
    assert Mark(d.taken, [0]) == [true, false, false];
    OneRow(ThreeFiles(), 0);
  }

  lemma OneRow(files: seq<File>, q: nat)
    requires q < |files|
    ensures Within(files, [q]) && Total(files, [q]) == files[q].size
    ensures AddRows([], files, [q]) == [Row(files[q].key, files[q].size, 0)]
  {
    assert Rest(files, [q]) == [];
  }

  /** The open-ended insertion takes both files that are left although the limit is one. */
  lemma BothTaken()
    ensures InsertionOf(Single(), 0, Single1.taken, 0, 0) == [1, 2]
    ensures AfterRest(Single(), 0, Single1).filesInSlice == 3
  {
    var su, files, taken := Single(), ThreeFiles(), Single1.taken;
    assert InRange(files, taken, 1, LONG_MAX, 1) == [];
    assert InRange(files, taken, 1, LONG_MAX, 2) == [1];
    var list := InRange(files, taken, 1, LONG_MAX, 3);
    assert list == [1, 2];
    assert RowsTaken(su, files, list, true, 1, 20) == 2;
    assert RowsTaken(su, files, list, true, 0, 0) == 2;
    assert list[..2] == list;
  }

  /** A slice of one disk with three files where the limit is one: two more than the limit. */
  method ThreeForOne() returns (count: nat, fatal: bool)
    ensures count == Single().maxFiles + 2 && !fatal
  {
    hide SetupOk, StateOk, Shapes, Cleared, StartedUpTo, FreshDisks, SoleBig, NoBig, TotalFree, AfterRest, Started,
      StartsBig, TwoLeft;
    SingleOk();
    SingleStarts();
    BothTaken();
    var p := new Planner(Single());
    SingleSolo(p.disks);
    var solo := p.StartSlice();
    assert p.disks == [Single1] by {
      SingleAfter(p.disks);
    }
    StateShapes(p.su, p.slices, p.disks, p.sliceSize, p.maxFilledDisk, p.filesCount);
    SoloShape(p.su, p.disks, 0);
    fatal := p.CopyRest(solo);
    OnlyOne([Single1]);
    count := p.disks[0].filesInSlice;
  }

  lemma SingleSolo(disks: seq<PlanDisk>)
    requires disks == FreshDisks(Single())
    ensures Shapes(Single(), disks) && SoleBig(Single(), disks, 1, 0) && |Single().files| == 1 && |disks| == 1
  {
    hide StartsBig, Started;
    SingleStarts();
  }

  lemma SingleAfter(after: seq<PlanDisk>)
    requires Shapes(Single(), FreshDisks(Single())) && StartedUpTo(Single(), FreshDisks(Single()), after, 1)
    ensures after == [Single1]
  {
    hide Started, FreshDisk;
    SingleStarts();
  }

  lemma OnlyOne(disks: seq<PlanDisk>)
    requires |disks| == 1
    ensures !TwoLeft(disks)
  {
  }

  // ---------------------------------------------------------------- empty files

  /** Disk A has two files with bytes, disk B an empty one. */
  function WithEmpty(): Setup { Setup([[File(1, 1000), File(2, 500)], [File(1, 0)]], [1500, 0], 1, 1000, 0, 0) }

  const WithEmptyA := PlanDisk([true, false], [Row(1, 1000, 0)], 1, 1000, false, 0)
  const WithEmptyB := PlanDisk([false], [], 0, 0, false, 0)

  lemma WithEmptyOk()
    ensures SetupOk(WithEmpty())
  {
    WithEmptyDisks();
    hide DiskSetupOk;
  }

  lemma WithEmptyDisks()
    ensures DiskSetupOk(WithEmpty(), 0) && DiskSetupOk(WithEmpty(), 1)
  {
    var su := WithEmpty();
    assert AllFree(2) == [false, false] && AllFree(1) == [false];
    assert FreeBytes(su.files[0], AllFree(2), 1) == 1000;
    assert FreeBytes(su.files[1], AllFree(1), 0) == 0;
  }

  lemma WithEmptyStarts()
    ensures var su := WithEmpty();
      && FreshDisks(su) == [FreshDisk(2), FreshDisk(1)]
      && Started(su, 0, FreshDisk(2)) == WithEmptyA && StartsBig(su, 0, FreshDisk(2))
      && Started(su, 1, FreshDisk(1)) == WithEmptyB && !StartsBig(su, 1, FreshDisk(1))
  {
    var su, d := WithEmpty(), FreshDisk(2);
    assert NextFree(su.files[0], d.taken, LONG_MAX, 0) == 0;
    assert Mark(d.taken, [0]) == [true, false];
    OneRow(su.files[0], 0);
  }

  /** One planning step later the program would stop: disk A starts alone, and both disks have a file left. */
  lemma WithEmptyStops()
    ensures Shapes(WithEmpty(), FreshDisks(WithEmpty())) && SoleBig(WithEmpty(), FreshDisks(WithEmpty()), 2, 0)
    ensures StartedAll(WithEmpty(), FreshDisks(WithEmpty())) == [WithEmptyA, WithEmptyB]
    ensures TwoLeft([WithEmptyA, WithEmptyB])
    ensures Stops(WithEmpty(), FreshDisks(WithEmpty()))
  {
    var su, disks := WithEmpty(), [WithEmptyA, WithEmptyB];
    assert FreeCount(WithEmptyA.taken, 1) == 0;
    assert FreeCount(disks[0].taken, 2) == 1 && FreeCount(disks[1].taken, 1) == 1;
    hide StartsBig, Started, FreeCount;
    WithEmptyStarts();
    assert FreshDisks(su)[0] == FreshDisk(2) && FreshDisks(su)[1] == FreshDisk(1);
    assert SoleBig(su, FreshDisks(su), 2, 0);
  }

  /** The run up to the check that only one disk is left, which fires. */
  method EmptyFilesStop() returns (fatal: bool)
    ensures fatal
  {
    hide SetupOk, StateOk, Shapes, Cleared, StartedUpTo, FreshDisks, SoleBig, NoBig, TotalFree, AfterRest, Started,
      StartsBig, TwoLeft, WithEmpty, StartedAll, Stops;
    WithEmptyOk();
    WithEmptyStops();
    TwoDisks();
    var p := new Planner(WithEmpty());
    var solo := p.StartSlice();
    assert p.disks == [WithEmptyA, WithEmptyB] by {
      WithEmptyAfter(p.disks);
    }
    StateShapes(p.su, p.slices, p.disks, p.sliceSize, p.maxFilledDisk, p.filesCount);
    SoloShape(p.su, p.disks, 0);
    fatal := p.CopyRest(solo);
  }

  lemma WithEmptyAfter(after: seq<PlanDisk>)
    requires Shapes(WithEmpty(), FreshDisks(WithEmpty())) && StartedUpTo(WithEmpty(), FreshDisks(WithEmpty()), after, 2)
    ensures after == [WithEmptyA, WithEmptyB]
  {
    hide Started, FreshDisk;
    WithEmptyStarts();
  }

  lemma TwoDisks()
    ensures |WithEmpty().files| == 2 && |FreshDisks(WithEmpty())| == 2
    ensures |WithEmpty().files[0]| == 2
  {
  }

  /** With disk A used up the empty file on disk B stops nothing, and is never planned. */
  lemma EmptyAlonePasses()
    ensures var disks := [WithEmptyA.(taken := [true, true]), WithEmptyB];
      !TwoLeft(disks) && FreeCount(disks[1].taken, 1) == 1 && OnlyEmptyLeft(WithEmpty(), disks)
  {
    var disks := [WithEmptyA.(taken := [true, true]), WithEmptyB];
    assert FreeCount(disks[0].taken, 1) == 0;
  }
}
