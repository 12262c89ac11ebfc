/**
 * What a wrong recorded start costs. A restore takes the bytes of a lost file from where the file is
 * recorded to start, while its disk's bytes went into the parity in key order.
 */
module WrongStarts {
  import opened Bytes
  import opened Streams
  import Jobs
  import opened Archive
  import opened Restore
  import opened PlanState
  import opened PlanRun
  import opened PlanHistory
  import opened Planner
  import opened PlanOrder
  import opened PlanLayout
  import PlanExample

  /** A lost disk's part of the XOR is its stream, from any position on. */
  lemma WindowIsStream(lay: Layout, d: nat, s: nat, n: nat, x: nat)
    requires LayoutOk(lay) && d < |lay.rows| == |lay.files| && s + n <= lay.sliceSize && x < n
    ensures |XorWindow(Originals(lay), d, s, n)| == n
    ensures XorWindow(Originals(lay), d, s, n)[x] == At(StreamOf(lay.files[d]), s + x)
  {
    hide LayoutOk, StreamOf, Parity, XorAt;
    ParityByte(lay, s + x);
    LostByte(StreamsOf(lay.files), Parity(lay), d, s + x);
  }

  /** With the start in key order the file comes back. */
  lemma RightStart(lay: Layout, d: nat, t: nat)
    requires LayoutOk(lay) && d < |lay.rows| == |lay.files| && t < |lay.rows[d]| == |lay.files[d]|
    requires End(lay.rows[d], t) + lay.rows[d][t].fsize <= lay.sliceSize
    ensures XorWindow(Originals(lay), d, End(lay.rows[d], t), lay.rows[d][t].fsize) == lay.files[d][t]
  {
    hide *;
    LayoutDisk(lay, d);
    RowAt(lay.rows[d], lay.files[d], t);
    var s, n := End(lay.rows[d], t), lay.rows[d][t].fsize;
    WindowLength(lay, d, s, n);
    var got, file := XorWindow(Originals(lay), d, s, n), lay.files[d][t];
    forall x | 0 <= x < n
      ensures got[x] == file[x]
    {
      WindowIsStream(lay, d, s, n, x);
      ByteOfFile(lay.rows[d], lay.files[d], t, x);
    }
  }

  lemma ByteOfFile(rows: seq<Row>, files: seq<seq<byte>>, t: nat, x: nat)
    requires Jobs.SizesMatch(rows, files) && t < |rows| == |files| && x < rows[t].fsize == |files[t]|
    ensures At(StreamOf(files), End(rows, t) + x) == files[t][x]
  {
    hide StreamOf, Jobs.Agree, Jobs.SizesMatch, End;
    FileInStream(rows, files, t);
    AgreeByte(files[t], StreamOf(files), End(rows, t), rows[t].fsize, End(rows, t) + x);
  }

  lemma WindowLength(lay: Layout, d: nat, s: nat, n: nat)
    ensures |XorWindow(Originals(lay), d, s, n)| == n
  {
  }

  /** Contents that are zero but for the first byte of file t. */
  function OneByte(rows: seq<Row>, t: nat): seq<seq<byte>>
  {
    seq(|rows|, j requires 0 <= j < |rows| => seq(rows[j].fsize, x => if j == t && x == 0 then 1 else 0))
  }

  function OneByteOfDisk(rows: seq<seq<Row>>, d: nat, t: nat): seq<seq<seq<byte>>> {
    seq(|rows|, i requires 0 <= i < |rows| => OneByte(rows[i], if i == d then t else |rows[i]|))
  }

  lemma OneByteFacts(rows: seq<Row>, t: nat)
    ensures Jobs.SizesMatch(rows, OneByte(rows, t))
    ensures t < |rows| && rows[t].fsize > 0 ==> OneByte(rows, t)[t][0] == 1
    ensures forall j, x {:trigger OneByte(rows, t)[j][x]} ::
      0 <= j < |rows| && 0 <= x < rows[j].fsize && !(j == t && x == 0) ==> OneByte(rows, t)[j][x] == 0
  {
  }

  /** Elsewhere than where the file really lies the stream holds zeros. */
  lemma OneByteStream(rows: seq<Row>, t: nat, k: nat)
    requires t < |rows| && k != End(rows, t)
    ensures At(StreamOf(OneByte(rows, t)), k) == 0
  {
    hide OneByte, Jobs.Agree, StreamOf, Jobs.SizesMatch;
    var files := OneByte(rows, t);
    OneByteFacts(rows, t);
    RowCount(rows, files);
    FileInStream(rows, files, t);
    if k < End(rows, |rows|) {
      var j := RowContaining(rows, |rows|, k);
      FileInStream(rows, files, j);
      AgreeByte(files[j], StreamOf(files), End(rows, j), rows[j].fsize, k);
      assert files[j][k - End(rows, j)] == 0;
    }
  }

  /** Contents of the right sizes for the same rows are a layout as well. */
  lemma OneByteLayout(lay: Layout, d: nat, t: nat)
    requires LayoutOk(lay)
    ensures LayoutOk(lay.(files := OneByteOfDisk(lay.rows, d, t)))
  {
    hide RowsOk, Jobs.SizesMatch, OneByte;
    var lay2 := lay.(files := OneByteOfDisk(lay.rows, d, t));
    forall i {:trigger lay2.rows[i]} {:trigger lay2.files[i]} | 0 <= i < |lay2.rows|
      ensures RowsOk(lay2.rows[i]) && Jobs.SizesMatch(lay2.rows[i], lay2.files[i])
      ensures End(lay2.rows[i], |lay2.rows[i]|) <= lay2.sliceSize
    {
      LayoutDisk(lay, i);
      OneByteFacts(lay.rows[i], if i == d then t else |lay.rows[i]|);
    }
  }

  /** Whatever the files of these sizes hold, taking row t from position s gives back its file. */
  ghost predicate StartWorks(rows: seq<seq<Row>>, sliceSize: nat, d: nat, t: nat, s: nat)
    requires d < |rows| && t < |rows[d]|
  {
    forall files: seq<seq<seq<byte>>> {:trigger Layout(rows, files, sliceSize)} ::
      LayoutOk(Layout(rows, files, sliceSize)) && d < |files| && t < |files[d]| ==>
        XorWindow(Originals(Layout(rows, files, sliceSize)), d, s, rows[d][t].fsize) == files[d][t]
  }

  /**
   * A file comes back from a recorded start, whatever the files hold, if and only if that is where the file
   * lies in key order or the file is empty.
   */
  lemma StartWorksIff(lay: Layout, d: nat, t: nat, s: nat)
    requires LayoutOk(lay) && d < |lay.rows| && t < |lay.rows[d]| && s + lay.rows[d][t].fsize <= lay.sliceSize
    ensures StartWorks(lay.rows, lay.sliceSize, d, t, s) <==> lay.rows[d][t].fsize == 0 || s == End(lay.rows[d], t)
  {
    hide LayoutOk, XorWindow, Originals, StreamOf, OneByte;
    var rows, size, n := lay.rows, lay.sliceSize, lay.rows[d][t].fsize;
    if n == 0 || s == End(rows[d], t) {
      forall files: seq<seq<seq<byte>>> {:trigger Layout(rows, files, size)} |
          LayoutOk(Layout(rows, files, size)) && d < |files| && t < |files[d]|
        ensures XorWindow(Originals(Layout(rows, files, size)), d, s, n) == files[d][t]
      {
        var l := Layout(rows, files, size);
        LayoutSize(l);
        LayoutDisk(l, d);
        RowCount(rows[d], files[d]);
        WindowLength(l, d, s, n);
        if n > 0 {
          RightStart(l, d, t);
        } else {
          EmptyFile(rows[d], files[d], t);
        }
      }
    } else {
      var files := OneByteOfDisk(rows, d, t);
      var l := Layout(rows, files, size);
      OneByteLayout(lay, d, t);
      OneByteFacts(rows[d], t);
      WindowLength(l, d, s, n);
      WindowIsStream(l, d, s, n, 0);
      OneByteStream(rows[d], t, s);
      assert XorWindow(Originals(l), d, s, n)[0] != files[d][t][0];
    }
  }

  lemma EmptyFile(rows: seq<Row>, files: seq<seq<byte>>, t: nat)
    requires Jobs.SizesMatch(rows, files) && t < |rows| && rows[t].fsize == 0
    ensures |files| == |rows| && files[t] == []
  {
  }

  // ---------------------------------------------------------------- planned slices

  /** The rows with the starts that parity and header give them. */
  function Restarted(rows: seq<Row>): (s: seq<Row>)
    ensures |s| == |rows|
  {
    seq(|rows|, j requires 0 <= j < |rows| => rows[j].(start := End(rows, j)))
  }

  lemma {:induction false} RestartedEnds(rows: seq<Row>, n: nat)
    requires n <= |rows|
    ensures End(Restarted(rows), n) == End(rows, n)
  {
    if n > 0 {
      RestartedEnds(rows, n - 1);
    }
  }

  lemma RestartedOk(rows: seq<Row>)
    requires KeysAscend(rows) && SizesDescend(rows)
    ensures RowsOk(Restarted(rows)) && End(Restarted(rows), |rows|) == End(rows, |rows|)
  {
    var s := Restarted(rows);
    RestartedEnds(rows, |rows|);
    forall j {:trigger s[j].start} | 0 <= j < |s|
      ensures s[j].start == End(s, j)
    {
      RestartedEnds(rows, j);
    }
  }

  /** The slice as parity and header have it. */
  function ParityRows(slice: Slice): seq<seq<Row>> {
    seq(|slice.rows|, i requires 0 <= i < |slice.rows| => Restarted(ByKey(slice.rows[i])))
  }

  /** A disk of the slice, as parity has it and as it was recorded. */
  lemma ParityDisk(su: Setup, slices: seq<Slice>, histories: seq<History>, disks: seq<PlanDisk>, k: nat, i: nat)
    requires SetupOk(su) && CommittedOk(su, slices, disks) && ClosedAll(su, slices, histories) && k < |slices|
    requires i < |slices[k].rows|
    ensures var rows, s := slices[k].rows[i], ParityRows(slices[k])[i];
      && RowsOk(s) && End(s, |s|) == End(rows, |rows|) <= slices[k].ssize
      && DistinctRows(rows) && Contiguous(rows)
  {
    hide SetupOk, CommittedOk, ClosedAll, RowsOk, ByKey, DistinctRows, Contiguous, KeysAscend, SizesDescend, Restarted,
      End;
    ClosedFacts(su, slices, histories, k, i);
    SlicesExtent(su, slices, histories, k);
    PlannedDisk(su, slices, histories, disks, k, i);
    RestartedOk(ByKey(slices[k].rows[i]));
  }

  /** Some contents for these rows. */
  lemma ParityLayout(su: Setup, slices: seq<Slice>, histories: seq<History>, disks: seq<PlanDisk>, k: nat)
    returns (lay: Layout)
    requires SetupOk(su) && CommittedOk(su, slices, disks) && ClosedAll(su, slices, histories) && k < |slices|
    requires slices[k].ssize < 0x1_0000_0000_0000_0000
    ensures LayoutOk(lay) && lay.rows == ParityRows(slices[k]) && lay.sliceSize == slices[k].ssize
  {
    hide SetupOk, CommittedOk, ClosedAll, RowsOk, OneByte, Jobs.SizesMatch, ByKey, Restarted, DistinctRows, Contiguous,
      End;
    var slice := slices[k];
    lay := Layout(ParityRows(slice), OneByteOfDisk(ParityRows(slice), 0, 0), slice.ssize);
    SlicesExtent(su, slices, histories, k);
    forall i {:trigger lay.rows[i]} {:trigger lay.files[i]} | 0 <= i < |lay.rows|
      ensures RowsOk(lay.rows[i]) && Jobs.SizesMatch(lay.rows[i], lay.files[i])
      ensures End(lay.rows[i], |lay.rows[i]|) == End(slice.rows[i], |slice.rows[i]|) <= lay.sliceSize
    {
      ParityDisk(su, slices, histories, disks, k, i);
      OneByteFacts(lay.rows[i], if i == 0 then 0 else |lay.rows[i]|);
    }
    var m :| 0 <= m < |slice.rows| && End(slice.rows[m], |slice.rows[m]|) == slice.ssize;
    assert End(lay.rows[m], |lay.rows[m]|) == lay.sliceSize;
  }

  /** A recorded row lies inside the slice. */
  lemma RecordedInside(rows: seq<Row>, p: nat)
    requires DistinctRows(rows) && Contiguous(rows) && p < |rows|
    ensures ByKey(rows)[p].start + ByKey(rows)[p].fsize <= End(rows, |rows|)
  {
    hide ByKey, DistinctRows, Contiguous, End;
    ByKeyElements(rows);
    assert ByKey(rows)[p] in ByKey(rows);
    var a: nat :| a < |rows| && rows[a] == ByKey(rows)[p];
    TileFacts(rows, a);
  }

  /**
   * What planning means for restoring: file p of a disk of a planned slice, counted by key, comes back from
   * its recorded start, whatever the files hold, if and only if it is empty or that start is the sum of the
   * sizes of the disk's files with smaller keys.
   */
  lemma PlannedStartWorksIff(su: Setup, slices: seq<Slice>, histories: seq<History>, disks: seq<PlanDisk>, k: nat,
                             i: nat, p: nat)
    requires SetupOk(su) && CommittedOk(su, slices, disks) && ClosedAll(su, slices, histories) && k < |slices|
    requires slices[k].ssize < 0x1_0000_0000_0000_0000 && i < |slices[k].rows| && p < |slices[k].rows[i]|
    ensures var rows := slices[k].rows[i];
      var row := ByKey(rows)[p];
      StartWorks(ParityRows(slices[k]), slices[k].ssize, i, p, row.start)
      <==> row.fsize == 0 || row.start == KeyOffset(rows, row.dseq, |rows|)
  {
    hide SetupOk, CommittedOk, ClosedAll, RowsOk, LayoutOk, ByKey, DistinctRows, Contiguous, StartWorks, KeyOffset, End;
    var rows := slices[k].rows[i];
    var lay := ParityLayout(su, slices, histories, disks, k);
    ParityDisk(su, slices, histories, disks, k, i);
    RecordedInside(rows, p);
    SortedEnd(rows, p);
    RestartedEnds(ByKey(rows), p);
    StartWorksIff(lay, i, p, ByKey(rows)[p].start);
  }

  // ---------------------------------------------------------------- the reopened disk

  /** The slice that the run with a reopened disk plans, as parity and header have it. */
  function ReopenedRows(): seq<seq<Row>> {
    [[Row(1, 8264, 0), Row(2, 127, 8264), Row(3, 62, 8391)], [Row(1, 8390, 0)],
      [Row(1, 8196, 0), Row(2, 129, 8196), Row(3, 129, 8325)]]
  }

  lemma ReopenedEnds()
    ensures var a, b, c := ReopenedRows()[0], ReopenedRows()[1], ReopenedRows()[2];
      && End(a, 0) == End(b, 0) == End(c, 0) == 0 && End(a, 1) == 8264 && End(a, 2) == 8391 && End(a, 3) == 8453
      && End(b, 1) == 8390 && End(c, 1) == 8196 && End(c, 2) == 8325 && End(c, 3) == 8454
  {
    var a, c := ReopenedRows()[0], ReopenedRows()[2];
    assert End(a, 1) == 8264 && End(c, 1) == 8196;
    assert End(a, 2) == 8391 && End(c, 2) == 8325;
  }

  lemma ReopenedOk()
    ensures LayoutOk(Layout(ReopenedRows(), OneByteOfDisk(ReopenedRows(), 0, 0), 8454))
  {
    hide OneByte, Jobs.SizesMatch;
    var lay := Layout(ReopenedRows(), OneByteOfDisk(ReopenedRows(), 0, 0), 8454);
    ReopenedEnds();
    hide End;
    forall i {:trigger lay.rows[i]} {:trigger lay.files[i]} | 0 <= i < |lay.rows|
      ensures RowsOk(lay.rows[i]) && Jobs.SizesMatch(lay.rows[i], lay.files[i])
      ensures End(lay.rows[i], |lay.rows[i]|) <= lay.sliceSize
    {
      assert i == 0 || i == 1 || i == 2;
      OneByteFacts(lay.rows[i], if i == 0 then 0 else |lay.rows[i]|);
    }
    assert End(lay.rows[2], |lay.rows[2]|) == lay.sliceSize;
  }

  /** An input: file 2 of the reopened disk, recorded at 8326 instead of 8264, does not always come back. */
  lemma ReopenedFileLost()
    ensures Row(2, 127, 8326) in PlanExample.A3.rows && ReopenedRows()[0][1] == Row(2, 127, 8264)
    ensures !StartWorks(ReopenedRows(), 8454, 0, 1, 8326) && StartWorks(ReopenedRows(), 8454, 0, 1, 8264)
  {
    hide LayoutOk, StartWorks;
    ReopenedOk();
    ReopenedEnds();
    hide End;
    assert PlanExample.A3.rows[2] == Row(2, 127, 8326);
    var lay := Layout(ReopenedRows(), OneByteOfDisk(ReopenedRows(), 0, 0), 8454);
    StartWorksIff(lay, 0, 1, 8326);
    StartWorksIff(lay, 0, 1, 8264);
  }
}
