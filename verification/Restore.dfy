/** Restoring files of a lost disk, and when that gives back the original bytes. */
module Restore {
  import opened Bytes
  import opened Streams
  import opened StripeHash
  import opened Hashing
  import opened Jobs
  import opened Transfer
  import opened Archive

  /** What a reader sees of a file that should have n bytes: its first n bytes, if it still has as many. */
  function View(row: Row, file: seq<byte>): (v: seq<byte>)
    ensures |v| == row.fsize
  {
    if |file| >= row.fsize then file[..row.fsize] else seq(row.fsize, _ => 0)
  }

  function Views(rows: seq<Row>, files: seq<seq<byte>>): (vs: seq<seq<byte>>)
    requires |rows| == |files|
    ensures SizesMatch(rows, vs)
  {
    seq(|rows|, j requires 0 <= j < |rows| => View(rows[j], files[j]))
  }

  /** The files of the other disks as they are now, the slice file, and what is to be restored. */
  datatype Request = Request(rows: seq<seq<Row>>, now: seq<seq<seq<byte>>>, sliceFile: seq<byte>, headerSize: nat,
                             sliceSize: nat, disk: nat, wanted: seq<bool>)

  /** Row j of disk i meets the window of row t of the restored disk, as closed intervals. */
  predicate Neighbour(rq: Request, t: nat, i: nat, j: nat)
    requires rq.disk < |rq.rows| && t < |rq.rows[rq.disk]| && i < |rq.rows| && j < |rq.rows[i]|
  {
    i != rq.disk && Meets(RowWindow(rq.rows[rq.disk][t]), End(rq.rows[i], j), rq.rows[i][j].fsize)
  }

  ghost predicate RequestOk(rq: Request) {
    && |rq.rows| == |rq.now| && rq.disk < |rq.rows|
    && |rq.wanted| == |rq.rows[rq.disk]|
    && rq.headerSize + rq.sliceSize <= |rq.sliceFile| && rq.sliceSize < TWO_TO_64
    && (forall i {:trigger rq.rows[i]} {:trigger rq.now[i]} :: 0 <= i < |rq.rows| ==>
          RowsOk(rq.rows[i]) && |rq.rows[i]| == |rq.now[i]| && End(rq.rows[i], |rq.rows[i]|) <= rq.sliceSize)
    && (forall t, i, j {:trigger Neighbour(rq, t, i, j)} ::
          0 <= t < |rq.wanted| && rq.wanted[t] && 0 <= i < |rq.rows| && 0 <= j < |rq.rows[i]|
            && Neighbour(rq, t, i, j) ==>
          |rq.now[i][j]| >= rq.rows[i][j].fsize)
  }

  function RestoreJob(rq: Request, bufSize: nat, hash: Hash): Job {
    Job(rq.rows + [[Row(0, rq.sliceSize, 0)]], rq.now + [[rq.sliceFile]], |rq.rows|, rq.disk, bufSize, rq.headerSize,
        rq.sliceSize, rq.wanted, hash)
  }

  /** The parity bytes of the slice file. */
  function Stored(rq: Request): seq<byte>
    requires rq.headerSize + rq.sliceSize <= |rq.sliceFile|
  {
    rq.sliceFile[rq.headerSize..rq.headerSize + rq.sliceSize]
  }

  ghost function StreamsNow(rq: Request): (streams: seq<seq<byte>>)
    requires RequestOk(rq)
    ensures |streams| == |rq.rows| + 1
  {
    seq(|rq.rows|, i requires 0 <= i < |rq.rows| => StreamOf(Views(rq.rows[i], rq.now[i]))) + [Stored(rq)]
  }

  /** Each disk's part of a restore job. */
  lemma RestoreStream(rq: Request, bufSize: nat, hash: Hash, i: nat)
    requires RequestOk(rq) && i <= |rq.rows|
    ensures var job := RestoreJob(rq, bufSize, hash);
      && (i < |rq.rows| ==> RowsOk(job.rows[i]))
      && Contiguous(job.rows[i]) && SizesDescend(job.rows[i]) && |job.files[i]| == |job.rows[i]|
      && |StreamsNow(rq)[i]| == End(job.rows[i], |job.rows[i]|) <= rq.sliceSize
  {
    var job := RestoreJob(rq, bufSize, hash);
    if i < |rq.rows| {
      assert job.rows[i] == rq.rows[i] && job.files[i] == rq.now[i];
      ConcatLength(rq.rows[i], Views(rq.rows[i], rq.now[i]), |rq.rows[i]|);
    } else {
      assert job.rows[i] == [Row(0, rq.sliceSize, 0)];
      assert End(job.rows[i], 1) == rq.sliceSize;
    }
  }

  lemma RestoreShape(rq: Request, bufSize: nat, hash: Hash)
    requires RequestOk(rq) && bufSize > 0
    ensures ShapeOk(RestoreJob(rq, bufSize, hash), StreamsNow(rq))
  {
    var job := RestoreJob(rq, bufSize, hash);
    forall i {:trigger job.IsReader(i)} | job.IsReader(i)
      ensures |job.files[i]| == |job.rows[i]|
      ensures |StreamsNow(rq)[i]| == End(job.rows[i], |job.rows[i]|) <= job.sliceSize
      ensures SizesDescend(job.rows[i])
    {
      RestoreStream(rq, bufSize, hash, i);
    }
  }

  /** What a wanted row's window needs can be read. */
  lemma WindowReadable(rq: Request, bufSize: nat, hash: Hash, t: nat)
    requires RequestOk(rq) && bufSize > 0 && t < |rq.wanted| && rq.wanted[t]
    requires ShapeOk(RestoreJob(rq, bufSize, hash), StreamsNow(rq))
    ensures Readable(RestoreJob(rq, bufSize, hash), StreamsNow(rq), RowWindow(rq.rows[rq.disk][t]))
  {
    var job, streams, w := RestoreJob(rq, bufSize, hash), StreamsNow(rq), RowWindow(rq.rows[rq.disk][t]);
    hide ShapeOk, FileHolds;
    forall i, j {:trigger FileHolds(job, streams, i, j)} |
        job.IsReader(i) && 0 <= j < |job.rows[i]|
          && (i == job.disks || Meets(w, End(job.rows[i], j), job.rows[i][j].fsize))
      ensures FileHolds(job, streams, i, j)
    {
      NeededFile(rq, bufSize, hash, t, i, j);
    }
  }

  lemma NeededFile(rq: Request, bufSize: nat, hash: Hash, t: nat, i: nat, j: nat)
    requires RequestOk(rq) && bufSize > 0 && t < |rq.wanted| && rq.wanted[t]
    requires ShapeOk(RestoreJob(rq, bufSize, hash), StreamsNow(rq))
    requires var job := RestoreJob(rq, bufSize, hash);
      && job.IsReader(i) && j < |job.rows[i]|
      && (i == job.disks || Meets(RowWindow(rq.rows[rq.disk][t]), End(job.rows[i], j), job.rows[i][j].fsize))
    ensures FileHolds(RestoreJob(rq, bufSize, hash), StreamsNow(rq), i, j)
  {
    hide ShapeOk, Agree, StreamsNow, Meets, RowsOk;
    if i < |rq.rows| {
      assert Neighbour(rq, t, i, j);
      NeighbourHolds(rq, i, j);
    } else {
      ParityHolds(rq);
    }
  }

  /** A file that is long enough, in the stream of its disk. */
  lemma NeighbourHolds(rq: Request, i: nat, j: nat)
    requires RequestOk(rq) && i < |rq.rows| && j < |rq.rows[i]| && j < |rq.now[i]|
    requires |rq.now[i][j]| >= rq.rows[i][j].fsize
    ensures Agree(rq.now[i][j], 0, StreamsNow(rq)[i], End(rq.rows[i], j), rq.rows[i][j].fsize)
  {
    hide Agree, RowsOk, Neighbour, StreamOf, Stored;
    ViewInStream(rq.rows[i], rq.now[i], j);
  }

  /** The parity behind the header is the last stream. */
  lemma ParityHolds(rq: Request)
    requires RequestOk(rq)
    ensures Agree(rq.sliceFile, rq.headerSize, StreamsNow(rq)[|rq.rows|], 0, rq.sliceSize)
    ensures End([Row(0, rq.sliceSize, 0)], 0) == 0
  {
    hide RowsOk, Neighbour, StreamOf;
  }

  lemma ViewInStream(rows: seq<Row>, files: seq<seq<byte>>, j: nat)
    requires |rows| == |files| && j < |rows| && |files[j]| >= rows[j].fsize
    ensures Agree(files[j], 0, StreamOf(Views(rows, files)), End(rows, j), rows[j].fsize)
  {
    FileInStream(rows, Views(rows, files), j);
    assert files[j][0..rows[j].fsize] == View(rows[j], files[j])[0..rows[j].fsize];
  }

  lemma RestoreJobOk(rq: Request, bufSize: nat, hash: Hash)
    requires RequestOk(rq) && bufSize > 0
    ensures RestoreOk(RestoreJob(rq, bufSize, hash), StreamsNow(rq))
    ensures ShapeOk(RestoreJob(rq, bufSize, hash), StreamsNow(rq))
  {
    var job, streams := RestoreJob(rq, bufSize, hash), StreamsNow(rq);
    RestoreShape(rq, bufSize, hash);
    forall i | 0 <= i <= job.disks
      ensures Contiguous(job.rows[i]) && (i < job.disks ==> KeysAscend(job.rows[i]))
    {
      RestoreStream(rq, bufSize, hash, i);
    }
    assert job.rows[job.disk2write] == rq.rows[rq.disk];
    forall t | 0 <= t < |job.wanted| && job.wanted[t]
      ensures Readable(job, streams, RowWindow(job.rows[job.disk2write][t]))
    {
      WindowReadable(rq, bufSize, hash, t);
    }
  }

  // ---------------------------------------------------------------- exactness

  /** File j of disk i still has its original bytes. */
  ghost predicate Intact(rq: Request, lay: Layout, i: nat, j: nat)
    requires i < |rq.rows| && i < |rq.now| && i < |lay.files| && j < |rq.rows[i]| && j < |rq.now[i]|
    requires j < |lay.files[i]|
  {
    View(rq.rows[i][j], rq.now[i][j]) == lay.files[i][j] && |rq.now[i][j]| >= rq.rows[i][j].fsize
  }

  /** The request is about the slice generated from this layout. */
  ghost predicate Concerns(rq: Request, lay: Layout) {
    && RequestOk(rq) && LayoutOk(lay)
    && rq.rows == lay.rows && rq.sliceSize == lay.sliceSize && Stored(rq) == Parity(lay)
  }

  /** The files touching row t's extent are intact, except perhaps on disk b. */
  ghost predicate OtherNeighboursIntact(rq: Request, lay: Layout, t: nat, b: nat)
    requires Concerns(rq, lay) && t < |rq.wanted|
  {
    forall i, j {:trigger Neighbour(rq, t, i, j)} ::
      0 <= i < |rq.rows| && i != b && 0 <= j < |rq.rows[i]| && Neighbour(rq, t, i, j) ==> Intact(rq, lay, i, j)
  }

  /** All files of other disks that touch row t's extent are intact. */
  ghost predicate NeighboursIntact(rq: Request, lay: Layout, t: nat)
    requires Concerns(rq, lay) && t < |rq.wanted|
  {
    OtherNeighboursIntact(rq, lay, t, rq.disk)
  }

  /** The row that a stream position falls into. */
  lemma RowContaining(rows: seq<Row>, n: nat, k: nat) returns (j: nat)
    requires n <= |rows| && k < End(rows, n)
    ensures j < n && End(rows, j) <= k < End(rows, j + 1)
  {
    if End(rows, n - 1) <= k {
      j := n - 1;
    } else {
      j := RowContaining(rows, n - 1, k);
    }
  }

  lemma AgreeByte(file: seq<byte>, stream: seq<byte>, s: nat, n: nat, k: nat)
    requires Agree(file, 0, stream, s, n) && s <= k < s + n
    ensures At(stream, k) == file[k - s]
  {
    assert file[0..n][k - s] == stream[s..s + n][k - s];
  }

  /** Where all files that meet a window are intact, the stream inside the window is what it was. */
  lemma StreamUnchanged(rows: seq<Row>, now: seq<seq<byte>>, orig: seq<seq<byte>>, w: Window, k: nat)
    requires |rows| == |now| && SizesMatch(rows, orig) && w.lo <= k < w.hi
    requires forall j :: 0 <= j < |rows| && Meets(w, End(rows, j), rows[j].fsize) ==> View(rows[j], now[j]) == orig[j]
    ensures At(StreamOf(Views(rows, now)), k) == At(StreamOf(orig), k)
  {
    var views := Views(rows, now);
    ConcatLength(rows, views, |rows|);
    ConcatLength(rows, orig, |rows|);
    if k < End(rows, |rows|) {
      var j := RowContaining(rows, |rows|, k);
      SameByte(rows, views, orig, j, k);
    }
  }

  lemma SameByte(rows: seq<Row>, views: seq<seq<byte>>, orig: seq<seq<byte>>, j: nat, k: nat)
    requires SizesMatch(rows, views) && SizesMatch(rows, orig) && j < |rows| && views[j] == orig[j]
    requires End(rows, j) <= k < End(rows, j + 1)
    ensures At(StreamOf(views), k) == At(StreamOf(orig), k)
  {
    hide StreamOf, Agree;
    FileInStream(rows, views, j);
    FileInStream(rows, orig, j);
    AgreeByte(views[j], StreamOf(views), End(rows, j), rows[j].fsize, k);
    AgreeByte(orig[j], StreamOf(orig), End(rows, j), rows[j].fsize, k);
  }

  /** The same for disk i of a request. */
  lemma OtherStream(rq: Request, lay: Layout, t: nat, b: nat, i: nat, k: nat)
    requires Concerns(rq, lay) && t < |rq.wanted| && OtherNeighboursIntact(rq, lay, t, b)
    requires i < |rq.rows| && i != rq.disk && i != b
    requires var row := rq.rows[rq.disk][t]; row.start <= k < row.start + row.fsize
    ensures i < |lay.files| && At(StreamsNow(rq)[i], k) == At(StreamOf(lay.files[i]), k)
  {
    var w := RowWindow(rq.rows[rq.disk][t]);
    forall j | 0 <= j < |rq.rows[i]| && Meets(w, End(rq.rows[i], j), rq.rows[i][j].fsize)
      ensures View(rq.rows[i][j], rq.now[i][j]) == lay.files[i][j]
    {
      assert Neighbour(rq, t, i, j);
    }
    hide StreamOf, View;
    StreamUnchanged(rq.rows[i], rq.now[i], lay.files[i], w, k);
  }

  /** Row t of the restored disk in terms of that disk's stream. */
  lemma TargetFacts(rq: Request, lay: Layout, t: nat)
    requires Concerns(rq, lay) && t < |rq.wanted|
    ensures |lay.files| == |rq.rows| && rq.disk < |rq.rows| && t < |rq.rows[rq.disk]|
    ensures SizesMatch(rq.rows[rq.disk], lay.files[rq.disk])
    ensures var rows := rq.rows[rq.disk];
      rows[t].start == End(rows, t) && rows[t].start + rows[t].fsize <= lay.sliceSize
  {
    assert rq.disk < |rq.rows| && |rq.wanted| == |rq.rows[rq.disk]| && |lay.files| == |lay.rows| by {
      hide RowsOk, Neighbour, SizesMatch, Parity, Stored;
    }
    hide RequestOk, Parity, Stored, SizesMatch, KeysAscend, SizesDescend;
    LayoutDisk(lay, rq.disk);
    hide LayoutOk;
    TileFacts(rq.rows[rq.disk], t);
  }

  /** The XOR of parity and original neighbours at a position of the lost file is the lost byte. */
  lemma OriginalByte(rq: Request, lay: Layout, t: nat, k: nat)
    requires Concerns(rq, lay) && t < |rq.wanted|
    requires var row := rq.rows[rq.disk][t]; row.start <= k < row.start + row.fsize
    ensures |StreamsNow(rq)| == |lay.files| + 1 && rq.disk < |lay.files|
    ensures XorAt(Originals(lay), rq.disk, k) == At(StreamOf(lay.files[rq.disk]), k)
    ensures StreamsNow(rq)[|lay.files|] == Parity(lay)
  {
    hide RequestOk, LayoutOk, StreamOf, Parity, XorAt, RowWindow;
    TargetFacts(rq, lay, t);
    ParityByte(lay, k);
    LostByte(StreamsOf(lay.files), Parity(lay), rq.disk, k);
  }

  function Originals(lay: Layout): seq<seq<byte>> {
    StreamsOf(lay.files) + [Parity(lay)]
  }

  /** The XOR of parity and intact neighbours at a position of the lost file is the lost byte. */
  lemma LostByteAt(rq: Request, lay: Layout, t: nat, k: nat)
    requires Concerns(rq, lay) && t < |rq.wanted| && NeighboursIntact(rq, lay, t)
    requires var row := rq.rows[rq.disk][t]; row.start <= k < row.start + row.fsize
    ensures rq.disk < |lay.files| && XorAt(StreamsNow(rq), rq.disk, k) == At(StreamOf(lay.files[rq.disk]), k)
  {
    hide RequestOk, LayoutOk, OtherNeighboursIntact, StreamOf, Parity, XorAt, RowWindow;
    TargetFacts(rq, lay, t);
    OriginalByte(rq, lay, t, k);
    forall i | 0 <= i < |StreamsNow(rq)| && i != rq.disk
      ensures At(StreamsNow(rq)[i], k) == At(Originals(lay)[i], k)
    {
      if i < |lay.files| {
        OtherStream(rq, lay, t, rq.disk, i, k);
      }
    }
    SameXor(StreamsNow(rq), Originals(lay), rq.disk, k);
  }

  lemma SameXor(ss: seq<seq<byte>>, ts: seq<seq<byte>>, skip: nat, k: nat)
    requires |ss| == |ts|
    requires forall i :: 0 <= i < |ss| && i != skip ==> At(ss[i], k) == At(ts[i], k)
    ensures XorAt(ss, skip, k) == XorAt(ts, skip, k)
  {
    XorCongruence(ss, ts, skip, |ss|, k, k);
  }

  /** A wanted file whose neighbours are intact comes back byte for byte. */
  lemma RestoredExactly(rq: Request, lay: Layout, t: nat)
    requires Concerns(rq, lay) && t < |rq.wanted| && NeighboursIntact(rq, lay, t)
    ensures var row := rq.rows[rq.disk][t];
      && |lay.files| == |rq.rows| && t < |lay.files[rq.disk]|
      && XorWindow(StreamsNow(rq), rq.disk, row.start, row.fsize) == lay.files[rq.disk][t]
  {
    hide RequestOk, LayoutOk, NeighboursIntact, StreamOf, XorAt, StreamsNow, Agree;
    TargetFacts(rq, lay, t);
    var row, file := rq.rows[rq.disk][t], lay.files[rq.disk][t];
    FileInStream(rq.rows[rq.disk], lay.files[rq.disk], t);
    forall x | 0 <= x < row.fsize
      ensures XorAt(StreamsNow(rq), rq.disk, row.start + x) == file[x]
    {
      LostByteAt(rq, lay, t, row.start + x);
      AgreeByte(file, StreamOf(lay.files[rq.disk]), row.start, row.fsize, row.start + x);
    }
  }

  /** If only disk b may differ inside the window, the lost byte is right exactly if disk b's byte is. */
  lemma OneDiskByte(rq: Request, lay: Layout, t: nat, b: nat, k: nat)
    requires Concerns(rq, lay) && t < |rq.wanted| && b < |rq.rows| && b != rq.disk
    requires OtherNeighboursIntact(rq, lay, t, b)
    requires var row := rq.rows[rq.disk][t]; row.start <= k < row.start + row.fsize
    ensures rq.disk < |lay.files| && b < |lay.files|
    ensures XorAt(StreamsNow(rq), rq.disk, k) == At(StreamOf(lay.files[rq.disk]), k)
      <==> At(StreamsNow(rq)[b], k) == At(StreamOf(lay.files[b]), k)
  {
    hide RequestOk, LayoutOk, OtherNeighboursIntact, StreamOf, Parity, RowWindow;
    TargetFacts(rq, lay, t);
    OriginalByte(rq, lay, t, k);
    var now, orig := StreamsNow(rq), Originals(lay);
    forall i | 0 <= i < |now| && i != b && i != rq.disk
      ensures At(now[i], k) == At(orig[i], k)
    {
      if i < |lay.files| {
        OtherStream(rq, lay, t, b, i, k);
      }
    }
    XorOneDiffers(now, orig, rq.disk, b, |now|, k);
  }

  /** With one altered disk a file comes back exactly if that disk's stream is unchanged inside its extent. */
  lemma OneAlteredDisk(rq: Request, lay: Layout, t: nat, b: nat)
    requires Concerns(rq, lay) && t < |rq.wanted| && b < |rq.rows| && b != rq.disk
    requires OtherNeighboursIntact(rq, lay, t, b)
    ensures |lay.files| == |rq.rows| && t < |lay.files[rq.disk]|
    ensures var row := rq.rows[rq.disk][t];
      XorWindow(StreamsNow(rq), rq.disk, row.start, row.fsize) == lay.files[rq.disk][t]
      <==> forall k :: row.start <= k < row.start + row.fsize ==>
             At(StreamsNow(rq)[b], k) == At(StreamOf(lay.files[b]), k)
  {
    hide RequestOk, LayoutOk, OtherNeighboursIntact, StreamOf, XorAt, StreamsNow, Agree;
    TargetFacts(rq, lay, t);
    var row, file := rq.rows[rq.disk][t], lay.files[rq.disk][t];
    var got := XorWindow(StreamsNow(rq), rq.disk, row.start, row.fsize);
    FileInStream(rq.rows[rq.disk], lay.files[rq.disk], t);
    forall k | row.start <= k < row.start + row.fsize
      ensures got[k - row.start] == file[k - row.start] <==> At(StreamsNow(rq)[b], k) == At(StreamOf(lay.files[b]), k)
    {
      OneDiskByte(rq, lay, t, b, k);
      AgreeByte(file, StreamOf(lay.files[rq.disk]), row.start, row.fsize, k);
    }
    if forall k :: row.start <= k < row.start + row.fsize ==>
      At(StreamsNow(rq)[b], k) == At(StreamOf(lay.files[b]), k) {
      forall x | 0 <= x < row.fsize
        ensures got[x] == file[x]
      {
        assert At(StreamsNow(rq)[b], row.start + x) == At(StreamOf(lay.files[b]), row.start + x);
      }
      assert got == file;
    }
  }

  // ---------------------------------------------------------------- whole restores

  /** The wanted ones of the first n rows, with given contents. */
  function Chosen(rows: seq<Row>, wanted: seq<bool>, files: seq<seq<byte>>, n: nat): seq<Saved>
    requires n <= |rows| && n <= |wanted| && n <= |files|
  {
    if n == 0 then []
    else Chosen(rows, wanted, files, n - 1) + if wanted[n - 1] then [Saved(rows[n - 1].dseq, files[n - 1])] else []
  }

  /** What the engine writes for each row of the restored disk. */
  ghost function Written(rq: Request): seq<seq<byte>>
    requires RequestOk(rq)
  {
    var rows := rq.rows[rq.disk];
    seq(|rows|, t requires 0 <= t < |rows| => XorWindow(StreamsNow(rq), rq.disk, rows[t].start, rows[t].fsize))
  }

  lemma {:induction false} SavedIsChosen(rq: Request, job: Job, n: nat)
    requires RequestOk(rq) && job.disk2write == rq.disk && rq.disk < |job.rows|
    requires job.rows[rq.disk] == rq.rows[rq.disk] && job.wanted == rq.wanted && n <= |rq.wanted|
    ensures SavedUpTo(job, StreamsNow(rq), n) == Chosen(rq.rows[rq.disk], rq.wanted, Written(rq), n)
  {
    hide RequestOk, StreamsNow, XorWindow;
    RequestFacts(rq);
    if n > 0 {
      SavedIsChosen(rq, job, n - 1);
      var row := rq.rows[rq.disk][n - 1];
      assert Written(rq)[n - 1] == XorWindow(StreamsNow(rq), rq.disk, row.start, row.fsize);
    }
  }

  /** If the chosen files agree, so do the results. */
  lemma {:induction false} ChosenAgree(rows: seq<Row>, wanted: seq<bool>, a: seq<seq<byte>>, b: seq<seq<byte>>, n: nat)
    requires n <= |rows| && n <= |wanted| && n <= |a| && n <= |b|
    requires forall t :: 0 <= t < n && wanted[t] ==> a[t] == b[t]
    ensures Chosen(rows, wanted, a, n) == Chosen(rows, wanted, b, n)
  {
    if n > 0 {
      ChosenAgree(rows, wanted, a, b, n - 1);
    }
  }

  /**
   * Restores the wanted files of one disk from a slice file. For every buffer size and every schedule the
   * result lists the wanted rows in key order, each with the XOR of the stored parity and the other disks'
   * streams over the row's extent.
   */
  method RestoreFiles(rq: Request, bufSize: nat, hash: Hash) returns (saved: seq<Saved>)
    requires RequestOk(rq) && bufSize > 0 && HashOk(hash)
    ensures |rq.rows[rq.disk]| == |rq.wanted|
    ensures saved == Chosen(rq.rows[rq.disk], rq.wanted, Written(rq), |rq.wanted|)
  {
    hide RequestOk, StreamsNow, XorWindow, Written, Chosen, HashOk, ShapeOk, RestoreOk, SyncOk;
    var job := RestoreJob(rq, bufSize, hash);
    RestoreJobOk(rq, bufSize, hash);
    RequestFacts(rq);
    var cs := new Slice(job, StreamsNow(rq), []);
    cs.RestoreSlice();
    saved := cs.saved;
    SavedIsChosen(rq, job, |rq.wanted|);
  }

  lemma RequestFacts(rq: Request)
    requires RequestOk(rq)
    ensures rq.disk < |rq.rows| && |rq.rows[rq.disk]| == |rq.wanted| && |rq.now| == |rq.rows|
  {
  }

  /**
   * Main result on restoring: in any mixture of requests, each wanted file whose neighbours are intact
   * is written with its original bytes; if that is so for all of them, the restore is exact.
   */
  lemma RestoreIsExact(rq: Request, lay: Layout)
    requires Concerns(rq, lay)
    ensures |lay.files| == |rq.rows| && |lay.files[rq.disk]| == |rq.wanted| == |Written(rq)|
    ensures forall t :: 0 <= t < |rq.wanted| && NeighboursIntact(rq, lay, t) ==> Written(rq)[t] == lay.files[rq.disk][t]
    ensures (forall t :: 0 <= t < |rq.wanted| && rq.wanted[t] ==> NeighboursIntact(rq, lay, t)) ==>
      Chosen(rq.rows[rq.disk], rq.wanted, Written(rq), |rq.wanted|)
      == Chosen(rq.rows[rq.disk], rq.wanted, lay.files[rq.disk], |rq.wanted|)
  {
    hide NeighboursIntact, StreamsNow, XorWindow, Chosen, Parity, Stored, RowsOk, Neighbour;
    LayoutDisk(lay, rq.disk);
    hide RequestOk, LayoutOk;
    forall t | 0 <= t < |rq.wanted| && NeighboursIntact(rq, lay, t)
      ensures Written(rq)[t] == lay.files[rq.disk][t]
    {
      RestoredExactly(rq, lay, t);
    }
    if forall t :: 0 <= t < |rq.wanted| && rq.wanted[t] ==> NeighboursIntact(rq, lay, t) {
      ChosenAgree(rq.rows[rq.disk], rq.wanted, Written(rq), lay.files[rq.disk], |rq.wanted|);
    }
  }

  // ---------------------------------------------------------------- the round trip

  ghost predicate WantedMatches(lay: Layout, r: nat, wanted: seq<bool>) {
    r < |lay.rows| && |wanted| == |lay.rows[r]|
  }

  /** A request about an unchanged slice. */
  function Unchanged(lay: Layout, header: seq<byte>, r: nat, wanted: seq<bool>): Request {
    Request(lay.rows, lay.files, header + Parity(lay), |header|, lay.sliceSize, r, wanted)
  }

  lemma ParityStored(lay: Layout, header: seq<byte>)
    ensures |Parity(lay)| == lay.sliceSize && (header + Parity(lay))[|header|..|header| + lay.sliceSize] == Parity(lay)
  {
  }

  lemma LayoutSize(lay: Layout)
    requires LayoutOk(lay)
    ensures |lay.rows| == |lay.files| && lay.sliceSize < TWO_TO_64
  {
    hide RowsOk;
  }

  lemma UnchangedRequest(lay: Layout, header: seq<byte>, r: nat, wanted: seq<bool>)
    requires LayoutOk(lay) && WantedMatches(lay, r, wanted)
    ensures RequestOk(Unchanged(lay, header, r, wanted)) && Stored(Unchanged(lay, header, r, wanted)) == Parity(lay)
  {
    hide Parity, Neighbour, RowsOk, LayoutOk;
    var rq := Unchanged(lay, header, r, wanted);
    LayoutSize(lay);
    ParityStored(lay, header);
    forall i {:trigger rq.rows[i]} {:trigger rq.now[i]} | 0 <= i < |rq.rows|
      ensures RowsOk(rq.rows[i]) && SizesMatch(rq.rows[i], rq.now[i]) && End(rq.rows[i], |rq.rows[i]|) <= rq.sliceSize
    {
      LayoutDisk(lay, i);
    }
  }

  lemma UnchangedFile(rows: seq<Row>, files: seq<seq<byte>>, j: nat)
    requires SizesMatch(rows, files) && j < |rows|
    ensures View(rows[j], files[j]) == files[j] && |files[j]| == rows[j].fsize
  {
    assert files[j][..rows[j].fsize] == files[j];
  }

  /** In a request about an unchanged slice every file of every other disk is as it was. */
  lemma UnchangedConcerns(lay: Layout, header: seq<byte>, r: nat, wanted: seq<bool>)
    requires LayoutOk(lay) && WantedMatches(lay, r, wanted)
    ensures var rq := Unchanged(lay, header, r, wanted);
      Concerns(rq, lay) && forall t :: 0 <= t < |wanted| ==> NeighboursIntact(rq, lay, t)
  {
    hide Parity, Neighbour, RowsOk, Stored, RequestOk, LayoutOk, SizesMatch, View;
    var rq := Unchanged(lay, header, r, wanted);
    UnchangedRequest(lay, header, r, wanted);
    LayoutSize(lay);
    forall i, j | 0 <= i < |rq.rows| && 0 <= j < |rq.rows[i]|
      ensures i < |rq.now| && j < |rq.now[i]| && Intact(rq, lay, i, j)
    {
      LayoutDisk(lay, i);
      RowCount(lay.rows[i], lay.files[i]);
      UnchangedFile(lay.rows[i], lay.files[i], j);
    }
  }

  lemma RowCount(rows: seq<Row>, files: seq<seq<byte>>)
    requires SizesMatch(rows, files)
    ensures |rows| == |files|
  {
  }

  /**
   * Restore inverts sync: any slice, any two buffer sizes, any schedules of completions and short reads,
   * any header, any disk and any choice of its files: the original bytes of each come back, in order.
   */
  method SyncThenRestore(lay: Layout, header: seq<byte>, syncBuf: nat, restoreBuf: nat, r: nat, wanted: seq<bool>,
                         hash: Hash)
    returns (saved: seq<Saved>)
    requires LayoutOk(lay) && WantedMatches(lay, r, wanted) && syncBuf > 0 && restoreBuf > 0 && HashOk(hash)
    ensures r < |lay.files| && |lay.files[r]| == |wanted|
    ensures saved == Chosen(lay.rows[r], wanted, lay.files[r], |wanted|)
  {
    hide LayoutOk, Chosen, Parity, RequestOk, NeighboursIntact, Written, HashOk;
    var sliceFile, _ := Sync(lay, header, syncBuf, hash);
    var rq := Request(lay.rows, lay.files, sliceFile, |header|, lay.sliceSize, r, wanted);
    assert rq == Unchanged(lay, header, r, wanted);
    UnchangedConcerns(lay, header, r, wanted);
    RestoreIsExact(rq, lay);
    saved := RestoreFiles(rq, restoreBuf, hash);
  }

  // ---------------------------------------------------------------- the list of unrecoverable files

  /** What the query goes by: which rows are altered, who owns them, and the real and effective user. */
  datatype Query = Query(altered: seq<seq<bool>>, owners: seq<seq<int>>, userId: int, euserId: int)

  ghost predicate QueryFor(rows: seq<seq<Row>>, q: Query) {
    && |q.altered| == |q.owners| == |rows|
    && forall i :: 0 <= i < |rows| ==> |q.altered[i]| == |q.owners[i]| == |rows[i]|
  }

  /** An altered row that the query looks at: all of them, or with two different users the real user's ones. */
  predicate Reported(q: Query, i: nat, j: nat)
    requires i < |q.altered| == |q.owners| && j < |q.altered[i]| == |q.owners[i]|
  {
    q.altered[i][j] && (q.userId == q.euserId || q.owners[i][j] == q.userId)
  }

  /** Row j of disk i touches the extent of row t of disk d, as closed intervals of recorded starts. */
  predicate Touches(rows: seq<seq<Row>>, d: nat, t: nat, i: nat, j: nat)
    requires d < |rows| && t < |rows[d]| && i < |rows| && j < |rows[i]|
  {
    && rows[d][t].start <= rows[i][j].start + rows[i][j].fsize
    && rows[i][j].start <= rows[d][t].start + rows[d][t].fsize
  }

  /** The query behind the list: some altered row of another disk that it looks at touches row t's extent. */
  ghost predicate Listed(rows: seq<seq<Row>>, q: Query, d: nat, t: nat)
    requires QueryFor(rows, q) && d < |rows| && t < |rows[d]|
  {
    exists i, j {:trigger Touches(rows, d, t, i, j)} ::
      0 <= i < |rows| && 0 <= j < |rows[i]| && i != d && Reported(q, i, j) && Touches(rows, d, t, i, j)
  }

  /** The query looks at every altered row of another disk that touches row t's extent. */
  ghost predicate NoneOverlooked(rows: seq<seq<Row>>, q: Query, d: nat, t: nat)
    requires QueryFor(rows, q) && d < |rows| && t < |rows[d]|
  {
    forall i, j {:trigger Touches(rows, d, t, i, j)} ::
      0 <= i < |rows| && 0 <= j < |rows[i]| && i != d && q.altered[i][j] && Touches(rows, d, t, i, j) ==>
        Reported(q, i, j)
  }

  /** Only rows marked as altered differ from what the slice was generated from; those may be anything. */
  ghost predicate OnlyAlteredDiffer(lay: Layout, now: seq<seq<seq<byte>>>, altered: seq<seq<bool>>) {
    && |now| == |altered| == |lay.rows| == |lay.files|
    && forall i :: 0 <= i < |now| ==>
      && |now[i]| == |altered[i]| == |lay.rows[i]| == |lay.files[i]|
      && forall j :: 0 <= j < |now[i]| && !altered[i][j] ==> now[i][j] == lay.files[i][j]
  }

  /** Recorded starts and prefix sums ask the same question about row j of another disk. */
  lemma ListedWitness(lay: Layout, q: Query, d: nat, t: nat, i: nat, j: nat)
    requires QueryFor(lay.rows, q) && d < |lay.rows| && t < |lay.rows[d]|
    requires i < |lay.rows| && j < |lay.rows[i]| && i != d && lay.rows[i][j].start == End(lay.rows[i], j)
    requires q.altered[i][j] && Meets(RowWindow(lay.rows[d][t]), End(lay.rows[i], j), lay.rows[i][j].fsize)
    requires NoneOverlooked(lay.rows, q, d, t)
    ensures Listed(lay.rows, q, d, t)
  {
    assert Touches(lay.rows, d, t, i, j);
  }

  lemma AlteredFacts(lay: Layout, now: seq<seq<seq<byte>>>, altered: seq<seq<bool>>, i: nat, j: nat)
    requires OnlyAlteredDiffer(lay, now, altered) && i < |lay.rows| && j < |lay.rows[i]|
    ensures |now| == |altered| == |lay.rows| == |lay.files|
    ensures |now[i]| == |altered[i]| == |lay.rows[i]| == |lay.files[i]|
    ensures !altered[i][j] ==> now[i][j] == lay.files[i][j]
  {
  }

  /** The neighbours of a file that is not listed are not altered, if the query overlooks none of them. */
  lemma UnlistedNeighbours(lay: Layout, now: seq<seq<seq<byte>>>, q: Query, d: nat, t: nat, i: nat, j: nat)
    requires LayoutOk(lay) && OnlyAlteredDiffer(lay, now, q.altered) && QueryFor(lay.rows, q)
    requires d < |lay.rows| && t < |lay.rows[d]| && i < |lay.rows| && j < |lay.rows[i]| && i != d
    requires NoneOverlooked(lay.rows, q, d, t) && !Listed(lay.rows, q, d, t)
    requires Meets(RowWindow(lay.rows[d][t]), End(lay.rows[i], j), lay.rows[i][j].fsize)
    ensures i < |now| && i < |lay.files| && j < |now[i]| && j < |lay.files[i]|
    ensures now[i][j] == lay.files[i][j] && |now[i][j]| == lay.rows[i][j].fsize
  {
    hide Listed, NoneOverlooked, Meets, RowWindow, RowsOk, SizesMatch, LayoutOk;
    AlteredFacts(lay, now, q.altered, i, j);
    LayoutDisk(lay, i);
    assert lay.rows[i][j].start == End(lay.rows[i], j) && |lay.files[i][j]| == lay.rows[i][j].fsize by {
      hide OnlyAlteredDiffer;
      RowAt(lay.rows[i], lay.files[i], j);
    }
    hide OnlyAlteredDiffer;
    if q.altered[i][j] {
      ListedWitness(lay, q, d, t, i, j);
    }
  }

  lemma RowAt(rows: seq<Row>, files: seq<seq<byte>>, j: nat)
    requires RowsOk(rows) && SizesMatch(rows, files) && j < |rows|
    ensures rows[j].start == End(rows, j) && |files[j]| == rows[j].fsize
  {
  }

  /** A saved slice, outdated: what the disks hold now, with every difference marked, and what is wanted. */
  ghost predicate Outdated(rq: Request, lay: Layout, q: Query) {
    && LayoutOk(lay) && OnlyAlteredDiffer(lay, rq.now, q.altered) && QueryFor(lay.rows, q)
    && rq.rows == lay.rows && rq.sliceSize == lay.sliceSize && rq.disk < |rq.rows|
    && |rq.wanted| == |rq.rows[rq.disk]|
    && rq.headerSize + rq.sliceSize <= |rq.sliceFile| && Stored(rq) == Parity(lay)
  }

  /** A neighbour of a file that is not listed is there and has its original bytes. */
  lemma UnlistedIntact(rq: Request, lay: Layout, q: Query, t: nat, i: nat, j: nat)
    requires Outdated(rq, lay, q) && t < |rq.wanted|
    requires NoneOverlooked(lay.rows, q, rq.disk, t) && !Listed(lay.rows, q, rq.disk, t)
    requires i < |rq.rows| && j < |rq.rows[i]| && Neighbour(rq, t, i, j)
    ensures i < |rq.now| && i < |lay.files| && j < |rq.now[i]| && j < |lay.files[i]|
    ensures Intact(rq, lay, i, j)
  {
    hide Listed, LayoutOk, OnlyAlteredDiffer, Parity, Stored, Meets, NoneOverlooked;
    UnlistedNeighbours(lay, rq.now, q, rq.disk, t, i, j);
    assert rq.now[i][j][..rq.rows[i][j].fsize] == rq.now[i][j];
  }

  /** Files that are not listed can be asked for, and all their neighbours are intact. */
  lemma UnlistedConcerns(rq: Request, lay: Layout, q: Query)
    requires Outdated(rq, lay, q)
    requires forall t {:trigger Listed(lay.rows, q, rq.disk, t)} {:trigger rq.wanted[t]} ::
      0 <= t < |rq.wanted| && rq.wanted[t] ==>
        NoneOverlooked(lay.rows, q, rq.disk, t) && !Listed(lay.rows, q, rq.disk, t)
    ensures Concerns(rq, lay)
    ensures forall t :: 0 <= t < |rq.wanted| && rq.wanted[t] ==> NeighboursIntact(rq, lay, t)
  {
    hide Listed, Parity, Stored, Neighbour, View, RowsOk, SizesMatch, NoneOverlooked;
    forall t, i, j {:trigger Neighbour(rq, t, i, j)} |
        0 <= t < |rq.wanted| && rq.wanted[t] && 0 <= i < |rq.rows| && 0 <= j < |rq.rows[i]| && Neighbour(rq, t, i, j)
      ensures i < |rq.now| && i < |lay.files| && j < |rq.now[i]| && j < |lay.files[i]| && Intact(rq, lay, i, j)
    {
      UnlistedIntact(rq, lay, q, t, i, j);
    }
  }

  /**
   * The list is sound, over whole runs, for every file that the query overlooks nothing about: from an
   * outdated slice whose only altered files are the marked ones, changed in any way at all, any choice of
   * such files that are not listed is restored byte for byte.
   */
  method RestoreUnlisted(rq: Request, lay: Layout, q: Query, bufSize: nat, hash: Hash) returns (saved: seq<Saved>)
    requires Outdated(rq, lay, q) && bufSize > 0 && HashOk(hash)
    requires forall t {:trigger Listed(lay.rows, q, rq.disk, t)} {:trigger rq.wanted[t]} ::
      0 <= t < |rq.wanted| && rq.wanted[t] ==>
        NoneOverlooked(lay.rows, q, rq.disk, t) && !Listed(lay.rows, q, rq.disk, t)
    ensures rq.disk < |lay.files| && |lay.files[rq.disk]| == |rq.wanted|
    ensures saved == Chosen(lay.rows[rq.disk], rq.wanted, lay.files[rq.disk], |rq.wanted|)
  {
    hide Listed, LayoutOk, Chosen, RequestOk, NeighboursIntact, Written, HashOk, Stored, Parity, OnlyAlteredDiffer,
      NoneOverlooked;
    UnlistedConcerns(rq, lay, q);
    RestoreIsExact(rq, lay);
    saved := RestoreFiles(rq, bufSize, hash);
  }
}
