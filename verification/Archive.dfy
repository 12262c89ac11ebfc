/**
 * Whole slices: parity is the XOR of the disks' zero-padded streams, and restoring from it, with the
 * other disks' files as they are now, gives back the original bytes of every file whose neighbours in
 * the slice are intact.
 */
module Archive {
  import opened Bytes
  import opened Streams
  import opened StripeHash
  import opened Hashing
  import opened Jobs
  import opened Transfer

  /** The first n files laid end to end. */
  function Concat(files: seq<seq<byte>>, n: nat): seq<byte>
    requires n <= |files|
  {
    if n == 0 then [] else Concat(files, n - 1) + files[n - 1]
  }

  function StreamOf(files: seq<seq<byte>>): seq<byte> { Concat(files, |files|) }

  function StreamsOf(files: seq<seq<seq<byte>>>): seq<seq<byte>> {
    seq(|files|, i requires 0 <= i < |files| => StreamOf(files[i]))
  }

  lemma {:induction false} ConcatLength(rows: seq<Row>, files: seq<seq<byte>>, n: nat)
    requires SizesMatch(rows, files) && n <= |rows|
    ensures |Concat(files, n)| == End(rows, n)
  {
    if n > 0 {
      ConcatLength(rows, files, n - 1);
    }
  }

  lemma {:induction false} ConcatPrefix(files: seq<seq<byte>>, m: nat, n: nat)
    requires m <= n <= |files|
    ensures |Concat(files, m)| <= |Concat(files, n)| && Concat(files, n)[..|Concat(files, m)|] == Concat(files, m)
  {
    if m < n {
      ConcatPrefix(files, m, n - 1);
      var a, b := Concat(files, n - 1), files[n - 1];
      assert (a + b)[..|Concat(files, m)|] == a[..|Concat(files, m)|];
    }
  }

  lemma SliceOfPrefix(all: seq<byte>, before: seq<byte>, piece: seq<byte>)
    requires |before| + |piece| <= |all| && all[..|before| + |piece|] == before + piece
    ensures all[|before|..|before| + |piece|] == piece
  {
    var n := |before| + |piece|;
    assert all[|before|..n] == all[..n][|before|..];
  }

  /** File j lies in its disk's stream at its row's start. */
  lemma FileInStream(rows: seq<Row>, files: seq<seq<byte>>, j: nat)
    requires SizesMatch(rows, files) && j < |rows|
    ensures |StreamOf(files)| == End(rows, |rows|)
    ensures Agree(files[j], 0, StreamOf(files), End(rows, j), rows[j].fsize)
  {
    ConcatLength(rows, files, j);
    ConcatLength(rows, files, |rows|);
    ConcatPrefix(files, j + 1, |files|);
    SliceOfPrefix(StreamOf(files), Concat(files, j), files[j]);
    EndMono(rows, j + 1, |rows|);
    assert files[j][0..rows[j].fsize] == files[j];
  }

  /** A slice: per data disk its rows and the files they stand for. */
  datatype Layout = Layout(rows: seq<seq<Row>>, files: seq<seq<seq<byte>>>, sliceSize: nat)

  /** Rows tile each disk's stream in key order, and the slice is as long as its longest stream. */
  ghost predicate LayoutOk(lay: Layout) {
    && |lay.rows| == |lay.files|
    && (forall i {:trigger lay.rows[i]} {:trigger lay.files[i]} :: 0 <= i < |lay.rows| ==>
          RowsOk(lay.rows[i]) && SizesMatch(lay.rows[i], lay.files[i])
            && End(lay.rows[i], |lay.rows[i]|) <= lay.sliceSize)
    && (exists i {:trigger lay.rows[i]} :: 0 <= i < |lay.rows| && End(lay.rows[i], |lay.rows[i]|) == lay.sliceSize)
    && lay.sliceSize < TWO_TO_64
  }

  lemma LayoutDisk(lay: Layout, i: nat)
    requires LayoutOk(lay) && i < |lay.rows|
    ensures i < |lay.files| && RowsOk(lay.rows[i]) && SizesMatch(lay.rows[i], lay.files[i])
    ensures End(lay.rows[i], |lay.rows[i]|) <= lay.sliceSize
  {
    hide RowsOk, SizesMatch;
  }

  /** Rows that tile a stream start where their predecessors end. */
  lemma TileFacts(rows: seq<Row>, t: nat)
    requires Contiguous(rows) && t < |rows|
    ensures rows[t].start == End(rows, t)
    ensures rows[t].start + rows[t].fsize == End(rows, t + 1) <= End(rows, |rows|)
  {
    EndMono(rows, t + 1, |rows|);
  }

  /** The parity of a layout: the XOR of all streams, each padded with zeros to the slice size. */
  function Parity(lay: Layout): seq<byte> {
    XorWindow(StreamsOf(lay.files), |lay.files|, 0, lay.sliceSize)
  }

  lemma ParityByte(lay: Layout, k: nat)
    requires k < lay.sliceSize
    ensures At(Parity(lay), k) == XorAt(StreamsOf(lay.files), |lay.files|, k)
  {
    hide XorAt, StreamsOf;
  }

  // ---------------------------------------------------------------- sync

  function SyncJob(lay: Layout, headerSize: nat, bufSize: nat, hash: Hash): Job {
    Job(lay.rows + [[]], lay.files + [[]], |lay.rows|, |lay.rows|, bufSize, headerSize, lay.sliceSize, [], hash)
  }

  lemma SyncJobOk(lay: Layout, headerSize: nat, bufSize: nat, hash: Hash)
    requires LayoutOk(lay) && bufSize > 0 && HashOk(hash)
    ensures SyncOk(SyncJob(lay, headerSize, bufSize, hash), StreamsOf(lay.files) + [[]])
  {
    var job, streams := SyncJob(lay, headerSize, bufSize, hash), StreamsOf(lay.files) + [[]];
    forall i {:trigger job.IsReader(i)} | job.IsReader(i)
      ensures job.rows[i] == lay.rows[i] && job.files[i] == lay.files[i] && streams[i] == StreamOf(lay.files[i])
      ensures |streams[i]| == End(job.rows[i], |job.rows[i]|)
    {
      ConcatLength(lay.rows[i], lay.files[i], |lay.rows[i]|);
    }
    var w := Window(0, job.sliceSize);
    forall i, j {:trigger FileHolds(job, streams, i, j)} | job.IsReader(i) && 0 <= j < |job.rows[i]|
      ensures FileHolds(job, streams, i, j)
    {
      FileInStream(lay.rows[i], lay.files[i], j);
    }
    var m :| 0 <= m < |lay.rows| && End(lay.rows[m], |lay.rows[m]|) == lay.sliceSize;
    assert job.IsReader(m) && |streams[m]| == job.sliceSize;
  }

  /** The target takes no part in the XOR. */
  lemma XorWithoutTarget(ss: seq<seq<byte>>, k: nat)
    ensures XorAt(ss + [[]], |ss|, k) == XorAt(ss, |ss|, k)
  {
    XorCongruence(ss, ss + [[]], |ss|, |ss|, k, k);
    var b := XorAt(ss, |ss|, k);
    assert b ^ 0 == b;
  }

  /**
   * Generates a slice file behind a header of any length. For every buffer size and every schedule of
   * completions and short reads, what follows the header is the parity of the layout, and the hash record
   * of each disk lists exactly its non-empty files with the hashes of their contents.
   */
  method Sync(lay: Layout, header: seq<byte>, bufSize: nat, hash: Hash)
    returns (sliceFile: seq<byte>, record: seq<HashPos>)
    requires LayoutOk(lay) && bufSize > 0 && HashOk(hash)
    ensures sliceFile == header + Parity(lay)
    ensures forall i {:trigger lay.rows[i]} :: 0 <= i < |lay.rows| ==>
      OfDisk(record, i) == Record(lay.rows[i], lay.files[i], i, hash, |lay.rows[i]|)
  {
    var job := SyncJob(lay, |header|, bufSize, hash);
    ghost var streams := StreamsOf(lay.files) + [[]];
    SyncJobOk(lay, |header|, bufSize, hash);
    var cs := new Slice(job, streams, header);
    cs.CreateSlice();
    sliceFile, record := cs.work, cs.hashArray;
    forall k | 0 <= k < lay.sliceSize
      ensures XorAt(streams, job.disks, k) == XorAt(StreamsOf(lay.files), |lay.files|, k)
    {
      XorWithoutTarget(StreamsOf(lay.files), k);
    }
    assert XorWindow(streams, job.disks, 0, lay.sliceSize) == Parity(lay);
    forall i {:trigger lay.rows[i]} | 0 <= i < |lay.rows|
      ensures OfDisk(record, i) == Record(lay.rows[i], lay.files[i], i, hash, |lay.rows[i]|)
    {
      assert job.rows[i] == lay.rows[i] && job.files[i] == lay.files[i];
    }
  }
}
