/**
 * What one slice transfer works on, and the invariant of each disk taking part in it. A sync reads all
 * data disks and writes the slice file; a restore reads the slice file and the other disks and writes
 * the lost files of one disk.
 */
module Jobs {
  import opened Bytes
  import opened Streams
  import opened StripeHash
  import opened Hashing
  import opened Readers

  /**
   * Disks 0 .. disks - 1 hold data and disk number `disks` is the parity disk. files[i][j] is what is
   * stored now under row j of disk i. For a restore, row 0 of the parity disk is the slice file.
   */
  datatype Job = Job(
    rows: seq<seq<Row>>,
    files: seq<seq<seq<byte>>>,
    disks: nat,
    disk2write: nat,
    bufSize: nat,
    headerSize: nat,
    sliceSize: nat,
    wanted: seq<bool>,       // restore: which rows of disk2write are to be restored
    hash: Hash               // the content hash
  )
  {
    predicate Sync() { disk2write == disks }

    predicate IsReader(i: int) { 0 <= i <= disks && i != disk2write }

    function FileHeader(i: nat): nat { if i == disks then headerSize else 0 }
  }

  ghost predicate ShapeOk(job: Job, streams: seq<seq<byte>>) {
    && |job.rows| == |job.files| == |streams| == job.disks + 1
    && job.disk2write <= job.disks && job.bufSize > 0 && job.sliceSize < TWO_TO_64
    && forall i {:trigger job.IsReader(i)} :: job.IsReader(i) ==>
      && |job.files[i]| == |job.rows[i]|
      && |streams[i]| == End(job.rows[i], |job.rows[i]|) <= job.sliceSize
      && SizesDescend(job.rows[i])
  }

  lemma ShapeFacts(job: Job, streams: seq<seq<byte>>)
    requires ShapeOk(job, streams)
    ensures |job.rows| == |job.files| == |streams| == job.disks + 1
    ensures job.disk2write <= job.disks && job.bufSize > 0 && job.sliceSize < TWO_TO_64
  {
  }

  /** File j of disk i is there and holds its piece of the disk's stream. */
  ghost predicate FileHolds(job: Job, streams: seq<seq<byte>>, i: nat, j: nat)
    requires ShapeOk(job, streams) && job.IsReader(i) && j < |job.rows[i]|
  {
    Agree(job.files[i][j], job.FileHeader(i), streams[i], End(job.rows[i], j), job.rows[i][j].fsize)
  }

  /** n bytes of a file from offset h are n bytes of a stream from position s. */
  ghost predicate Agree(file: seq<byte>, h: nat, stream: seq<byte>, s: nat, n: nat) {
    h + n <= |file| && s + n <= |stream| && file[h..h + n] == stream[s..s + n]
  }

  lemma AgreePart(file: seq<byte>, h: nat, stream: seq<byte>, s: nat, n: nat, a: nat, m: nat)
    requires Agree(file, h, stream, s, n) && a + m <= n
    ensures Agree(file, h + a, stream, s + a, m)
  {
    var f, g := file[h + a..h + a + m], stream[s + a..s + a + m];
    forall x | 0 <= x < m
      ensures f[x] == g[x]
    {
      assert file[h..h + n][a + x] == stream[s..s + n][a + x];
    }
  }

  /** Every file that a transfer of window w opens is intact. */
  ghost predicate Readable(job: Job, streams: seq<seq<byte>>, w: Window)
    requires ShapeOk(job, streams)
  {
    forall i, j {:trigger FileHolds(job, streams, i, j)} ::
      job.IsReader(i) && 0 <= j < |job.rows[i]|
      && (job.Sync() || i == job.disks || Meets(w, End(job.rows[i], j), job.rows[i][j].fsize))
      ==> FileHolds(job, streams, i, j)
  }

  function RowWindow(row: Row): Window { Window(row.start, row.start + row.fsize) }

  ghost predicate SizesMatch(rows: seq<Row>, files: seq<seq<byte>>) {
    |rows| == |files| && forall j :: 0 <= j < |rows| ==> |files[j]| == rows[j].fsize
  }

  /** A slice about to be generated: every data file is as its row says. */
  ghost predicate SyncOk(job: Job, streams: seq<seq<byte>>) {
    && ShapeOk(job, streams) && job.Sync()
    && Readable(job, streams, Window(0, job.sliceSize))
    && (forall i :: 0 <= i < job.disks ==> KeysAscend(job.rows[i]))
    && (forall i {:trigger job.files[i]} :: 0 <= i < job.disks ==> SizesMatch(job.rows[i], job.files[i]))
    && HashOk(job.hash)
    && (exists i :: 0 <= i < job.disks && |streams[i]| == job.sliceSize)
  }

  /** A slice about to be restored from: starts are prefix sums; what wanted rows need is intact. */
  ghost predicate RestoreOk(job: Job, streams: seq<seq<byte>>) {
    && ShapeOk(job, streams) && !job.Sync()
    && (forall i :: 0 <= i <= job.disks ==> Contiguous(job.rows[i]))
    && (forall i :: 0 <= i < job.disks ==> KeysAscend(job.rows[i]))
    && job.rows[job.disks] == [Row(0, job.sliceSize, 0)]
    && End(job.rows[job.disk2write], |job.rows[job.disk2write]|) <= job.sliceSize
    && |job.wanted| == |job.rows[job.disk2write]|
    && forall t :: 0 <= t < |job.wanted| && job.wanted[t] ==>
      Readable(job, streams, RowWindow(job.rows[job.disk2write][t]))
  }

  ghost predicate JobOk(job: Job, streams: seq<seq<byte>>) {
    if job.Sync() then SyncOk(job, streams) else RestoreOk(job, streams)
  }

  /** What a reader relies on in its rows. */
  ghost predicate ReaderRowsOk(job: Job, i: nat)
    requires i < |job.rows|
  {
    && (i < job.disks ==> KeysAscend(job.rows[i]))
    && (!job.Sync() ==> Contiguous(job.rows[i]))
    && (i == job.disks ==> !job.Sync() && job.rows[i] == [Row(0, job.sliceSize, 0)])
  }

  lemma RowsFacts(job: Job, i: nat)
    requires i < |job.rows| && ReaderRowsOk(job, i)
    ensures i < job.disks ==> KeysAscend(job.rows[i])
  {
  }

  lemma RestoreFacts(job: Job, streams: seq<seq<byte>>)
    requires RestoreOk(job, streams)
    ensures !job.Sync() && KeysAscend(job.rows[job.disk2write]) && Contiguous(job.rows[job.disk2write])
    ensures job.rows[job.disks] == [Row(0, job.sliceSize, 0)]
    ensures forall i {:trigger job.IsReader(i)} :: job.IsReader(i) ==> ReaderRowsOk(job, i)
  {
  }

  lemma SyncFacts(job: Job, streams: seq<seq<byte>>)
    requires SyncOk(job, streams)
    ensures job.Sync()
    ensures forall i {:trigger job.IsReader(i)} :: job.IsReader(i) ==> ReaderRowsOk(job, i)
  {
  }

  function TaskOf(job: Job, streams: seq<seq<byte>>, i: nat, w: Window, done: nat): Task
    requires i < |job.rows| && i < |streams|
  {
    Task(job.rows[i], |streams[i]|, w, done, job.Sync())
  }

  /** The buffer holds the next datalen bytes of the stream and is zero beyond them. */
  ghost predicate BufferOk(stream: seq<byte>, base: nat, datalen: nat, buf: seq<byte>) {
    && datalen <= |buf| && base + datalen <= |stream|
    && forall x :: 0 <= x < |buf| ==> buf[x] == if x < datalen then stream[base + x] else 0
  }

  /** Bytes that continue the stream extend what the buffer holds. */
  lemma BufferGrows(stream: seq<byte>, base: nat, datalen: nat, buf: seq<byte>, data: seq<byte>, buf2: seq<byte>)
    requires BufferOk(stream, base, datalen, buf) && datalen + |data| <= |buf| == |buf2|
    requires base + datalen + |data| <= |stream| && data == stream[base + datalen..base + datalen + |data|]
    requires forall x :: 0 <= x < |buf| ==> buf2[x] == if datalen <= x < datalen + |data| then data[x - datalen]
      else buf[x]
    ensures BufferOk(stream, base, datalen + |data|, buf2)
  {
  }

  /** An outstanding read asks for the next bytes of the open file and fits the free buffer space. */
  ghost predicate RequestOk(job: Job, i: nat, d: SliceDisk, cb: Aiocb) {
    cb.nbytes > 0 ==>
      && !d.diskFinished && d.fd > 0
      && cb.nbytes <= d.bytes2transfer && d.datalen + cb.nbytes <= job.bufSize
      && cb.offset == d.fileOffset + job.FileHeader(i)
  }

  /** The invariant of one reading disk. */
  ghost predicate ReaderOk(job: Job, streams: seq<seq<byte>>, i: nat, d: SliceDisk, cb: Aiocb, k: nat, buf: seq<byte>,
                           w: Window, done: nat)
    requires ShapeOk(job, streams) && job.IsReader(i)
  {
    var t := TaskOf(job, streams, i, w, done);
    && CursorOk(t, d, k) && Positioned(t, d, k)
    && |buf| == job.bufSize && BufferOk(streams[i], Base(t.len, w, done), d.datalen, buf)
    && RequestOk(job, i, d, cb)
    && (d.fd > 0 ==> FileHolds(job, streams, i, k - 1))
    && (i == job.disks ==> d.fd == 1 && k == 1 && !d.diskFinished)
  }

  // ---------------------------------------------------------------- the hash record

  /** One entry of the slice's hash array. */
  datatype HashPos = HashPos(dseq: nat, disk: nat, hash: bv64)

  /** The entries of one disk, in order. */
  function OfDisk(h: seq<HashPos>, i: nat): seq<HashPos>
    decreases |h|
  {
    if |h| == 0 then []
    else
      var last := h[|h| - 1];
      OfDisk(h[..|h| - 1], i) + (if last.disk == i then [last] else [])
  }

  /** What should be recorded for the first m files of a disk: one entry per non-empty file, in key order. */
  function Record(rows: seq<Row>, files: seq<seq<byte>>, disk: nat, hash: Hash, m: nat): seq<HashPos>
    requires m <= |rows| && m <= |files|
  {
    if m == 0 then [] else Record(rows, files, disk, hash, m - 1) + RecordEntry(rows[m - 1], files[m - 1], disk, hash)
  }

  function RecordEntry(row: Row, file: seq<byte>, disk: nat, hash: Hash): seq<HashPos> {
    if row.fsize == 0 then [] else [HashPos(row.dseq, disk, hash.oneShot(file))]
  }

  lemma OfDiskAppend(h: seq<HashPos>, e: HashPos, i: nat)
    ensures OfDisk(h + [e], i) == OfDisk(h, i) + (if e.disk == i then [e] else [])
  {
    assert (h + [e])[..|h|] == h;
  }

  lemma {:induction false} RecordLength(rows: seq<Row>, files: seq<seq<byte>>, disk: nat, hash: Hash, m: nat)
    requires m <= |rows| && m <= |files|
    ensures |Record(rows, files, disk, hash, m)| <= m
  {
    if m > 0 {
      RecordLength(rows, files, disk, hash, m - 1);
    }
  }

  /** Files that are empty add nothing. */
  lemma {:induction false} RecordEmptyTail(rows: seq<Row>, files: seq<seq<byte>>, disk: nat, hash: Hash, m: nat, n: nat)
    requires m <= n <= |rows| && n <= |files|
    requires forall j :: m <= j < n ==> rows[j].fsize == 0
    ensures Record(rows, files, disk, hash, n) == Record(rows, files, disk, hash, m)
  {
    if m < n {
      RecordEmptyTail(rows, files, disk, hash, m, n - 1);
    }
  }

  /** Number of rows on the first n disks. */
  function RowCount(job: Job, n: nat): nat
    requires n <= |job.rows|
  {
    if n == 0 then 0 else RowCount(job, n - 1) + |job.rows[n - 1]|
  }

  /** Number of entries that belong to the first n disks. */
  function EntriesBelow(h: seq<HashPos>, n: nat): nat
    decreases |h|
  {
    if |h| == 0 then 0
    else EntriesBelow(h[..|h| - 1], n) + if h[|h| - 1].disk < n then 1 else 0
  }

  lemma {:induction false} EntriesSplit(h: seq<HashPos>, n: nat)
    ensures EntriesBelow(h, n + 1) == EntriesBelow(h, n) + |OfDisk(h, n)|
    decreases |h|
  {
    if |h| > 0 {
      EntriesSplit(h[..|h| - 1], n);
    }
  }

  lemma {:induction false} EntriesAll(h: seq<HashPos>, n: nat)
    requires forall e :: e in h ==> e.disk < n
    ensures EntriesBelow(h, n) == |h|
    decreases |h|
  {
    if |h| > 0 {
      EntriesAll(h[..|h| - 1], n);
    }
  }

  lemma {:induction false} NoEntriesBelowZero(h: seq<HashPos>)
    ensures EntriesBelow(h, 0) == 0
    decreases |h|
  {
    if |h| > 0 {
      NoEntriesBelowZero(h[..|h| - 1]);
    }
  }

  /** If no disk has more entries than rows, and disk i has fewer, the array is not full. */
  lemma {:induction false} RoomForHash(job: Job, h: seq<HashPos>, i: nat, n: nat)
    requires n <= |job.rows|
    requires forall j :: 0 <= j < n ==> |OfDisk(h, j)| <= |job.rows[j]|
    requires i < n ==> |OfDisk(h, i)| < |job.rows[i]|
    ensures EntriesBelow(h, n) <= RowCount(job, n)
    ensures i < n ==> EntriesBelow(h, n) < RowCount(job, n)
  {
    if n > 0 {
      RoomForHash(job, h, i, n - 1);
      EntriesSplit(h, n - 1);
    } else {
      NoEntriesBelowZero(h);
    }
  }

  /** Rows of a disk whose hash has been recorded when k rows have been fetched. */
  function Hashed(d: SliceDisk, k: nat): nat {
    if d.fd > 0 && k > 0 then k - 1 else k
  }

  /**
   * The hashing of one source disk: the record holds every file read completely, and the state of the
   * file being read has absorbed exactly the bytes read so far.
   */
  ghost predicate HashDiskOk(job: Job, i: nat, d: SliceDisk, k: nat, h: seq<HashPos>)
    requires i < |job.rows| && i < |job.files|
  {
    && k <= |job.rows[i]| && SizesMatch(job.rows[i], job.files[i])
    && OfDisk(h, i) == Record(job.rows[i], job.files[i], i, job.hash, Hashed(d, k))
    && (d.fd > 0 ==> d.fd == k && HashStateOk(job, job.files[i][k - 1], d))
  }

  ghost predicate HashStateOk(job: Job, file: seq<byte>, d: SliceDisk) {
    0 <= d.fileOffset <= |file| && job.hash.absorbed(d.hashState, file[..d.fileOffset])
  }

  /** h2 is h, possibly with one more entry of disk i. */
  ghost predicate MayAppend(h: seq<HashPos>, h2: seq<HashPos>, i: nat) {
    h2 == h || (|h2| == |h| + 1 && h2[..|h|] == h && h2[|h|].disk == i)
  }

  lemma AppendKeepsOthers(h: seq<HashPos>, h2: seq<HashPos>, i: nat, j: nat)
    requires MayAppend(h, h2, i) && j != i
    ensures OfDisk(h2, j) == OfDisk(h, j)
  {
    if h2 != h {
      OfDiskAppend(h, h2[|h|], j);
      assert h2 == h + [h2[|h|]];
    }
  }

  /** The digest stored for a completely read file is the hash of its bytes. */
  lemma StoredDigest(job: Job, file: seq<byte>, d: SliceDisk)
    requires HashOk(job.hash) && HashStateOk(job, file, d) && d.fileOffset == |file| < TWO_TO_64
    ensures job.hash.digest(d.hashState) == job.hash.oneShot(file)
  {
    assert file[..|file|] == file;
  }

  /** There is room for one more entry as long as some disk has a file that is not recorded yet. */
  lemma HashRoom(job: Job, disks: seq<SliceDisk>, k: seq<nat>, h: seq<HashPos>, i: nat)
    requires |disks| == |k| >= job.disks && |job.rows| == |job.files| >= job.disks && i < job.disks
    requires forall j :: 0 <= j < job.disks ==> HashDiskOk(job, j, disks[j], k[j], h)
    requires forall e :: e in h ==> e.disk < job.disks
    requires disks[i].fd > 0
    ensures |h| < RowCount(job, job.disks)
  {
    forall j | 0 <= j < job.disks
      ensures |OfDisk(h, j)| <= |job.rows[j]|
      ensures j == i ==> |OfDisk(h, j)| < |job.rows[j]|
    {
      RecordLength(job.rows[j], job.files[j], j, job.hash, Hashed(disks[j], k[j]));
    }
    RoomForHash(job, h, i, job.disks);
    EntriesAll(h, job.disks);
  }

  /** The record after the file that disk d has just read completely; empty files get no entry. */
  function WithHash(job: Job, i: nat, d: SliceDisk, h: seq<HashPos>): seq<HashPos>
  {
    if d.fileSize == 0 then h else h + [HashPos(d.seqNo, i, job.hash.digest(d.hashState))]
  }

  /** Recording the digest of a completely read file brings the record up to date. */
  lemma HashStored(job: Job, i: nat, d: SliceDisk, k: nat, h: seq<HashPos>)
    requires i < |job.rows| && i < |job.files| && HashDiskOk(job, i, d, k, h) && d.fd > 0
    requires d.seqNo == SeqAt(job.rows[i], k) && d.fileSize == d.fileOffset == SizeAt(job.rows[i], k) < TWO_TO_64
    requires HashOk(job.hash)
    ensures OfDisk(WithHash(job, i, d, h), i) == Record(job.rows[i], job.files[i], i, job.hash, k)
    ensures MayAppend(h, WithHash(job, i, d, h), i)
  {
    if d.fileSize != 0 {
      StoredDigest(job, job.files[i][k - 1], d);
      OfDiskAppend(h, HashPos(d.seqNo, i, job.hash.digest(d.hashState)), i);
    }
  }

  /** What is in the buffer does not concern the hashing. */
  lemma HashIgnoresBuffer(job: Job, i: nat, d: SliceDisk, k: nat, h: seq<HashPos>)
    requires i < |job.rows| && i < |job.files| && HashDiskOk(job, i, d, k, h)
    ensures HashDiskOk(job, i, d.(datalen := 0), k, h)
  {
  }

  /** A disk moving on, with at most one new entry of its own, keeps every disk's hashing in order. */
  lemma {:induction false} HashesAdvance(job: Job, disks: seq<SliceDisk>, k: seq<nat>, h: seq<HashPos>, i: nat,
                                         d: SliceDisk, c: nat, h2: seq<HashPos>)
    requires |disks| == |k| >= job.disks && |job.rows| == |job.files| >= job.disks && i < job.disks
    requires forall j :: 0 <= j < job.disks ==> HashDiskOk(job, j, disks[j], k[j], h)
    requires forall e :: e in h ==> e.disk < job.disks
    requires MayAppend(h, h2, i) && HashDiskOk(job, i, d, c, h2)
    ensures var ds, ks := disks[i := d], k[i := c];
      forall j :: 0 <= j < job.disks ==> HashDiskOk(job, j, ds[j], ks[j], h2)
    ensures forall e :: e in h2 ==> e.disk < job.disks
  {
    var ds, ks := disks[i := d], k[i := c];
    forall j | 0 <= j < job.disks
      ensures HashDiskOk(job, j, ds[j], ks[j], h2)
    {
      if j != i {
        AppendKeepsOthers(h, h2, i, j);
      }
    }
  }

  // ---------------------------------------------------------------- work still to do

  /** Bytes disk i can still move before this round must end: unread window bytes, or bytes to write. */
  function LeftOf(job: Job, streams: seq<seq<byte>>, i: nat, w: Window, done: nat, datalen: nat): nat
    requires i < |streams|
  {
    if i == job.disk2write then datalen
    else
      var p := Base(|streams[i]|, w, done) + datalen;
      if p <= Hi(|streams[i]|, w) then Hi(|streams[i]|, w) - p else 0
  }

  function LeftUpTo(job: Job, streams: seq<seq<byte>>, w: Window, done: nat, disks: seq<SliceDisk>, n: nat): nat
    requires n <= |streams| && n <= |disks|
  {
    if n == 0 then 0
    else LeftUpTo(job, streams, w, done, disks, n - 1) + LeftOf(job, streams, n - 1, w, done, disks[n - 1].datalen)
  }

  /** Changing one disk changes the total by that disk's share. */
  lemma {:induction false} LeftChanges(job: Job, streams: seq<seq<byte>>, w: Window, done: nat, disks: seq<SliceDisk>,
                                       i: nat, d: SliceDisk, n: nat)
    requires i < |disks| && n <= |streams| == |disks|
    ensures LeftUpTo(job, streams, w, done, disks[i := d], n) - LeftUpTo(job, streams, w, done, disks, n)
         == if i < n then LeftOf(job, streams, i, w, done, d.datalen) - LeftOf(job, streams, i, w, done,
           disks[i].datalen) else 0
  {
    if n > 0 {
      LeftChanges(job, streams, w, done, disks, i, d, n - 1);
    }
  }
}
