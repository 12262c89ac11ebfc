/** Each step of a reading disk keeps the disk's invariant. */
module ReaderSteps {
  import opened Bytes
  import opened Streams
  import opened Hashing
  import opened Readers
  import opened Jobs

  /** The disk has its first file of this window, or none. */
  predicate Attached(d: SliceDisk) { d.fd > 0 || d.diskFinished }

  ghost predicate QuietAt(job: Job, streams: seq<seq<byte>>, i: nat, d: SliceDisk, w: Window, done: nat)
    requires ShapeOk(job, streams) && job.IsReader(i)
  {
    Quiet(TaskOf(job, streams, i, w, done), d, job.bufSize)
  }

  /** The window a transfer works in: the whole slice for a sync, the target file for a restore. */
  ghost predicate WindowOk(job: Job, w: Window, writeStart: nat, writeSize: nat) {
    if job.Sync() then w == Window(0, job.sliceSize) && writeStart == writeSize == 0
    else w == Window(writeStart, writeStart + writeSize)
  }

  /** A reader whose next file cannot be opened now has nothing to read now. */
  lemma NotFinishedIsQuiet(job: Job, streams: seq<seq<byte>>, i: nat, d: SliceDisk, cb: Aiocb, k: nat, buf: seq<byte>,
                           w: Window, done: nat, writeStart: nat, writeSize: nat)
    requires ShapeOk(job, streams) && job.IsReader(i) && WindowOk(job, w, writeStart, writeSize)
    requires ReaderOk(job, streams, i, d, cb, k, buf, w, done)
    requires ReaderRowsOk(job, i) && d.bytes2transfer <= 0
    requires i == job.disks || d.diskFinished || !FileFinished(d, writeStart, writeSize)
    ensures QuietAt(job, streams, i, d, w, done) && Attached(d)
  {
    EndMono(job.rows[i], k, |job.rows[i]|);
    if i == job.disks {
      assert End(job.rows[i], 1) == job.sliceSize;
    }
  }

  lemma OpenKeepsReader(job: Job, streams: seq<seq<byte>>, i: nat, d: SliceDisk, k: nat, buf: seq<byte>, w: Window,
                        done: nat, k2: nat, start: int, writeStart: nat, writeSize: nat)
    requires ShapeOk(job, streams) && job.IsReader(i) && WindowOk(job, w, writeStart, writeSize)
    requires ReaderOk(job, streams, i, d, NoRequest, k, buf, w, done)
    requires Readable(job, streams, w)
    requires i < job.disks && !d.diskFinished && FileFinished(d, writeStart, writeSize)
    requires NextRow(TaskOf(job, streams, i, w, done), k, k2, start, writeStart)
    ensures var r := OpenRow(job.rows[i], job.Sync(), job.hash.start, d, k2, start, writeStart, writeSize);
      ReaderOk(job, streams, i, r, NoRequest, k2, buf, w, done) && r.datalen == d.datalen && r.fd == k2
  {
    var t := TaskOf(job, streams, i, w, done);
    OpenNext(t, job.hash.start, d, k, k2, start, writeStart, writeSize);
    assert FileHolds(job, streams, i, k2 - 1);
  }

  /** If the disk already had a file, the newly opened one leaves nothing to wait for. */
  lemma OpenedEmptyIsQuiet(job: Job, streams: seq<seq<byte>>, i: nat, d: SliceDisk, k: nat, buf: seq<byte>, w: Window,
                           done: nat, k2: nat, start: int, writeStart: nat, writeSize: nat)
    requires ShapeOk(job, streams) && job.IsReader(i) && WindowOk(job, w, writeStart, writeSize)
    requires ReaderOk(job, streams, i, d, NoRequest, k, buf, w, done)
    requires Readable(job, streams, w)
    requires i < job.disks && !d.diskFinished && FileFinished(d, writeStart, writeSize)
    requires NextRow(TaskOf(job, streams, i, w, done), k, k2, start, writeStart)
    requires job.Sync() || d.fd > 0
    ensures var d2 := OpenRow(job.rows[i], job.Sync(), job.hash.start, d, k2, start, writeStart, writeSize);
      d2.bytes2transfer <= 0 ==> QuietAt(job, streams, i, d2, w, done)
  {
    if !job.Sync() && OpenRow(job.rows[i], job.Sync(), job.hash.start, d, k2, start, writeStart,
      writeSize).bytes2transfer <= 0 {
      OpenKeepsReader(job, streams, i, d, k, buf, w, done, k2, start, writeStart, writeSize);
      OpenEmpty(TaskOf(job, streams, i, w, done), job.hash.start, d, k, k2, start, writeStart, writeSize);
    }
  }

  /** Running out of rows keeps the invariant and leaves the disk quiet. */
  lemma ExhaustKeepsReader(job: Job, streams: seq<seq<byte>>, i: nat, d: SliceDisk, k: nat, buf: seq<byte>, w: Window,
                           done: nat, writeStart: nat, writeSize: nat)
    requires ShapeOk(job, streams) && job.IsReader(i) && WindowOk(job, w, writeStart, writeSize)
    requires ReaderOk(job, streams, i, d, NoRequest, k, buf, w, done)
    requires i < job.disks && FileFinished(d, writeStart, writeSize)
    requires k == |job.rows[i]| || (!job.Sync() && |streams[i]| < writeStart)
    ensures var r := Exhaust(job.rows[i], d);
      && ReaderOk(job, streams, i, r, NoRequest, |job.rows[i]|, buf, w, done)
      && QuietAt(job, streams, i, r, w, done) && r.datalen == d.datalen && r.diskFinished
  {
    ExhaustOk(TaskOf(job, streams, i, w, done), d, k, writeStart, writeSize);
  }

  lemma ArrivalKeepsReader(job: Job, streams: seq<seq<byte>>, i: nat, d: SliceDisk, cb: Aiocb, k: nat, buf: seq<byte>,
                           w: Window, done: nat, data: seq<byte>, buf2: seq<byte>, h: HashState)
    requires ShapeOk(job, streams) && job.IsReader(i)
    requires ReaderOk(job, streams, i, d, cb, k, buf, w, done)
    requires 0 < |data| <= cb.nbytes
    requires d.fd <= |job.files[i]| && 0 <= cb.offset && cb.offset + |data| <= |job.files[i][d.fd - 1]|
    requires data == job.files[i][d.fd - 1][cb.offset..cb.offset + |data|]
    requires |buf2| == |buf| && forall x :: 0 <= x < |buf| ==>
      buf2[x] == if d.datalen <= x < d.datalen + |data| then data[x - d.datalen] else buf[x]
    ensures ReaderOk(job, streams, i, Deliver(d, |data|, h), NoRequest, k, buf2, w, done)
  {
    var t := TaskOf(job, streams, i, w, done);
    DeliverOk(t, d, k, |data|, h);
    DataContinuesStream(job, streams, i, d, cb, k, buf, w, done, data);
    BufferGrows(streams[i], Base(t.len, w, done), d.datalen, buf, data, buf2);
  }

  /** What arrives from the open file is what comes next on the disk's stream. */
  lemma DataContinuesStream(job: Job, streams: seq<seq<byte>>, i: nat, d: SliceDisk, cb: Aiocb, k: nat, buf: seq<byte>,
                            w: Window, done: nat, data: seq<byte>)
    requires ShapeOk(job, streams) && job.IsReader(i)
    requires ReaderOk(job, streams, i, d, cb, k, buf, w, done)
    requires 0 < |data| <= cb.nbytes && d.fd <= |job.files[i]|
    requires 0 <= cb.offset && cb.offset + |data| <= |job.files[i][d.fd - 1]|
    requires data == job.files[i][d.fd - 1][cb.offset..cb.offset + |data|]
    ensures var p := Pos(TaskOf(job, streams, i, w, done), d);
      p + |data| <= |streams[i]| && data == streams[i][p..p + |data|]
  {
    var s := End(job.rows[i], k - 1);
    AgreePart(job.files[i][k - 1], job.FileHeader(i), streams[i], s, job.rows[i][k - 1].fsize, d.fileOffset, |data|);
  }

  /** The hash state follows the file as its next bytes arrive. */
  lemma HashFollowsFile(job: Job, i: nat, d: SliceDisk, k: nat, h: seq<HashPos>, data: seq<byte>)
    requires i < |job.rows| && i < |job.files| && HashDiskOk(job, i, d, k, h) && d.fd > 0 && HashOk(job.hash)
    requires d.fileOffset + |data| <= |job.files[i][k - 1]|
    requires data == job.files[i][k - 1][d.fileOffset..d.fileOffset + |data|]
    ensures HashDiskOk(job, i, Deliver(d, |data|, job.hash.update(d.hashState, data)), k, h)
  {
    var file := job.files[i][k - 1];
    assert file[..d.fileOffset] + data == file[..d.fileOffset + |data|];
    assert job.hash.absorbed(job.hash.update(d.hashState, data), file[..d.fileOffset] + data);
  }

  /** How the next row of disk i is chosen. */
  predicate Accepts(job: Job, i: nat, j: nat, writeStart: nat)
    requires i < |job.rows| && j < |job.rows[i]|
    requires i == job.disk2write ==> |job.wanted| == |job.rows[i]|
  {
    if job.Sync() then true
    else if i == job.disk2write then job.wanted[j]
    else job.rows[i][j].start + job.rows[i][j].fsize >= writeStart
  }

  /** No row still to come is larger than the current file, if there is one with contents. */
  predicate SizesFit(job: Job, i: nat, d: SliceDisk, k: nat)
    requires i < |job.rows|
  {
    forall j {:trigger job.rows[i][j].fsize} :: k <= j < |job.rows[i]| ==>
      d.fileSize == 0 || job.rows[i][j].fsize <= d.fileSize
  }

  lemma SizesFollow(job: Job, streams: seq<seq<byte>>, i: nat, d: SliceDisk, cb: Aiocb, k: nat, buf: seq<byte>,
                    w: Window, done: nat)
    requires ShapeOk(job, streams) && job.IsReader(i) && ReaderOk(job, streams, i, d, cb, k, buf, w, done)
    ensures SizesFit(job, i, d, k)
  {
  }

  /** The row the query accepts is the next one to open. */
  lemma AcceptedIsNext(job: Job, streams: seq<seq<byte>>, i: nat, k: nat, idx: nat, start: int, w: Window, done: nat,
                       writeStart: nat)
    requires ShapeOk(job, streams) && job.IsReader(i) && ReaderRowsOk(job, i)
    requires k <= idx < |job.rows[i]| && Accepts(job, i, idx, writeStart)
    requires forall j :: k <= j < idx ==> !Accepts(job, i, j, writeStart)
    requires job.Sync() || start == job.rows[i][idx].start
    ensures NextRow(TaskOf(job, streams, i, w, done), k, idx + 1, start, writeStart)
  {
    if k < idx {
      assert !Accepts(job, i, idx - 1, writeStart);
    }
  }

  /** If no row is accepted, none is left or the stream ends before the window. */
  lemma NoRowLeft(job: Job, streams: seq<seq<byte>>, i: nat, k: nat, writeStart: nat)
    requires ShapeOk(job, streams) && job.IsReader(i) && ReaderRowsOk(job, i) && k <= |job.rows[i]|
    requires forall j :: k <= j < |job.rows[i]| ==> !Accepts(job, i, j, writeStart)
    ensures k == |job.rows[i]| || (!job.Sync() && |streams[i]| < writeStart)
  {
    if k < |job.rows[i]| {
      assert !Accepts(job, i, |job.rows[i]| - 1, writeStart);
    }
  }

  ghost predicate AllZero(buf: seq<byte>) {
    forall x :: 0 <= x < |buf| ==> buf[x] == 0
  }

  lemma EmptyBuffer(job: Job, stream: seq<byte>, base: nat, buf: seq<byte>)
    requires AllZero(buf) && base <= |stream|
    ensures BufferOk(stream, base, 0, buf)
  {
  }

  lemma NoRequestOk(job: Job, i: nat, d: SliceDisk, cb: Aiocb)
    requires cb.nbytes == 0
    ensures RequestOk(job, i, d, cb)
  {
  }

  /** Emptying the buffer after a round of n bytes. */
  lemma RoundKeepsReader(job: Job, streams: seq<seq<byte>>, i: nat, d: SliceDisk, cb: Aiocb, k: nat, buf: seq<byte>,
                         w: Window, done: nat, n: nat, buf2: seq<byte>)
    requires ShapeOk(job, streams) && job.IsReader(i)
    requires ReaderOk(job, streams, i, d, cb, k, buf, w, done) && cb.nbytes == 0
    requires d.datalen == job.bufSize || Pos(TaskOf(job, streams, i, w, done), d) == Hi(|streams[i]|, w)
    requires d.datalen <= n <= job.bufSize && |buf2| == job.bufSize && AllZero(buf2)
    ensures ReaderOk(job, streams, i, d.(datalen := 0), cb, k, buf2, w, done + n)
  {
    hide FileHolds, ShapeOk, CursorOk, Positioned, RequestOk, BufferOk;
    ShapeFacts(job, streams);
    RoundOk(TaskOf(job, streams, i, w, done), d, k, job.bufSize, n);
    EmptyBuffer(job, streams[i], Base(|streams[i]|, w, done + n), buf2);
    NoRequestOk(job, i, d.(datalen := 0), cb);
  }

  /** A reading disk between two restored files, the first of which ended at slice position hi. */
  ghost predicate RestOk(job: Job, streams: seq<seq<byte>>, i: nat, d: SliceDisk, cb: Aiocb, k: nat, buf: seq<byte>,
                         hi: nat)
    requires ShapeOk(job, streams) && job.IsReader(i)
  {
    && Idle(job.rows[i], |streams[i]|, d, k, hi)
    && |buf| == job.bufSize && AllZero(buf) && cb.nbytes == 0
    && (if i == job.disks then d.fd == 1 && k == 1 else d.bytes2transfer == 0)
    && (d.fd > 0 ==> k > 0)
  }

  /** Once the whole window has been folded every reader rests. */
  lemma DoneReaderRests(job: Job, streams: seq<seq<byte>>, i: nat, d: SliceDisk, cb: Aiocb, k: nat, buf: seq<byte>,
                        w: Window, done: nat)
    requires ShapeOk(job, streams) && job.IsReader(i) && !job.Sync()
    requires ReaderOk(job, streams, i, d, cb, k, buf, w, done)
    requires w.lo <= w.hi && done == w.hi - w.lo
    ensures RestOk(job, streams, i, d, cb, k, buf, w.hi)
  {
    DoneIsIdle(TaskOf(job, streams, i, w, done), d.(datalen := 0), k);
  }

  /** A positioned reader with an empty buffer and no request is a good start for a window. */
  lemma StartsWindow(job: Job, streams: seq<seq<byte>>, i: nat, r: SliceDisk, cb: Aiocb, k: nat, buf: seq<byte>,
                     w: Window)
    requires ShapeOk(job, streams) && job.IsReader(i) && Readable(job, streams, w)
    requires CursorOk(TaskOf(job, streams, i, w, 0), r, k) && Positioned(TaskOf(job, streams, i, w, 0), r, k)
    requires r.datalen == 0 && |buf| == job.bufSize && AllZero(buf) && cb.nbytes == 0
    requires r.fd > 0 ==> job.Sync() || i == job.disks || Meets(w, End(job.rows[i], k - 1), job.rows[i][k - 1].fsize)
    requires i == job.disks ==> r.fd == 1 && k == 1 && !r.diskFinished
    ensures ReaderOk(job, streams, i, r, cb, k, buf, w, 0)
  {
    assert r.fd > 0 ==> FileHolds(job, streams, i, k - 1);
  }

  /** The next target's window re-clips every resting data disk. */
  lemma RetargetKeepsDataDisk(job: Job, streams: seq<seq<byte>>, i: nat, d: SliceDisk, cb: Aiocb, k: nat,
                              buf: seq<byte>, hi: nat, w: Window)
    requires ShapeOk(job, streams) && job.IsReader(i) && !job.Sync() && i < job.disks
    requires RestOk(job, streams, i, d, cb, k, buf, hi)
    requires hi <= w.lo <= w.hi && Readable(job, streams, w)
    ensures var r := Retarget(d, w.lo, w.hi - w.lo);
      ReaderOk(job, streams, i, r, cb, k, buf, w, 0) && r.datalen == 0
  {
    hide ReaderOk, CursorOk, Positioned, Idle, Readable, Retarget, Meets;
    RetargetOk(TaskOf(job, streams, i, w, 0), d, k, hi);
    StartsWindow(job, streams, i, Retarget(d, w.lo, w.hi - w.lo), cb, k, buf, w);
  }

  /** The parity reader always restarts at the target's offset. */
  lemma RetargetKeepsParity(job: Job, streams: seq<seq<byte>>, d: SliceDisk, cb: Aiocb, k: nat, buf: seq<byte>, hi: nat,
                            w: Window)
    requires ShapeOk(job, streams) && !job.Sync()
    requires RestOk(job, streams, job.disks, d, cb, k, buf, hi)
    requires hi <= w.lo <= w.hi <= job.sliceSize && Readable(job, streams, w)
    requires job.rows[job.disks] == [Row(0, job.sliceSize, 0)]
    ensures var r := Retarget(d, w.lo, w.hi - w.lo);
      && ReaderOk(job, streams, job.disks, r, cb, k, buf, w, 0)
      && r.fileOffset == w.lo && r.bytes2transfer == w.hi - w.lo && r.datalen == 0
  {
    assert End(job.rows[job.disks], 1) == job.sliceSize;
    RetargetOk(TaskOf(job, streams, job.disks, w, 0), d, k, hi);
    StartsWindow(job, streams, job.disks, Retarget(d, w.lo, w.hi - w.lo), cb, k, buf, w);
  }

  /** The disk after its row query: at row idx, or finished when there is none. */
  function Fetched(job: Job, i: nat, d: SliceDisk, idx: nat, start: int): SliceDisk
    requires i < |job.rows| && idx <= |job.rows[i]|
  {
    if idx == |job.rows[i]| then d.(diskFinished := true, seqNo := SeqAt(job.rows[i], |job.rows[i]|))
    else d.(seqNo := job.rows[i][idx].dseq, fileSize := job.rows[i][idx].fsize, parityStart := start)
  }

  /** What an attempt to open the next file of a reading disk comes to. */
  datatype Outcome = Stays | Exhausted | Opens(idx: nat, start: int)

  ghost predicate OutcomeOk(job: Job, i: nat, k: nat, o: Outcome, writeStart: nat)
    requires i < |job.rows| && job.IsReader(i)
  {
    match o
    case Stays => true
    case Exhausted => forall j :: k <= j < |job.rows[i]| ==> !Accepts(job, i, j, writeStart)
    case Opens(idx, start) =>
      && k <= idx < |job.rows[i]| && Accepts(job, i, idx, writeStart)
      && (job.Sync() || start == job.rows[i][idx].start)
      && forall j :: k <= j < idx ==> !Accepts(job, i, j, writeStart)
  }

  function AfterOutcome(job: Job, i: nat, d: SliceDisk, o: Outcome, writeStart: nat, writeSize: nat): SliceDisk
    requires i < |job.rows| && (o.Opens? ==> o.idx < |job.rows[i]|)
  {
    match o
    case Stays => d
    case Exhausted => Exhaust(job.rows[i], d)
    case Opens(idx, start) =>
      OpenRow(job.rows[i], job.Sync(), job.hash.start, d, idx + 1, start, writeStart, writeSize)
  }

  /** A disk whose fields describe row idx, once that row's file has been opened. */
  function Installed(job: Job, d: SliceDisk, idx: nat, writeStart: nat, writeSize: nat): SliceDisk {
    var d1 := d.(bytes2transfer := d.fileSize, fileOffset := 0);
    var d2 := if job.Sync() then d1.(hashState := job.hash.start) else FitTransfer(d1, writeStart, writeSize);
    d2.(fd := idx + 1)
  }

  function HashesAfter(job: Job, i: nat, d: SliceDisk, o: Outcome, h: seq<HashPos>): seq<HashPos> {
    if job.Sync() && o != Stays && d.fd > 0 then WithHash(job, i, d, h) else h
  }

  function CursorAfter(job: Job, i: nat, k: nat, o: Outcome): nat
    requires i < |job.rows|
  {
    match o
    case Stays => k
    case Exhausted => |job.rows[i]|
    case Opens(idx, _) => idx + 1
  }

  /** When no attempt to open is made. */
  predicate StaysPut(job: Job, i: nat, d: SliceDisk, writeStart: nat, writeSize: nat) {
    i == job.disks || d.diskFinished || !FileFinished(d, writeStart, writeSize)
  }

  /** Whatever comes of it, the reader stays on its stream, and if nothing is left to read it is quiet. */
  lemma OutcomeKeepsReader(job: Job, streams: seq<seq<byte>>, i: nat, d: SliceDisk, k: nat, buf: seq<byte>, w: Window,
                           done: nat, o: Outcome, writeStart: nat, writeSize: nat)
    requires ShapeOk(job, streams) && job.IsReader(i) && ReaderRowsOk(job, i) && WindowOk(job, w, writeStart, writeSize)
    requires Readable(job, streams, w) && ReaderOk(job, streams, i, d, NoRequest, k, buf, w, done)
    requires d.bytes2transfer <= 0
    requires o == Stays <==> StaysPut(job, i, d, writeStart, writeSize)
    requires k <= |job.rows[i]| && OutcomeOk(job, i, k, o, writeStart)
    ensures var r := AfterOutcome(job, i, d, o, writeStart, writeSize);
      && ReaderOk(job, streams, i, r, NoRequest, CursorAfter(job, i, k, o), buf, w, done)
      && r.datalen == d.datalen
      && (!o.Opens? ==> QuietAt(job, streams, i, r, w, done))
      && Attached(r) && (o.Opens? ==> r.fd > 0)
      && (o.Opens? && r.bytes2transfer <= 0 && (job.Sync() || d.fd > 0) ==> QuietAt(job, streams, i, r, w, done))
  {
    hide ReaderOk, Readable, NextRow, Quiet, QuietAt, OpenRow, Exhaust, WindowOk, ReaderRowsOk, FileFinished, Accepts;
    match o
    case Stays =>
      NotFinishedIsQuiet(job, streams, i, d, NoRequest, k, buf, w, done, writeStart, writeSize);
    case Exhausted =>
      NoRowLeft(job, streams, i, k, writeStart);
      ExhaustKeepsReader(job, streams, i, d, k, buf, w, done, writeStart, writeSize);
    case Opens(idx, start) =>
      AcceptedIsNext(job, streams, i, k, idx, start, w, done, writeStart);
      OpensKeepsReader(job, streams, i, d, k, buf, w, done, o, writeStart, writeSize);
  }

  lemma OpensKeepsReader(job: Job, streams: seq<seq<byte>>, i: nat, d: SliceDisk, k: nat, buf: seq<byte>, w: Window,
                         done: nat, o: Outcome, writeStart: nat, writeSize: nat)
    requires ShapeOk(job, streams) && job.IsReader(i) && ReaderRowsOk(job, i) && WindowOk(job, w, writeStart, writeSize)
    requires Readable(job, streams, w) && ReaderOk(job, streams, i, d, NoRequest, k, buf, w, done)
    requires o.Opens? && k <= |job.rows[i]| && !StaysPut(job, i, d, writeStart, writeSize)
    requires o.idx < |job.rows[i]| && NextRow(TaskOf(job, streams, i, w, done), k, o.idx + 1, o.start, writeStart)
    ensures var r := AfterOutcome(job, i, d, o, writeStart, writeSize);
      && ReaderOk(job, streams, i, r, NoRequest, o.idx + 1, buf, w, done)
      && r.datalen == d.datalen && r.fd > 0
      && (r.bytes2transfer <= 0 && (job.Sync() || d.fd > 0) ==> QuietAt(job, streams, i, r, w, done))
  {
    hide ReaderOk, Readable, NextRow, Quiet, OpenRow;
    OpenKeepsReader(job, streams, i, d, k, buf, w, done, o.idx + 1, o.start, writeStart, writeSize);
    if job.Sync() || d.fd > 0 {
      OpenedEmptyIsQuiet(job, streams, i, d, k, buf, w, done, o.idx + 1, o.start, writeStart, writeSize);
    }
  }

  /** A request for what is left, clipped to the free buffer space, keeps the invariant. */
  lemma RequestKeepsReader(job: Job, streams: seq<seq<byte>>, i: nat, d: SliceDisk, k: nat, buf: seq<byte>, w: Window,
                           done: nat)
    requires ShapeOk(job, streams) && job.IsReader(i)
    requires ReaderOk(job, streams, i, d, NoRequest, k, buf, w, done)
    requires d.bytes2transfer > 0 && d.datalen < job.bufSize
    ensures ReaderOk(job, streams, i, d, NextRequest(job, i, d), k, buf, w, done)
    ensures d.fd > 0
  {
  }

  function NextRequest(job: Job, i: nat, d: SliceDisk): Aiocb
    requires d.bytes2transfer > 0 && d.datalen < job.bufSize
  {
    Aiocb(Min(d.bytes2transfer, job.bufSize - d.datalen), d.fileOffset + job.FileHeader(i), false)
  }

  /** The parity reader's own formula for what is left agrees with its bytes2transfer. */
  lemma ParityRest(job: Job, streams: seq<seq<byte>>, d: SliceDisk, cb: Aiocb, k: nat, buf: seq<byte>, w: Window,
                   done: nat,
                   writeStart: nat, writeSize: nat)
    requires ShapeOk(job, streams) && !job.Sync() && ReaderRowsOk(job, job.disks)
    requires ReaderOk(job, streams, job.disks, d, cb, k, buf, w, done)
    requires WindowOk(job, w, writeStart, writeSize) && w.hi <= job.sliceSize
    ensures writeSize - (d.fileOffset - writeStart) == d.bytes2transfer
  {
    assert End(job.rows[job.disks], 1) == job.sliceSize;
  }

  /** Opening, finishing or leaving alone a source disk keeps its hashing in order. */
  lemma OutcomeKeepsHash(job: Job, streams: seq<seq<byte>>, i: nat, d: SliceDisk, k: nat, buf: seq<byte>, w: Window,
                         done: nat, o: Outcome, h: seq<HashPos>)
    requires ShapeOk(job, streams) && job.Sync() && job.IsReader(i) && ReaderRowsOk(job, i) && WindowOk(job, w, 0, 0)
    requires ReaderOk(job, streams, i, d, NoRequest, k, buf, w, done) && d.bytes2transfer <= 0
    requires o == Stays <==> StaysPut(job, i, d, 0, 0)
    requires k <= |job.rows[i]| && OutcomeOk(job, i, k, o, 0)
    requires HashDiskOk(job, i, d, k, h) && HashOk(job.hash)
    ensures HashDiskOk(job, i, AfterOutcome(job, i, d, o, 0, 0), CursorAfter(job, i, k, o),
      HashesAfter(job, i, d, o, h))
    ensures MayAppend(h, HashesAfter(job, i, d, o, h), i)
  {
    if o != Stays {
      FinishedFileIsComplete(job, streams, i, d, k, buf, w, done);
      if d.fd > 0 {
        HashStored(job, i, d, k, h);
      }
      var nextAccepted := k < |job.rows[i]| && Accepts(job, i, k, 0);   // a sync accepts every row
      if o.Opens? {
        assert o.idx == k;
        assert job.files[i][k][..0] == [];
      }
    }
  }

  /** When a sync moves on from an open file, the file has been read to its last byte. */
  lemma FinishedFileIsComplete(job: Job, streams: seq<seq<byte>>, i: nat, d: SliceDisk, k: nat, buf: seq<byte>,
                               w: Window, done: nat)
    requires ShapeOk(job, streams) && job.Sync() && job.IsReader(i) && WindowOk(job, w, 0, 0)
    requires ReaderOk(job, streams, i, d, NoRequest, k, buf, w, done) && FileFinished(d, 0, 0)
    ensures d.fd > 0 ==> d.fileSize == d.fileOffset == SizeAt(job.rows[i], k) <= job.sliceSize
    ensures d.seqNo == SeqAt(job.rows[i], k)
  {
    FinishedAt(TaskOf(job, streams, i, w, done), d, k, 0, 0);
    EndMono(job.rows[i], k, |job.rows[i]|);
  }

  lemma CursorInRange(job: Job, streams: seq<seq<byte>>, i: nat, d: SliceDisk, cb: Aiocb, k: nat, buf: seq<byte>,
                      w: Window, done: nat)
    requires ShapeOk(job, streams) && job.IsReader(i) && ReaderOk(job, streams, i, d, cb, k, buf, w, done)
    ensures k <= |job.rows[i]| && d.seqNo == SeqAt(job.rows[i], k)
    ensures d.bytes2transfer > 0 || cb.nbytes > 0 ==> d.fd > 0 && !d.diskFinished
  {
  }

  /** An outstanding read stays inside the file it reads. */
  lemma ReadInBounds(job: Job, streams: seq<seq<byte>>, i: nat, d: SliceDisk, cb: Aiocb, k: nat, buf: seq<byte>,
                     w: Window, done: nat)
    requires ShapeOk(job, streams) && job.IsReader(i) && ReaderOk(job, streams, i, d, cb, k, buf, w, done)
    requires cb.nbytes > 0
    ensures 0 < d.fd == k <= |job.files[i]| && !d.diskFinished
    ensures 0 <= cb.offset && cb.offset + cb.nbytes <= |job.files[i][d.fd - 1]|
    ensures cb.offset == d.fileOffset + job.FileHeader(i)
    ensures d.datalen + cb.nbytes <= |buf| == job.bufSize
    ensures Pos(TaskOf(job, streams, i, w, done), d) + cb.nbytes <= Hi(|streams[i]|, w)
  {
  }

  lemma RestHasNoRequest(job: Job, streams: seq<seq<byte>>, i: nat, d: SliceDisk, cb: Aiocb, k: nat, buf: seq<byte>,
                         hi: nat)
    requires ShapeOk(job, streams) && job.IsReader(i) && RestOk(job, streams, i, d, cb, k, buf, hi)
    ensures cb.nbytes == 0
  {
  }

  /** Whether a request has completed is not part of the reader's invariant. */
  lemma CompletionKeepsReader(job: Job, streams: seq<seq<byte>>, i: nat, d: SliceDisk, cb: Aiocb, cb2: Aiocb, k: nat,
                              buf: seq<byte>, w: Window, done: nat)
    requires ShapeOk(job, streams) && job.IsReader(i) && ReaderOk(job, streams, i, d, cb, k, buf, w, done)
    requires cb2 == cb.(completed := cb2.completed)
    ensures ReaderOk(job, streams, i, d, cb2, k, buf, w, done)
  {
    hide CursorOk, Positioned, BufferOk, FileHolds;
  }

  /** Nor is a resting reader's file offset of any interest. */
  lemma RestIgnoresOffset(job: Job, streams: seq<seq<byte>>, i: nat, d: SliceDisk, d2: SliceDisk, cb: Aiocb, k: nat,
                          buf: seq<byte>, hi: nat)
    requires ShapeOk(job, streams) && job.IsReader(i) && RestOk(job, streams, i, d, cb, k, buf, hi)
    requires d2 == d.(fileOffset := d2.fileOffset)
    ensures RestOk(job, streams, i, d2, cb, k, buf, hi)
  {
  }

  /** At the end of a round a reader holds its share: a full buffer, or all the window has left for it. */
  ghost predicate RoundShare(job: Job, streams: seq<seq<byte>>, i: nat, d: SliceDisk, w: Window, done: nat)
    requires i < |streams|
  {
    var len := |streams[i]|;
    Base(len, w, done) <= Hi(len, w) && d.datalen == Min(job.bufSize, Hi(len, w) - Base(len, w, done))
  }

  lemma QuietHasShare(job: Job, streams: seq<seq<byte>>, i: nat, d: SliceDisk, cb: Aiocb, k: nat, buf: seq<byte>,
                      w: Window, done: nat, writeStart: nat, writeSize: nat)
    requires ShapeOk(job, streams) && job.IsReader(i) && WindowOk(job, w, writeStart, writeSize)
    requires ReaderOk(job, streams, i, d, cb, k, buf, w, done) && QuietAt(job, streams, i, d, w, done)
    ensures RoundShare(job, streams, i, d, w, done)
    ensures d.datalen == job.bufSize || Pos(TaskOf(job, streams, i, w, done), d) == Hi(|streams[i]|, w)
    ensures BufferOk(streams[i], Base(|streams[i]|, w, done), d.datalen, buf) && |buf| == job.bufSize
  {
    hide FileHolds, RequestOk;
    QuietMeansFullOrDone(TaskOf(job, streams, i, w, done), d, k, job.bufSize);
  }

  /** No share exceeds what the window lacks, and a stream that covers the window has exactly that. */
  lemma ShareBounds(job: Job, streams: seq<seq<byte>>, i: nat, d: SliceDisk, w: Window, done: nat)
    requires i < |streams| && RoundShare(job, streams, i, d, w, done) && w.lo + done <= w.hi
    ensures d.datalen <= Min(job.bufSize, w.hi - w.lo - done)
    ensures |streams[i]| >= w.hi ==> d.datalen == Min(job.bufSize, w.hi - w.lo - done)
  {
  }

  /** Byte x of the buffer is byte lo + done + x of the zero-padded stream. */
  lemma BufferByte(job: Job, streams: seq<seq<byte>>, i: nat, d: SliceDisk, w: Window, done: nat, buf: seq<byte>,
                   x: nat)
    requires i < |streams| && RoundShare(job, streams, i, d, w, done)
    requires BufferOk(streams[i], Base(|streams[i]|, w, done), d.datalen, buf) && |buf| == job.bufSize
    requires x < job.bufSize && w.lo + done + x < w.hi
    ensures At(buf, x) == At(streams[i], w.lo + done + x)
  {
  }
}
