/**
 * The transfer engine: asynchronous, possibly short reads fill one buffer per disk, the buffers are
 * XORed into the target's buffer, and that is written to the slice file or to the file being restored.
 */
module Transfer {
  import opened Bytes
  import opened Streams
  import opened Hashing
  import opened Readers
  import opened Jobs
  import opened ReaderSteps

  /** A file that a restore has completed: its key on the restored disk and what was written. */
  datatype Saved = Saved(dseq: nat, content: seq<byte>)

  /** What restoring the wanted ones of the first n rows must have written, in order. */
  ghost function SavedUpTo(job: Job, streams: seq<seq<byte>>, n: nat): seq<Saved>
    requires job.disk2write < |job.rows| && n <= |job.rows[job.disk2write]| == |job.wanted|
  {
    if n == 0 then []
    else
      var row := job.rows[job.disk2write][n - 1];
      SavedUpTo(job, streams, n - 1)
      + (if job.wanted[n - 1] then [Saved(row.dseq, XorWindow(streams, job.disk2write, row.start, row.fsize))] else [])
  }

  /** Rows passed over by the query add nothing. */
  lemma {:induction false} UnwantedAddNothing(job: Job, streams: seq<seq<byte>>, m: nat, n: nat, writeStart: nat)
    requires job.disk2write < |job.rows| && m <= n <= |job.rows[job.disk2write]| == |job.wanted| && !job.Sync()
    requires forall j :: m <= j < n ==> !Accepts(job, job.disk2write, j, writeStart)
    ensures SavedUpTo(job, streams, n) == SavedUpTo(job, streams, m)
  {
    if m < n {
      UnwantedAddNothing(job, streams, m, n - 1, writeStart);
      assert !Accepts(job, job.disk2write, n - 1, writeStart);
    }
  }

  /** A file with `data` written at an offset inside it or at its end. */
  function WriteAt(file: seq<byte>, offset: nat, data: seq<byte>): seq<byte>
    requires offset <= |file|
  {
    file[..offset] + data + if offset + |data| <= |file| then file[offset + |data|..] else []
  }

  /**
   * The open target: `written` of the `done` folded bytes are in the work file behind its prefix and the
   * rest are in the buffer; bytes2transfer is what the window still lacks in the work file.
   */
  ghost predicate TargetOk(job: Job, streams: seq<seq<byte>>, d: SliceDisk, cb: Aiocb, buf: seq<byte>, w: Window,
                           done: nat, written: nat, prefix: seq<byte>, work: seq<byte>) {
    && w.lo + done <= w.hi && d.fd > 0
    && written + d.datalen == done
    && d.bytes2transfer == w.hi - w.lo - written
    && d.fileOffset == |prefix| + written
    && work == prefix + XorWindow(streams, job.disk2write, w.lo, written)
    && d.datalen <= |buf| == job.bufSize
    && buf[..d.datalen] == XorWindow(streams, job.disk2write, w.lo + written, d.datalen)
    && (cb.nbytes > 0 ==> cb.nbytes == d.datalen && cb.offset == d.fileOffset)
  }

  /** A round of n folded bytes waits in the target's buffer to be written. */
  lemma FoldKeepsTarget(job: Job, streams: seq<seq<byte>>, d: SliceDisk, cb: Aiocb, buf: seq<byte>, w: Window,
                        done: nat, written: nat, prefix: seq<byte>, work: seq<byte>, n: nat, buf2: seq<byte>)
    requires TargetOk(job, streams, d, cb, buf, w, done, written, prefix, work) && d.datalen == 0 && cb.nbytes == 0
    requires w.lo + done + n <= w.hi && n <= |buf2| == job.bufSize
    requires forall x :: 0 <= x < n ==> buf2[x] == XorAt(streams, job.disk2write, w.lo + done + x)
    ensures TargetOk(job, streams, d.(datalen := n), cb, buf2, w, done + n, written, prefix, work)
  {
    assert buf2[..n] == XorWindow(streams, job.disk2write, w.lo + done, n);
  }

  lemma CompletionKeepsTarget(job: Job, streams: seq<seq<byte>>, d: SliceDisk, cb: Aiocb, cb2: Aiocb, buf: seq<byte>,
                              w: Window, done: nat, written: nat, prefix: seq<byte>, work: seq<byte>)
    requires TargetOk(job, streams, d, cb, buf, w, done, written, prefix, work)
    requires cb2 == cb.(completed := cb2.completed)
    ensures TargetOk(job, streams, d, cb2, buf, w, done, written, prefix, work) && d.fd > 0
  {
  }

  lemma WindowConcat(streams: seq<seq<byte>>, skip: nat, lo: nat, m: nat, n: nat)
    ensures XorWindow(streams, skip, lo, m) + XorWindow(streams, skip, lo + m, n) == XorWindow(streams, skip, lo, m + n)
  {
    var a, b, c := XorWindow(streams, skip, lo, m), XorWindow(streams, skip, lo + m, n),
      XorWindow(streams, skip, lo, m + n);
    forall x | 0 <= x < m + n
      ensures (a + b)[x] == c[x]
    {
      if x >= m {
        assert b[x - m] == XorAt(streams, skip, lo + m + (x - m));
      }
    }
  }

  /** Writing the buffered bytes out appends them to the work file. */
  lemma WriteKeepsTarget(job: Job, streams: seq<seq<byte>>, d: SliceDisk, cb: Aiocb, buf: seq<byte>, w: Window,
                         done: nat, written: nat, prefix: seq<byte>, work: seq<byte>, d2: SliceDisk, buf2: seq<byte>)
    requires TargetOk(job, streams, d, cb, buf, w, done, written, prefix, work)
    requires d2 == d.(datalen := 0, fileOffset := d.fileOffset + d.datalen,
      bytes2transfer := d.bytes2transfer - d.datalen)
    requires |buf2| == job.bufSize
    ensures 0 <= d.fileOffset <= |work|
    ensures TargetOk(job, streams, d2, NoRequest, buf2, w, done, done, prefix,
      WriteAt(work, d.fileOffset, buf[..d.datalen]))
  {
    WindowConcat(streams, job.disk2write, w.lo, written, d.datalen);
    assert work[..d.fileOffset] == work;
  }

  /** The restored disk's row cursor c, its target's window w and what has been saved belong together. */
  ghost predicate BookOk(job: Job, streams: seq<seq<byte>>, d: SliceDisk, cb: Aiocb, c: nat, w: Window, writeSize: nat,
                         saved: seq<Saved>, prefix: seq<byte>)
    requires job.disk2write < |job.rows|
  {
    var rows := job.rows[job.disk2write];
    && c <= |rows| == |job.wanted| && d.seqNo == SeqAt(rows, c) && prefix == []
    && w.hi <= End(rows, c)
    && (d.diskFinished ==> c == |rows|)
    && (if d.fd > 0 then
          && c > 0 && job.wanted[c - 1] && w == RowWindow(rows[c - 1])
          && d.fileSize == rows[c - 1].fsize == writeSize && saved == SavedUpTo(job, streams, c - 1)
        else
          && d.fileSize == 0 && d.bytes2transfer == 0 && d.datalen == 0 && cb == NoRequest
          && saved == SavedUpTo(job, streams, c))
  }

  lemma BookFacts(job: Job, streams: seq<seq<byte>>, d: SliceDisk, cb: Aiocb, c: nat, w: Window, writeSize: nat,
                  saved: seq<Saved>, prefix: seq<byte>)
    requires job.disk2write < |job.rows| && BookOk(job, streams, d, cb, c, w, writeSize, saved, prefix) && d.fd <= 0
    ensures c <= |job.rows[job.disk2write]| == |job.wanted| && d.seqNo == SeqAt(job.rows[job.disk2write], c)
    ensures prefix == []
    ensures d.datalen == 0 && cb == NoRequest && (d.diskFinished ==> c == |job.rows[job.disk2write]|)
    ensures SizesFit(job, job.disk2write, d, c)
  {
  }

  /** The books after the next wanted row has been fetched, or none has been found. */
  lemma BookTurns(job: Job, streams: seq<seq<byte>>, d: SliceDisk, cb: Aiocb, c: nat, w: Window, writeSize: nat,
                  saved: seq<Saved>, prefix: seq<byte>, writeStart: nat, idx: nat, start: int)
    requires job.disk2write < |job.rows| && BookOk(job, streams, d, cb, c, w, writeSize, saved, prefix) && d.fd <= 0
    requires !job.Sync()
    requires Contiguous(job.rows[job.disk2write]) && c <= idx <= |job.rows[job.disk2write]| == |job.wanted|
    requires forall j :: c <= j < idx ==> !Accepts(job, job.disk2write, j, writeStart)
    requires idx < |job.wanted| ==>
      Accepts(job, job.disk2write, idx, writeStart) && start == job.rows[job.disk2write][idx].start
    ensures var z := Fetched(job, job.disk2write, d, idx, start);
      if idx < |job.wanted| then
        && start >= w.hi
        && BookOk(job, streams, z.(bytes2transfer := z.fileSize, fileOffset := 0, fd := 1), cb, idx + 1,
                  Window(start, start + z.fileSize), z.fileSize, saved, prefix)
      else BookOk(job, streams, z, cb, idx, w, writeSize, saved, prefix)
  {
    UnwantedAddNothing(job, streams, c, idx, writeStart);
    EndMono(job.rows[job.disk2write], c, idx);
    hide SavedUpTo;
  }

  /** Disk i before the first step: closed and empty, but the parity disk has its file open. */
  function InitialDisk(job: Job, i: nat): SliceDisk {
    if i == job.disks
    then SliceDisk(false, 1, 0, 0, if job.Sync() then job.headerSize
      else 0, job.sliceSize, job.sliceSize, 0, job.hash.start)
    else SliceDisk(false, -1, 0, 0, 0, 0, 0, 0, job.hash.start)
  }

  function InitialCursor(job: Job, i: nat): nat {
    if i == job.disks && !job.Sync() then 1 else 0
  }

  lemma InitialReader(job: Job, streams: seq<seq<byte>>, i: nat, buf: seq<byte>)
    requires SyncOk(job, streams) && job.IsReader(i) && |buf| == job.bufSize && AllZero(buf)
    ensures ReaderOk(job, streams, i, InitialDisk(job, i), NoRequest, InitialCursor(job, i), buf,
      Window(0, job.sliceSize), 0)
    ensures HashDiskOk(job, i, InitialDisk(job, i), InitialCursor(job, i), [])
  {
    StartsWindow(job, streams, i, InitialDisk(job, i), NoRequest, 0, buf, Window(0, job.sliceSize));
  }

  lemma InitialRest(job: Job, streams: seq<seq<byte>>, i: nat, buf: seq<byte>)
    requires RestoreOk(job, streams) && job.IsReader(i) && |buf| == job.bufSize && AllZero(buf)
    ensures RestOk(job, streams, i, InitialDisk(job, i), NoRequest, InitialCursor(job, i), buf, 0)
  {
  }

  lemma InitialTarget(job: Job, streams: seq<seq<byte>>, buf: seq<byte>, header: seq<byte>)
    requires SyncOk(job, streams) && |buf| == job.bufSize && |header| == job.headerSize
    ensures TargetOk(job, streams, InitialDisk(job, job.disks), NoRequest, buf, Window(0, job.sliceSize), 0, 0, header,
      header)
  {
  }

  /** Separate zeroed buffers. */
  method AllocBuffers(n: nat, size: nat) returns (bs: seq<array<byte>>)
    ensures |bs| == n && forall i :: 0 <= i < n ==> fresh(bs[i]) && bs[i].Length == size && AllZero(bs[i][..])
    ensures forall i, j :: 0 <= i < j < n ==> bs[i] != bs[j]
  {
    bs := [];
    for m := 0 to n
      invariant |bs| == m && forall i :: 0 <= i < m ==> fresh(bs[i]) && bs[i].Length == size && AllZero(bs[i][..])
      invariant forall i, j :: 0 <= i < j < m ==> bs[i] != bs[j]
    {
      var b := new byte[size](_ => 0);
      bs := bs + [b];
    }
  }

  class Slice {
    const job: Job
    ghost const streams: seq<seq<byte>>
    const bufs: seq<array<byte>>
    var disks: seq<SliceDisk>
    var cbs: seq<Aiocb>
    var writeStart: nat
    var writeSize: nat
    var work: seq<byte>               // the file being written
    var saved: seq<Saved>
    var hashArray: seq<HashPos>
    const hashSize: nat               // entries allocated: one per file of the slice
    ghost const prefix: seq<byte>     // what the work file starts with: the slice header, or nothing
    ghost var k: seq<nat>             // rows fetched so far, per disk
    ghost var done: nat               // bytes of the window folded into the target
    ghost var written: nat            // of those, bytes already in the work file

    /** A transfer before its first step. `header` is what the work file starts with. */
    constructor (job: Job, ghost streams: seq<seq<byte>>, header: seq<byte>)
      requires JobOk(job, streams) && ShapeOk(job, streams) && HashOk(job.hash)
      requires |header| == if job.Sync() then job.headerSize else 0
      ensures this.job == job && this.streams == streams && prefix == header
      ensures Ready() && done == 0 && fresh(bufs)
      ensures job.Sync() <==> disks[job.disk2write].fd > 0
    {
      var bs := AllocBuffers(job.disks + 1, job.bufSize);
      this.job, this.streams, this.prefix, work := job, streams, header, header;
      bufs := bs;
      disks := seq(job.disks + 1, i requires 0 <= i <= job.disks => InitialDisk(job, i));
      cbs := seq(job.disks + 1, _ => NoRequest);
      k := seq(job.disks + 1, i requires 0 <= i <= job.disks => InitialCursor(job, i));
      writeStart, writeSize, done, written, saved, hashArray := 0, 0, 0, 0, [], [];
      hashSize := RowCount(job, job.disks);
      new;
      InitiallyReady();
    }

    lemma InitiallyReady()
      requires JobOk(job, streams) && HashOk(job.hash) && Lens() && NoRequests()
      requires forall i :: 0 <= i <= job.disks ==>
        disks[i] == InitialDisk(job, i) && k[i] == InitialCursor(job, i) && AllZero(bufs[i][..])
      requires writeStart == writeSize == done == written == 0 && saved == [] && hashArray == [] && work == prefix
      requires hashSize == RowCount(job, job.disks) && |prefix| == if job.Sync() then job.headerSize else 0
      ensures Ready() && (job.Sync() <==> disks[job.disk2write].fd > 0)
    {
      hide ReaderOk, RestOk, HashDiskOk, Readable, TargetOk, HashOk;
      if job.Sync() {
        SyncFacts(job, streams);
        InitialTarget(job, streams, bufs[job.disks][..], prefix);
        forall i {:trigger job.IsReader(i)} | job.IsReader(i)
          ensures ReaderAt(i)
        {
          InitialReader(job, streams, i, bufs[i][..]);
        }
        forall i | 0 <= i < job.disks
          ensures HashDiskOk(job, i, disks[i], k[i], hashArray)
        {
          InitialReader(job, streams, i, bufs[i][..]);
        }
      } else {
        forall i {:trigger job.IsReader(i)} | job.IsReader(i)
          ensures RestOk(job, streams, i, disks[i], cbs[i], k[i], bufs[i][..], 0)
        {
          InitialRest(job, streams, i, bufs[i][..]);
        }
      }
    }

    ghost function Win(): Window
      reads this
    {
      if job.Sync() then Window(0, job.sliceSize) else Window(writeStart, writeStart + writeSize)
    }

    /** One buffer, request, state and cursor per disk; buffers are separate objects. */
    ghost predicate Lens()
      reads this
    {
      && ShapeOk(job, streams) && Buffers()
      && |disks| == |cbs| == |k| == job.disks + 1
      && (job.Sync() ==> writeStart == writeSize == 0)
    }

    ghost predicate Buffers() {
      && |bufs| == job.disks + 1
      && (forall i :: 0 <= i < |bufs| ==> bufs[i].Length == job.bufSize)
      && (forall i, j :: 0 <= i < j < |bufs| ==> bufs[i] != bufs[j])
    }

    ghost predicate ReaderAt(i: nat)
      requires Lens() && job.IsReader(i)
      reads this, bufs
    {
      ReaderOk(job, streams, i, disks[i], cbs[i], k[i], bufs[i][..], Win(), done)
    }

    ghost predicate QuietNow(i: nat)
      requires Lens() && job.IsReader(i)
      reads this
    {
      QuietAt(job, streams, i, disks[i], Win(), done)
    }

    /** Every source disk's hashing is in order, and the record mentions only source disks. */
    ghost predicate Hashes()
      requires ShapeOk(job, streams) && |disks| == |k| == job.disks + 1
      reads this
    {
      && hashSize == RowCount(job, job.disks)
      && (job.Sync() ==> forall i :: 0 <= i < job.disks ==> HashDiskOk(job, i, disks[i], k[i], hashArray))
      && (forall e :: e in hashArray ==> e.disk < job.disks)
    }

    /** Fetches rows of disk i until one is accepted; its index, or the number of rows. */
    method GetNextFile(i: nat, ghost from: nat) returns (idx: nat, start: int)
      requires i < |disks| && i < |job.rows| && from <= |job.rows[i]| && KeysAscend(job.rows[i])
      requires i == job.disk2write ==> |job.wanted| == |job.rows[i]|
      requires disks[i].seqNo == SeqAt(job.rows[i], from) && SizesFit(job, i, disks[i], from)
      modifies this`disks
      ensures from <= idx <= |job.rows[i]|
      ensures forall j :: from <= j < idx ==> !Accepts(job, i, j, writeStart)
      ensures idx < |job.rows[i]| ==>
        Accepts(job, i, idx, writeStart) && (job.Sync() || start == job.rows[i][idx].start)
      ensures disks == old(disks)[i := Fetched(job, i, old(disks[i]), idx, start)]
    {
      var rows := job.rows[i];
      ghost var c := from;
      start := *;                     // a sync does not select the start column
      while true
        invariant from <= c <= |rows|
        invariant disks == old(disks)[i := old(disks[i]).(seqNo := SeqAt(rows, c))]
        invariant forall j :: from <= j < c ==> !Accepts(job, i, j, writeStart)
        decreases |rows| - c
      {
        FirstAfterIsNext(rows, c);
        idx := FirstAfter(rows, disks[i].seqNo);
        if idx == |rows| {
          break;
        }
        disks := disks[i := disks[i].(seqNo := rows[idx].dseq)];
        c := c + 1;
        if !job.Sync() {
          start := rows[idx].start;
        }
        if Accepts(job, i, idx, writeStart) {
          break;
        }
      }
      if idx == |rows| {
        disks := disks[i := disks[i].(diskFinished := true)];
      } else {
        assert disks[i].fileSize == 0 || rows[idx].fsize <= disks[i].fileSize;   // "Improper file size" cannot happen
        disks := disks[i := disks[i].(fileSize := rows[idx].fsize, parityStart := start)];
      }
    }

    /** Records the hash of the file disk i has just finished; empty files get no entry. */
    method StoreHash(i: nat)
      requires ShapeOk(job, streams) && |disks| == |k| == job.disks + 1 && job.Sync() && i < job.disks
      requires Hashes() && disks[i].fd > 0
      modifies this`hashArray
      ensures hashArray == WithHash(job, i, disks[i], old(hashArray))
    {
      var d := disks[i];
      if d.fileSize != 0 {
        HashRoom(job, disks, k, hashArray, i);
        assert |hashArray| < hashSize;   // "Hash array too small" cannot happen
        hashArray := hashArray + [HashPos(d.seqNo, i, job.hash.digest(d.hashState))];
      }
    }

    /** Records the hash of the open file of disk i, if there is one, and closes it. */
    method CloseFinished(i: nat)
      requires ShapeOk(job, streams) && |disks| == |k| == job.disks + 1 && i < job.disks
      requires Hashes()
      modifies this`disks, this`hashArray
      ensures var d := old(disks[i]); disks == old(disks)[i := if d.fd > 0 then d.(fd := -1) else d]
      ensures var d := old(disks[i]);
        hashArray == if job.Sync() && d.fd > 0 then WithHash(job, i, d, old(hashArray)) else old(hashArray)
    {
      if disks[i].fd > 0 {
        if job.Sync() {
          StoreHash(i);
        }
        disks := disks[i := disks[i].(fd := -1)];
      }
    }

    /** Opens row idx of disk i, whose fields have just been fetched. */
    method OpenFetched(i: nat, idx: nat)
      requires i < |disks| && i < |job.rows| && idx < |job.rows[i]|
      modifies this`disks
      ensures var d := old(disks[i]);
        disks == old(disks)[i := Installed(job, d, idx, writeStart, writeSize)]
    {
      var d := disks[i].(bytes2transfer := disks[i].fileSize, fileOffset := 0);
      if job.Sync() {
        d := d.(hashState := job.hash.start);
      } else {
        d := FitTransfer(d, writeStart, writeSize);
      }
      disks := disks[i := d.(fd := idx + 1)];
    }

    /** Finishes the current file of disk i and opens the next one, if it is time and there is one. */
    method OpenNextFile(i: nat, ghost from: nat) returns (got: bool, ghost o: Outcome)
      requires Lens() && job.IsReader(i) && (i < job.disks ==> KeysAscend(job.rows[i]))
      requires from == k[i] <= |job.rows[i]| && disks[i].seqNo == SeqAt(job.rows[i], from)
      requires SizesFit(job, i, disks[i], from)
      requires Hashes()
      modifies this`disks, this`k, this`hashArray
      ensures o == Stays
        <==> i == job.disks || old(disks[i]).diskFinished || !FileFinished(old(disks[i]), writeStart, writeSize)
      ensures got == o.Opens? && OutcomeOk(job, i, from, o, writeStart)
      ensures disks == old(disks)[i := AfterOutcome(job, i, old(disks[i]), o, writeStart, writeSize)]
      ensures k == old(k)[i := CursorAfter(job, i, from, o)]
      ensures hashArray == HashesAfter(job, i, old(disks[i]), o, old(hashArray))
    {
      hide ShapeOk, HashDiskOk, OfDisk, RowCount, KeysAscend, Accepts, FileFinished;
      ShapeFacts(job, streams);
      if i == job.disks || disks[i].diskFinished || !FileFinished(disks[i], writeStart, writeSize) {
        return false, Stays;
      }
      CloseFinished(i);
      var idx, start := GetNextFile(i, from);
      got := idx < |job.rows[i]|;
      o := if got then Opens(idx, start) else Exhausted;
      if got {
        OpenFetched(i, idx);
      }
      k := k[i := CursorAfter(job, i, from, o)];
    }

    /** Opening the next file keeps the reader and the hash record in order. */
    method OpenNextIfDue(i: nat) returns (got: bool)
      requires Lens() && job.IsReader(i) && ReaderRowsOk(job, i) && Readable(job, streams, Win())
      requires ReaderAt(i) && cbs[i] == NoRequest && disks[i].bytes2transfer <= 0
      requires Hashes() && HashOk(job.hash)
      modifies this`disks, this`k, this`hashArray
      ensures Lens() && ReaderAt(i) && Hashes()
      ensures disks == old(disks)[i := disks[i]] && k == old(k)[i := k[i]]
      ensures disks[i].datalen == old(disks[i].datalen)
      ensures Attached(disks[i]) && (!got ==> QuietNow(i))
      ensures got ==> disks[i].fd > 0
      ensures got && disks[i].bytes2transfer <= 0 && (job.Sync() || old(disks[i].fd) > 0) ==> QuietNow(i)
    {
      hide ReaderOk, Readable, QuietAt, HashDiskOk, HashOk, OutcomeOk, AfterOutcome, FileFinished, MayAppend, ShapeOk,
        OfDisk, Record,
        RowCount, ReaderRowsOk, KeysAscend, Contiguous;
      ShapeFacts(job, streams);
      RowsFacts(job, i);
      ghost var d, c, buf, h := disks[i], k[i], bufs[i][..], hashArray;
      ghost var o;
      CursorInRange(job, streams, i, d, cbs[i], c, buf, Win(), done);
      SizesFollow(job, streams, i, d, cbs[i], c, buf, Win(), done);
      got, o := OpenNextFile(i, c);
      OutcomeKeepsReader(job, streams, i, d, c, buf, Win(), done, o, writeStart, writeSize);
      if job.Sync() {
        OutcomeKeepsHash(job, streams, i, d, c, buf, Win(), done, o, h);
        HashesAdvance(job, old(disks), old(k), h, i, disks[i], k[i], hashArray);
      }
    }

    /** A reader with bytes left, room in its buffer and no request yet. */
    ghost predicate CanRead(i: nat)
      requires Lens() && i <= job.disks
      reads this
    {
      cbs[i] == NoRequest && disks[i].bytes2transfer > 0 && disks[i].datalen < job.bufSize && !disks[i].diskFinished
    }

    /** Issues the read for what is left of the open file, as far as the buffer has room. */
    method IssueRead(i: nat)
      requires Lens() && job.IsReader(i) && ReaderRowsOk(job, i)
      requires ReaderAt(i) && cbs[i] == NoRequest && Win().hi <= job.sliceSize
      requires disks[i].bytes2transfer > 0 && disks[i].datalen < job.bufSize
      modifies this`cbs
      ensures Lens() && ReaderAt(i) && disks[i].fd > 0
      ensures cbs == old(cbs)[i := cbs[i]] && cbs[i].nbytes > 0 && !cbs[i].completed
    {
      hide ReaderOk, ShapeOk;
      ghost var d := disks[i];
      RequestKeepsReader(job, streams, i, d, k[i], bufs[i][..], Win(), done);
      var freeSpace := job.bufSize - disks[i].datalen;
      var rest := disks[i].bytes2transfer;
      var offset := disks[i].fileOffset;
      if i == job.disks {
        ParityRest(job, streams, d, cbs[i], k[i], bufs[i][..], Win(), done, writeStart, writeSize);
        rest := writeSize - (disks[i].fileOffset - writeStart);
        offset := offset + job.headerSize;
      }
      cbs := cbs[i := Aiocb(Min(rest, freeSpace), offset, false)];
    }

    /** Asks for the next bytes of a reading disk, opening its next file when the current one is used up. */
    method StartRead(i: nat)
      requires Lens() && job.IsReader(i) && ReaderRowsOk(job, i) && Readable(job, streams, Win())
      requires ReaderAt(i) && cbs[i] == NoRequest && Win().hi <= job.sliceSize
      requires Hashes() && HashOk(job.hash)
      modifies this`disks, this`k, this`hashArray, this`cbs
      ensures Lens() && ReaderAt(i) && Hashes()
      ensures disks == old(disks)[i := disks[i]] && k == old(k)[i := k[i]] && cbs == old(cbs)[i := cbs[i]]
      ensures disks[i].datalen == old(disks[i].datalen)
      ensures Attached(disks[i]) && !cbs[i].completed && (cbs[i].nbytes > 0 || cbs[i] == NoRequest)
      ensures cbs[i].nbytes > 0 || QuietNow(i) || (!job.Sync() && !Attached(old(disks[i])))
      ensures old(CanRead(i)) ==> cbs[i].nbytes > 0
    {
      hide ReaderOk, Readable, HashDiskOk, HashOk, ShapeOk, ReaderRowsOk;
      if disks[i].diskFinished {
        return;
      }
      if disks[i].bytes2transfer <= 0 {
        var got := OpenNextIfDue(i);
        if !got {
          return;
        }
      }
      CursorInRange(job, streams, i, disks[i], cbs[i], k[i], bufs[i][..], Win(), done);
      if disks[i].datalen >= job.bufSize || disks[i].bytes2transfer <= 0 {
        return;
      }
      IssueRead(i);
    }

    /** Copies what a read delivered behind the bytes already in the buffer of disk i. */
    method FillBuffer(i: nat, at: nat, data: seq<byte>)
      requires Buffers() && i < |bufs| && at + |data| <= job.bufSize
      modifies bufs[i]
      ensures forall x :: 0 <= x < job.bufSize ==>
        bufs[i][x] == if at <= x < at + |data| then data[x - at] else old(bufs[i][x])
    {
      forall x | 0 <= x < |data| {
        bufs[i][at + x] := data[x];
      }
    }

    /** A read of disk i completes with some number of bytes, at least one and possibly fewer than asked for. */
    method FinishRead(i: nat)
      requires Lens() && job.IsReader(i) && ReaderAt(i) && cbs[i].nbytes > 0
      requires Hashes() && HashOk(job.hash)
      modifies this`disks, this`cbs, bufs[i]
      ensures Lens() && ReaderAt(i) && Hashes()
      ensures disks == old(disks)[i := disks[i]] && cbs == old(cbs)[i := NoRequest]
      ensures disks[i].datalen > old(disks[i].datalen)
      ensures Attached(disks[i]) == old(Attached(disks[i]))
      ensures Pos(TaskOf(job, streams, i, Win(), done), disks[i]) <= Hi(|streams[i]|, Win())
    {
      hide ReaderOk, HashDiskOk, HashOk, ShapeOk, OfDisk, RowCount, Record;
      ShapeFacts(job, streams);
      ghost var d, cb, buf := disks[i], cbs[i], bufs[i][..];
      ReadInBounds(job, streams, i, d, cb, k[i], buf, Win(), done);
      var len: nat :| 1 <= len <= cbs[i].nbytes;
      var data := job.files[i][disks[i].fd - 1][cbs[i].offset..cbs[i].offset + len];
      var h := if job.Sync() then job.hash.update(disks[i].hashState, data) else disks[i].hashState;
      FillBuffer(i, disks[i].datalen, data);
      disks := disks[i := Deliver(disks[i], len, h)];
      cbs := cbs[i := NoRequest];
      ArrivalKeepsReader(job, streams, i, d, cb, k[i], buf, Win(), done, data, bufs[i][..], h);
      if job.Sync() {
        HashFollowsFile(job, i, d, k[i], hashArray, data);
      }
    }

    // ---------------------------------------------------------------- the target

    ghost predicate TargetOpen()
      requires Lens()
      reads this, bufs
    {
      TargetOk(job, streams, disks[job.disk2write], cbs[job.disk2write], bufs[job.disk2write][..], Win(), done, written,
        prefix, work)
    }

    /** Asks for the buffered bytes to be written behind those already in the work file. */
    method StartWrite()
      requires Lens() && cbs[job.disk2write] == NoRequest
      requires disks[job.disk2write].datalen > 0 ==> TargetOpen()
      modifies this`cbs
      ensures Lens() && (old(TargetOpen()) ==> TargetOpen())
      ensures cbs == old(cbs)[job.disk2write := cbs[job.disk2write]] && !cbs[job.disk2write].completed
      ensures cbs[job.disk2write].nbytes == disks[job.disk2write].datalen
      ensures cbs[job.disk2write].nbytes > 0 || cbs[job.disk2write] == NoRequest
    {
      var dw := job.disk2write;
      if disks[dw].datalen != 0 {
        cbs := cbs[dw := Aiocb(disks[dw].datalen, disks[dw].fileOffset, false)];
      }
    }

    /** The write completes: the buffer is cleared and the work file has grown by its contents. */
    method FinishWrite()
      requires Lens() && TargetOpen() && cbs[job.disk2write].nbytes > 0
      modifies this`disks, this`cbs, this`work, this`written, bufs[job.disk2write]
      ensures Lens() && TargetOpen() && written == done && old(disks[job.disk2write].datalen) > 0
      ensures disks[job.disk2write].fd > 0
      ensures var dw, d := job.disk2write, old(disks[job.disk2write]);
        && disks == old(disks)[dw := d.(datalen := 0, fileOffset := d.fileOffset + d.datalen,
                                        bytes2transfer := d.bytes2transfer - d.datalen)]
        && cbs == old(cbs)[dw := NoRequest]
      ensures forall x :: 0 <= x < old(disks[job.disk2write].datalen) ==> bufs[job.disk2write][x] == 0
    {
      var dw := job.disk2write;
      ghost var d, cb, buf, w := disks[dw], cbs[dw], bufs[dw][..], Win();
      var len := disks[dw].datalen;
      var data := bufs[dw][..len];
      assert data == buf[..len];
      ghost var d2 := d.(datalen := 0, fileOffset := d.fileOffset + d.datalen,
                         bytes2transfer := d.bytes2transfer - d.datalen);
      WriteKeepsTarget(job, streams, d, cb, buf, w, done, written, prefix, work, d2, buf);
      work := WriteAt(work, disks[dw].fileOffset, data);
      forall x | 0 <= x < len {
        bufs[dw][x] := 0;
      }
      disks := disks[dw := disks[dw].(datalen := 0, fileOffset := disks[dw].fileOffset + len,
                                      bytes2transfer := disks[dw].bytes2transfer - len)];
      cbs := cbs[dw := NoRequest];
      written := done;
      assert bufs[dw][..0] == [];
    }

    // ---------------------------------------------------------------- one pass over one disk

    ghost predicate Readers()
      requires Lens()
      reads this, bufs
    {
      forall i {:trigger job.IsReader(i)} :: job.IsReader(i) ==> ReaderAt(i)
    }

    /** A control block is cleared when no request is outstanding. */
    ghost predicate CleanRequests()
      reads this
    {
      forall i :: 0 <= i < |cbs| ==> cbs[i].nbytes > 0 || cbs[i] == NoRequest
    }

    ghost predicate Settled(i: nat)
      requires Lens() && job.IsReader(i)
      reads this
    {
      cbs[i].nbytes > 0 || QuietNow(i)
    }

    /** What holds throughout the passes over the disks. */
    ghost predicate Steady()
      reads this, bufs
    {
      && Lens() && HashOk(job.hash) && Hashes() && Readers() && CleanRequests()
      && Win().hi <= job.sliceSize && Readable(job, streams, Win())
      && (forall i {:trigger job.IsReader(i)} :: job.IsReader(i) ==> ReaderRowsOk(job, i))
    }

    /** One look at a reading disk: take what has arrived, and ask for more. */
    method ServiceReader(i: nat)
      requires Steady() && job.IsReader(i)
      modifies this`disks, this`k, this`hashArray, this`cbs, bufs[i]
      ensures Lens() && ReaderAt(i) && Hashes() && CleanRequests()
      ensures disks == old(disks)[i := disks[i]] && k == old(k)[i := k[i]] && cbs == old(cbs)[i := cbs[i]]
      ensures disks[i].datalen >= old(disks[i].datalen)
      ensures old(cbs[i].nbytes > 0 && cbs[i].completed) ==> disks[i].datalen > old(disks[i].datalen)
      ensures Attached(disks[i])
      ensures Settled(i) || (!job.Sync() && !old(Attached(disks[i])))
      ensures old(CanRead(i)) ==> cbs[i].nbytes > 0
    {
      hide ReaderOk, Readable, HashDiskOk, HashOk, ReaderRowsOk;
      assert ReaderAt(i) && ReaderRowsOk(job, i) by {
        assert job.IsReader(i);
      }
      CursorInRange(job, streams, i, disks[i], cbs[i], k[i], bufs[i][..], Win(), done);
      if disks[i].diskFinished {
        return;
      }
      if cbs[i].nbytes > 0 {
        var inProgress := *;
        if !cbs[i].completed && inProgress {
          return;
        }
        FinishRead(i);
      }
      StartRead(i);
    }

    // ---------------------------------------------------------------- restored files

    /** The bookkeeping of a restore: everything wanted before the current target has been saved. */
    ghost predicate Book()
      requires Lens()
      reads this
    {
      var dw := job.disk2write;
      BookOk(job, streams, disks[dw], cbs[dw], k[dw], Win(), writeSize, saved, prefix)
    }

    /** Saves the completed work file; the target is closed. */
    method FinishTarget()
      requires Lens() && !job.Sync() && Book() && TargetOpen()
      requires disks[job.disk2write].bytes2transfer <= 0 && cbs[job.disk2write] == NoRequest
      modifies this`disks, this`saved
      ensures Lens() && Book() && disks[job.disk2write].fd <= 0 && done == writeSize
      ensures disks == old(disks)[job.disk2write := old(disks[job.disk2write]).(fd := -1, fileSize := 0,
        parityStart := 0)]
      ensures disks[job.disk2write].datalen == 0
    {
      var dw := job.disk2write;
      assert work == XorWindow(streams, dw, writeStart, writeSize);
      saved := saved + [Saved(disks[dw].seqNo, work)];
      disks := disks[dw := disks[dw].(fd := -1, fileSize := 0, parityStart := 0)];
    }

    /** Every reader rests behind slice position hi, with no request outstanding. */
    ghost predicate ReadersRest(hi: nat)
      requires Lens()
      reads this, bufs
    {
      forall i {:trigger job.IsReader(i)} :: job.IsReader(i) ==>
        RestOk(job, streams, i, disks[i], cbs[i], k[i], bufs[i][..], hi)
    }

    /** Opens an empty work file for the fetched row; its extent becomes the window. */
    method BeginTarget(start: nat)
      requires Lens() && !job.Sync() && prefix == []
      requires disks[job.disk2write].datalen == 0 && cbs[job.disk2write] == NoRequest
      modifies this`disks, this`work, this`writeStart, this`writeSize, this`done, this`written
      ensures Lens() && TargetOpen() && done == written == 0
      ensures writeStart == start && writeSize == old(disks[job.disk2write].fileSize)
      ensures var dw, pd := job.disk2write, job.disks;
        disks == old(disks)[dw := old(disks[dw]).(bytes2transfer := old(disks[dw]).fileSize, fileOffset := 0, fd := 1)]
                           [pd := old(disks[pd]).(fileOffset := start)]
    {
      var dw := job.disk2write;
      disks := disks[dw := disks[dw].(bytes2transfer := disks[dw].fileSize, fileOffset := 0, fd := 1)];
      work := [];
      writeStart, writeSize := start, disks[dw].fileSize;
      disks := disks[job.disks := disks[job.disks].(fileOffset := writeStart)];
      done, written := 0, 0;
    }

    /** Fetches the next wanted row and makes its file the target. */
    method OpenTarget() returns (got: bool)
      requires Lens() && !job.Sync() && Book() && disks[job.disk2write].fd <= 0
      requires KeysAscend(job.rows[job.disk2write]) && Contiguous(job.rows[job.disk2write])
      modifies this`disks, this`k, this`work, this`writeStart, this`writeSize, this`done, this`written
      ensures Lens() && Book() && (got <==> disks[job.disk2write].fd > 0)
      ensures !got ==> k[job.disk2write] == |job.rows[job.disk2write]|
      ensures !got ==> writeStart == old(writeStart) && writeSize == old(writeSize)
      ensures got ==> TargetOpen() && done == written == 0 && disks[job.disk2write].bytes2transfer == writeSize
      ensures got ==> Win().lo >= old(Win().hi) && k[job.disk2write] > old(k[job.disk2write])
      ensures k == old(k)[job.disk2write := k[job.disk2write]]
      ensures disks == old(disks)[job.disk2write := disks[job.disk2write]][job.disks := disks[job.disks]]
      ensures disks[job.disks] == old(disks[job.disks]).(fileOffset := disks[job.disks].fileOffset)
    {
      hide TargetOk, KeysAscend, ShapeOk, Accepts, BookOk, Contiguous;
      ShapeFacts(job, streams);
      var dw := job.disk2write;
      ghost var d, c := disks[dw], k[dw];
      BookFacts(job, streams, d, cbs[dw], c, Win(), writeSize, saved, prefix);
      if disks[dw].diskFinished {
        return false;
      }
      var idx, start := GetNextFile(dw, c);
      BookTurns(job, streams, d, cbs[dw], c, Win(), writeSize, saved, prefix, writeStart, idx, start);
      got := idx < |job.rows[dw]|;
      k := k[dw := if got then idx + 1 else idx];
      if got {
        BeginTarget(start);
      }
    }

    /** Re-clips every reader to the new target's window. */
    method NewTargetFile(ghost hi: nat)
      requires Lens() && !job.Sync() && ReadersRest(hi) && done == 0
      requires hi <= Win().lo && Win().hi <= job.sliceSize && Readable(job, streams, Win())
      requires job.rows[job.disks] == [Row(0, job.sliceSize, 0)]
      modifies this`disks
      ensures Lens() && Readers() && disks[job.disk2write] == old(disks[job.disk2write])
      ensures forall i {:trigger job.IsReader(i)} :: job.IsReader(i) ==> disks[i].datalen == 0
      ensures disks[job.disks].bytes2transfer == writeSize
    {
      hide ReaderOk, RestOk, Readable;
      ghost var w := Win();
      for i := 0 to job.disks + 1
        invariant |disks| == job.disks + 1 && Lens() && Win() == w
        invariant forall j :: i <= j <= job.disks ==> disks[j] == old(disks[j])
        invariant disks[job.disk2write] == old(disks[job.disk2write])
        invariant forall j {:trigger job.IsReader(j)} :: job.IsReader(j) && j < i ==>
          ReaderAt(j) && disks[j].datalen == 0
        invariant i == job.disks + 1 ==> disks[job.disks].bytes2transfer == writeSize
      {
        if i != job.disk2write {
          assert job.IsReader(i);
          ghost var d, buf := disks[i], bufs[i][..];
          RetargetKeeps(i, hi);
          disks := disks[i := disks[i].(diskFinished := false)];
          if Involved(writeStart, writeSize, disks[i].parityStart, disks[i].fileSize) {
            disks := disks[i := disks[i].(bytes2transfer := disks[i].fileSize, fileOffset := 0)];
            disks := disks[i := FitTransfer(disks[i], writeStart, writeSize)];
          } else if disks[i].fd > 0 {
            disks := disks[i := disks[i].(fd := -1)];
          }
          assert disks[i] == Retarget(d, writeStart, writeSize);
        }
      }
    }

    lemma RetargetKeeps(i: nat, hi: nat)
      requires Lens() && !job.Sync() && job.IsReader(i) && done == 0
      requires RestOk(job, streams, i, disks[i], cbs[i], k[i], bufs[i][..], hi)
      requires hi <= Win().lo && Win().hi <= job.sliceSize && Readable(job, streams, Win())
      requires job.rows[job.disks] == [Row(0, job.sliceSize, 0)]
      ensures var r := Retarget(disks[i], writeStart, writeSize);
        && ReaderOk(job, streams, i, r, cbs[i], k[i], bufs[i][..], Win(), done) && r.datalen == 0
        && (i == job.disks ==> r.bytes2transfer == writeSize)
    {
      hide ReaderOk, RestOk, Readable, Retarget;
      if i == job.disks {
        RetargetKeepsParity(job, streams, disks[i], cbs[i], k[i], bufs[i][..], hi, Win());
      } else {
        RetargetKeepsDataDisk(job, streams, i, disks[i], cbs[i], k[i], bufs[i][..], hi, Win());
      }
    }

    /** When the last folded byte of the window is in, the readers rest. */
    lemma AllRest()
      requires Steady() && !job.Sync() && done == writeSize
      ensures ReadersRest(Win().hi)
      ensures forall i {:trigger job.IsReader(i)} :: job.IsReader(i) ==> cbs[i].nbytes == 0
    {
      hide ReaderOk, RestOk, Readable;
      forall i {:trigger job.IsReader(i)} | job.IsReader(i)
        ensures RestOk(job, streams, i, disks[i], cbs[i], k[i], bufs[i][..], Win().hi) && cbs[i].nbytes == 0
      {
        assert ReaderAt(i);
        DoneReaderRests(job, streams, i, disks[i], cbs[i], k[i], bufs[i][..], Win(), done);
        RestHasNoRequest(job, streams, i, disks[i], cbs[i], k[i], bufs[i][..], Win().hi);
      }
    }

    /**
     * Waits until some outstanding request has completed; others may complete meanwhile. Tells whether
     * any was outstanding.
     */
    method Suspend() returns (pending: bool, ghost p: nat)
      requires CleanRequests()
      modifies this`cbs
      ensures |cbs| == |old(cbs)| && CleanRequests()
      ensures forall i :: 0 <= i < |cbs| ==> cbs[i] == old(cbs[i]).(completed := cbs[i].completed)
      ensures pending ==> p < |cbs| && cbs[p].nbytes > 0 && cbs[p].completed
      ensures !pending ==> forall i :: 0 <= i < |cbs| ==> cbs[i] == NoRequest
    {
      pending, p := false, 0;
      var first := 0;
      for i := 0 to |cbs|
        invariant |cbs| == |old(cbs)| && CleanRequests()
        invariant forall j :: 0 <= j < |cbs| ==> cbs[j] == old(cbs[j]).(completed := cbs[j].completed)
        invariant pending ==> first < i && cbs[first].nbytes > 0
        invariant !pending ==> forall j :: 0 <= j < i ==> cbs[j] == NoRequest
      {
        if cbs[i].nbytes > 0 {
          var arrived := *;
          if arrived {
            cbs := cbs[i := cbs[i].(completed := true)];
          }
          pending, first := true, i;
        }
      }
      if pending {
        cbs := cbs[first := cbs[first].(completed := true)];
        p := first;
      }
    }

    /** The target is open and in order, or (between two restored files) closed with nothing left to fold. */
    ghost predicate TargetState()
      requires Lens()
      reads this, bufs
    {
      if job.Sync() then TargetOpen()
      else Book() && if disks[job.disk2write].fd > 0 then TargetOpen() && disks[job.disk2write].bytes2transfer > 0
                     else done == writeSize
    }

    /** One look at the target: take a completed write, or start writing what has been folded. */
    method ServiceTarget()
      requires Steady() && TargetState()
      modifies this`disks, this`cbs, this`work, this`written, this`saved, bufs[job.disk2write]
      ensures Steady() && TargetState()
      ensures disks == old(disks)[job.disk2write := disks[job.disk2write]]
      ensures cbs == old(cbs)[job.disk2write := cbs[job.disk2write]]
      ensures disks[job.disk2write].datalen <= old(disks[job.disk2write].datalen)
      ensures old(cbs[job.disk2write].nbytes > 0 && cbs[job.disk2write].completed)
        ==> disks[job.disk2write].datalen < old(disks[job.disk2write].datalen)
      ensures cbs[job.disk2write].nbytes > 0 || disks[job.disk2write].datalen == 0
    {
      hide ReaderOk, Readable, HashDiskOk, HashOk, ReaderRowsOk, TargetOk, RowWindow, ShapeOk, SavedUpTo, RowCount,
        OfDisk, End, SeqAt;
      ShapeFacts(job, streams);
      var dw := job.disk2write;
      if cbs[dw].nbytes == 0 {
        StartWrite();
      } else {
        var inProgress := *;
        if cbs[dw].completed || !inProgress {
          FinishWrite();
          if disks[dw].bytes2transfer <= 0 && !job.Sync() {
            FinishTarget();
          }
        }
      }
      assert Readers() by {
        forall i {:trigger job.IsReader(i)} | job.IsReader(i)
          ensures ReaderAt(i)
        {
          assert old(ReaderAt(i));
        }
      }
    }

    /** Bytes that can still move before this round must end. */
    ghost function Left(): nat
      requires Lens()
      reads this
    {
      LeftUpTo(job, streams, Win(), done, disks, job.disks + 1)
    }

    /** A pass over one reading disk inside the whole. */
    method PassReader(i: nat)
      requires Steady() && TargetState() && job.IsReader(i)
      modifies this`disks, this`k, this`hashArray, this`cbs, bufs[i]
      ensures Steady() && TargetState()
      ensures disks == old(disks)[i := disks[i]] && k == old(k)[i := k[i]] && cbs == old(cbs)[i := cbs[i]]
      ensures disks[i].datalen >= old(disks[i].datalen)
      ensures old(cbs[i].nbytes > 0 && cbs[i].completed) ==> disks[i].datalen > old(disks[i].datalen)
      ensures Attached(disks[i]) && (Settled(i) || (!job.Sync() && !old(Attached(disks[i]))))
      ensures old(CanRead(i)) ==> cbs[i].nbytes > 0
    {
      hide ReaderOk, Readable, HashDiskOk, HashOk, ReaderRowsOk, TargetOk, Quiet, RowWindow;
      ServiceReader(i);
      assert Readers() by {
        forall j {:trigger job.IsReader(j)} | job.IsReader(j)
          ensures ReaderAt(j)
        {
          assert j != i ==> old(ReaderAt(j));
        }
      }
    }

    /** One look at disk i, whichever side of the transfer it is on. */
    method Service(i: nat)
      requires Steady() && TargetState() && i <= job.disks
      modifies this`disks, this`k, this`hashArray, this`cbs, this`work, this`written, this`saved, bufs[i]
      ensures Steady() && TargetState()
      ensures disks == old(disks)[i := disks[i]] && k == old(k)[i := k[i]] && cbs == old(cbs)[i := cbs[i]]
      ensures i == job.disk2write ==> k == old(k) && (cbs[i].nbytes > 0 || disks[i].datalen == 0)
      ensures i != job.disk2write ==>
        Attached(disks[i]) && (Settled(i) || (!job.Sync() && !old(Attached(disks[i]))))
          && (old(CanRead(i)) ==> cbs[i].nbytes > 0)
      ensures Left() <= old(Left())
      ensures old(cbs[i].nbytes > 0 && cbs[i].completed) ==> Left() < old(Left())
    {
      hide ReaderOk, Readable, HashDiskOk, HashOk, ReaderRowsOk, TargetOk, Quiet, RowWindow, TargetState, Hashes;
      ghost var before := disks;
      if i == job.disk2write {
        ServiceTarget();
      } else {
        ReaderLeft(i);
        PassReader(i);
        ReaderLeft(i);
      }
      LeftChanges(job, streams, Win(), done, before, i, disks[i], job.disks + 1);
    }

    /** The share of a reader in the work left is its unread window bytes. */
    lemma ReaderLeft(i: nat)
      requires Lens() && Readers() && job.IsReader(i)
      ensures LeftOf(job, streams, i, Win(), done, disks[i].datalen)
           == Hi(|streams[i]|, Win()) - Base(|streams[i]|, Win(), done) - disks[i].datalen
    {
      assert ReaderAt(i);
    }

    ghost predicate AllAttached()
      requires Lens()
      reads this
    {
      forall i {:trigger job.IsReader(i)} :: job.IsReader(i) ==> Attached(disks[i])
    }

    ghost predicate AllSettled()
      requires Lens()
      reads this
    {
      && (forall i {:trigger job.IsReader(i)} :: job.IsReader(i) ==> Settled(i))
      && (cbs[job.disk2write].nbytes > 0 || disks[job.disk2write].datalen == 0)
    }

    /** One pass over all disks. If request p had completed, bytes have moved. */
    method Pass(ghost someDone: bool, ghost p: nat)
      requires Steady() && TargetState()
      requires someDone ==> p <= job.disks && cbs[p].nbytes > 0 && cbs[p].completed
      modifies this`disks, this`k, this`hashArray, this`cbs, this`work, this`written, this`saved, bufs
      ensures Steady() && TargetState()
      ensures k[job.disk2write] == old(k[job.disk2write])
      ensures AllAttached() && (job.Sync() || old(AllAttached()) ==> AllSettled())
      ensures !job.Sync() && old(CanRead(job.disks)) ==> cbs[job.disks].nbytes > 0
      ensures Left() <= old(Left()) && (someDone ==> Left() < old(Left()))
    {
      hide ReaderOk, Readable, HashDiskOk, HashOk, ReaderRowsOk, TargetOk, QuietAt, ShapeOk, LeftUpTo, RowCount, OfDisk,
        SavedUpTo, RowWindow;
      ShapeFacts(job, streams);
      for i := 0 to job.disks + 1
        invariant Steady() && TargetState()
        invariant k[job.disk2write] == old(k[job.disk2write])
        invariant forall j :: i <= j <= job.disks ==> disks[j] == old(disks[j]) && cbs[j] == old(cbs[j])
        invariant forall j {:trigger job.IsReader(j)} :: job.IsReader(j) && j < i ==>
          && Attached(disks[j]) && (Settled(j) || (!job.Sync() && !old(Attached(disks[j]))))
          && (old(CanRead(j)) ==> cbs[j].nbytes > 0)
        invariant i > job.disk2write ==> cbs[job.disk2write].nbytes > 0 || disks[job.disk2write].datalen == 0
        invariant Left() <= old(Left()) && (someDone && i > p ==> Left() < old(Left()))
      {
        Service(i);
      }
      assert !job.Sync() ==> job.IsReader(job.disks);
    }

    // ---------------------------------------------------------------- waiting for the buffers

    ghost predicate NoRequests()
      reads this
    {
      forall i :: 0 <= i < |cbs| ==> cbs[i] == NoRequest
    }

    /** Between two calls of Wait4Buffers. */
    ghost predicate Ready()
      reads this, bufs
    {
      && Lens() && HashOk(job.hash) && Hashes() && NoRequests()
      && if job.Sync() then Steady() && TargetOpen() && disks[job.disk2write].fd > 0
         else Book() && if disks[job.disk2write].fd > 0 then Steady() && TargetState() && AllAttached()
           else ReadersRest(Win().hi)
    }

    /** The window of a wanted row lies in the slice and everything it needs is readable. */
    lemma WindowInSlice()
      requires Lens() && RestoreOk(job, streams) && Book() && disks[job.disk2write].fd > 0
      ensures Win().hi <= job.sliceSize && Readable(job, streams, Win())
    {
      var rows, c := job.rows[job.disk2write], k[job.disk2write];
      EndMono(rows, c, |rows|);
      assert rows[c - 1].start == End(rows, c - 1);
    }

    /** Opening a target touches no reader but the parity reader's offset. */
    lemma RestSurvives(before: seq<SliceDisk>, hi: nat)
      requires Lens() && !job.Sync() && |before| == |disks|
      requires forall i {:trigger job.IsReader(i)} :: job.IsReader(i) ==>
        RestOk(job, streams, i, before[i], cbs[i], k[i], bufs[i][..], hi)
      requires forall i :: 0 <= i < job.disks && i != job.disk2write ==> disks[i] == before[i]
      requires disks[job.disks] == before[job.disks].(fileOffset := disks[job.disks].fileOffset)
      ensures ReadersRest(hi)
    {
      hide RestOk;
      forall i {:trigger job.IsReader(i)} | job.IsReader(i)
        ensures RestOk(job, streams, i, disks[i], cbs[i], k[i], bufs[i][..], hi)
      {
        RestIgnoresOffset(job, streams, i, before[i], disks[i], cbs[i], k[i], bufs[i][..], hi);
      }
    }

    /** Turns all readers to the window of the target that has just been opened. */
    method TurnReaders(ghost hi: nat)
      requires RestoreOk(job, streams) && Lens() && HashOk(job.hash) && Hashes() && NoRequests()
      requires Book() && TargetOpen() && disks[job.disk2write].fd > 0 && done == 0
      requires ReadersRest(hi) && hi <= Win().lo
      modifies this`disks
      ensures Steady() && TargetOpen() && Book()
      ensures disks[job.disk2write] == old(disks[job.disk2write])
      ensures disks[job.disks].bytes2transfer == writeSize && disks[job.disks].datalen == 0
    {
      hide ReaderOk, RestOk, Readable, TargetOk, HashOk, KeysAscend, Contiguous, RowWindow, RestoreOk, ReaderRowsOk,
        HashDiskOk;
      RestoreFacts(job, streams);
      WindowInSlice();
      NewTargetFile(hi);
      assert job.IsReader(job.disks);
    }

    /** Makes the next wanted file the target. */
    method NextTarget() returns (got: bool)
      requires RestoreOk(job, streams) && Lens() && HashOk(job.hash) && Hashes() && NoRequests()
      requires Book() && disks[job.disk2write].fd <= 0 && ReadersRest(Win().hi)
      modifies this`disks, this`k, this`work, this`writeStart, this`writeSize, this`done, this`written
      ensures Lens() && Book() && (got <==> disks[job.disk2write].fd > 0)
      ensures !got ==> k[job.disk2write] == |job.rows[job.disk2write]|
      ensures got ==> Steady() && TargetOpen() && done == 0 && k[job.disk2write] > old(k[job.disk2write])
      ensures got ==> disks[job.disks].bytes2transfer == writeSize && disks[job.disks].datalen == 0
      ensures got ==> disks[job.disk2write].bytes2transfer == writeSize
    {
      hide ReaderOk, RestOk, Readable, TargetOk, HashOk, KeysAscend, Contiguous, RowWindow, RestoreOk, ReaderRowsOk,
        HashDiskOk, SavedUpTo;
      ghost var hi, before := Win().hi, disks;
      RestoreFacts(job, streams);
      got := OpenTarget();
      if got {
        RestSurvives(before, hi);
        TurnReaders(hi);
      }
    }

    /** An empty target is complete as soon as it is open. */
    method SaveEmpty()
      requires Steady() && !job.Sync() && Book() && TargetOpen() && NoRequests()
      requires done == writeSize && disks[job.disk2write].bytes2transfer <= 0
      modifies this`disks, this`saved
      ensures Lens() && Hashes() && Book() && disks[job.disk2write].fd <= 0 && ReadersRest(Win().hi)
    {
      hide ReaderOk, RestOk, Readable, TargetOk, HashOk, ReaderRowsOk, RowWindow, HashDiskOk, SavedUpTo;
      AllRest();
      FinishTarget();
    }

    /** Opens the next wanted file with contents; wanted empty files on the way are saved at once. */
    method SeekTarget() returns (got: bool)
      requires RestoreOk(job, streams) && Ready() && disks[job.disk2write].fd <= 0
      modifies this`disks, this`k, this`work, this`saved, this`writeStart, this`writeSize, this`done, this`written
      ensures Lens() && Book() && NoRequests()
      ensures !got ==> disks[job.disk2write].fd <= 0 && k[job.disk2write] == |job.rows[job.disk2write]|
      ensures got ==> Steady() && TargetState() && disks[job.disk2write].fd > 0 && CanRead(job.disks)
      ensures got ==> k[job.disk2write] > old(k[job.disk2write])
    {
      hide ReaderOk, RestOk, Readable, TargetOk, HashOk, ReaderRowsOk, RowWindow, RestoreOk, HashDiskOk, SavedUpTo;
      RestoreFacts(job, streams);
      var dw := job.disk2write;
      while disks[dw].fileSize == 0
        invariant Lens() && Book() && NoRequests()
        invariant k[dw] >= old(k[dw])
        invariant if disks[dw].fd > 0 then disks[dw].bytes2transfer > 0 && 0 < disks[dw].fileSize && Steady()
          && TargetOpen() && CanRead(job.disks) && k[dw] > old(k[dw])
                  else Hashes() && disks[dw].fileSize == 0 && ReadersRest(Win().hi)
        decreases |job.rows[dw]| - k[dw]
      {
        got := NextTarget();
        if !got {
          return;
        }
        ParityCanRead();
        if disks[dw].fileSize == 0 {
          SaveEmpty();
        }
      }
      got := true;
    }

    /** The parity reader of a window that has just been opened has the whole window to read. */
    lemma ParityCanRead()
      requires Steady() && !job.Sync() && NoRequests()
      requires disks[job.disks].bytes2transfer == writeSize && disks[job.disks].datalen == 0
      ensures writeSize > 0 ==> CanRead(job.disks)
    {
      assert job.IsReader(job.disks);
      assert ReaderAt(job.disks);
    }

    /** The buffers are as full as this round can make them and everything folded before has been written. */
    ghost predicate Full()
      reads this, bufs
    {
      && Steady() && TargetState() && NoRequests() && AllAttached()
      && (forall i {:trigger job.IsReader(i)} :: job.IsReader(i) ==> QuietNow(i))
      && disks[job.disk2write].datalen == 0
    }

    /** Nothing can be outstanding once the target is closed. */
    lemma ClosedMeansIdle()
      requires Steady() && TargetState() && !job.Sync() && disks[job.disk2write].fd <= 0
      ensures NoRequests()
    {
      hide ReaderOk, Readable, TargetOk, HashOk, ReaderRowsOk;
      AllRest();
      forall i | 0 <= i < |cbs|
        ensures cbs[i] == NoRequest
      {
        assert job.IsReader(i) || i == job.disk2write;
      }
    }

    /** Waiting disturbs nothing; only an open target has anything to wait for. */
    method Await() returns (again: bool, ghost q: nat)
      requires Steady() && TargetState()
      modifies this`cbs
      ensures Steady() && TargetState()
      ensures forall i :: 0 <= i <= job.disks ==> cbs[i].nbytes == old(cbs[i].nbytes)
      ensures again ==> q <= job.disks && cbs[q].nbytes > 0 && cbs[q].completed && disks[job.disk2write].fd > 0
      ensures !again ==> NoRequests()
    {
      hide ReaderOk, Readable, HashOk, ReaderRowsOk, RowWindow, HashDiskOk, SavedUpTo, QuietAt, TargetOk;
      var dw := job.disk2write;
      ghost var before := cbs;
      if !job.Sync() && disks[dw].fd <= 0 {
        ClosedMeansIdle();
      }
      again, q := Suspend();
      AfterSuspend(before);
      if job.Sync() || disks[dw].fd > 0 {
        CompletionKeepsTarget(job, streams, disks[dw], before[dw], cbs[dw], bufs[dw][..], Win(), done, written, prefix,
          work);
      }
    }

    /** A pass followed by a wait. Either some request is now complete, or the buffers are full. */
    method PassAndAwait(ghost someDone: bool, ghost p: nat) returns (again: bool, ghost q: nat)
      requires Steady() && TargetState()
      requires someDone ==> p <= job.disks && cbs[p].nbytes > 0 && cbs[p].completed
      requires job.Sync() || AllAttached() || CanRead(job.disks)
      modifies this`disks, this`k, this`hashArray, this`cbs, this`work, this`written, this`saved, bufs
      ensures Steady() && TargetState() && AllAttached()
      ensures k[job.disk2write] == old(k[job.disk2write])
      ensures Left() <= old(Left()) && (someDone ==> Left() < old(Left()))
      ensures again ==> q <= job.disks && cbs[q].nbytes > 0 && cbs[q].completed && disks[job.disk2write].fd > 0
      ensures !again ==> Full()
    {
      hide ReaderOk, Readable, HashOk, ReaderRowsOk, RowWindow, HashDiskOk, SavedUpTo, QuietAt, TargetOk, TargetState;
      Pass(someDone, p);
      again, q := Await();
    }

    /** Completions recorded by Suspend disturb nothing. */
    lemma AfterSuspend(before: seq<Aiocb>)
      requires Lens() && |before| == |cbs| && CleanRequests()
      requires forall i :: 0 <= i < |cbs| ==> cbs[i] == before[i].(completed := cbs[i].completed)
      requires forall i {:trigger job.IsReader(i)} :: job.IsReader(i) ==>
        ReaderOk(job, streams, i, disks[i], before[i], k[i], bufs[i][..], Win(), done)
      ensures Readers()
    {
      hide ReaderOk;
      forall i {:trigger job.IsReader(i)} | job.IsReader(i)
        ensures ReaderAt(i)
      {
        CompletionKeepsReader(job, streams, i, disks[i], before[i], cbs[i], k[i], bufs[i][..], Win(), done);
      }
    }

    /**
     * Fills every input buffer as far as the window allows, while what was folded before is written out;
     * a restore first opens its next target when it has none. Returns -1 when there is none left.
     */
    method Wait4Buffers() returns (rv: int)
      requires JobOk(job, streams) && Ready()
      modifies this`disks, this`k, this`hashArray, this`cbs, this`work, this`saved, this`writeStart, this`writeSize,
               this`done, this`written, bufs
      ensures rv == -1 || rv == 0
      ensures rv < 0 ==> Lens() && !job.Sync() && Book() && disks[job.disk2write].fd <= 0
                         && k[job.disk2write] == |job.rows[job.disk2write]|
      ensures rv >= 0 ==> Full()
      ensures rv >= 0 && old(disks[job.disk2write].fd) <= 0 ==> k[job.disk2write] > old(k[job.disk2write])
      ensures rv >= 0 && old(disks[job.disk2write].fd) > 0 ==>
        k[job.disk2write] == old(k[job.disk2write]) && done == old(done) && Win() == old(Win())
    {
      hide ReaderOk, RestOk, Readable, HashOk, ReaderRowsOk, RowWindow, HashDiskOk, SavedUpTo, QuietAt, TargetOk,
        SyncOk, RestoreOk;
      var dw := job.disk2write;
      ghost var first := true;
      ghost var p: nat := 0;
      while true
        invariant Lens()
        invariant first ==> Ready() && disks[dw].fd == old(disks[dw].fd) && k[dw] == old(k[dw])
        invariant first ==> done == old(done) && Win() == old(Win())
        invariant !first ==> Steady() && TargetState() && AllAttached() && disks[dw].fd > 0
        invariant !first ==> p <= job.disks && cbs[p].nbytes > 0 && cbs[p].completed
        invariant !first && old(disks[dw].fd) <= 0 ==> k[dw] > old(k[dw])
        invariant !first && old(disks[dw].fd) > 0 ==> k[dw] == old(k[dw]) && done == old(done) && Win() == old(Win())
        decreases |job.rows[dw]| - k[dw], Left(), if first then 1 else 0
      {
        if disks[dw].fd <= 0 {
          var got := SeekTarget();
          if !got {
            return -1;
          }
        }
        var again;
        again, p := PassAndAwait(!first, p);
        first := false;
        if !again {
          return 0;
        }
      }
    }

    // ---------------------------------------------------------------- folding

    /** The length of the longest input. */
    method LongestInput() returns (parLen: nat)
      requires |disks| == job.disks + 1
      ensures forall i :: 0 <= i <= job.disks && i != job.disk2write ==> disks[i].datalen <= parLen
      ensures parLen == 0 || exists i :: 0 <= i <= job.disks && i != job.disk2write && disks[i].datalen == parLen
    {
      parLen := 0;
      for i := 0 to job.disks + 1
        invariant forall j :: 0 <= j < i && j != job.disk2write ==> disks[j].datalen <= parLen
        invariant parLen == 0 || exists j :: 0 <= j < i && j != job.disk2write && disks[j].datalen == parLen
      {
        if i != job.disk2write && disks[i].datalen > parLen {
          parLen := disks[i].datalen;
        }
      }
    }

    ghost function Contents(): seq<seq<byte>>
      reads bufs
    {
      seq(|bufs|, i requires 0 <= i < |bufs| reads bufs => bufs[i][..])
    }

    /** The first parLen bytes of the target's buffer become the XOR of all other buffers. */
    method XorInputs(parLen: nat)
      requires Buffers() && job.disk2write <= job.disks && parLen <= job.bufSize
      modifies bufs[job.disk2write]
      ensures forall x :: 0 <= x < parLen ==> bufs[job.disk2write][x] == XorAt(old(Contents()), job.disk2write, x)
    {
      var dw := job.disk2write;
      ghost var before := Contents();
      for x := 0 to parLen
        invariant forall y :: 0 <= y < x ==> bufs[dw][y] == XorAt(before, dw, y)
        invariant forall i :: 0 <= i < |bufs| && i != dw ==> bufs[i][..] == before[i]
      {
        var parityByte: byte := 0;
        for i := 0 to job.disks + 1
          invariant parityByte == XorUpTo(before, dw, i, x)
        {
          if i != dw {
            assert bufs[i][..] == before[i];
            parityByte := parityByte ^ bufs[i][x];
          }
        }
        bufs[dw][x] := parityByte;
      }
    }

    /** Every input buffer is emptied. */
    method ClearInputs(parLen: nat)
      requires Buffers() && |disks| == job.disks + 1 && job.disk2write <= job.disks && parLen <= job.bufSize
      requires forall i, x {:trigger bufs[i][x]} ::
        0 <= i <= job.disks && i != job.disk2write && parLen <= x < job.bufSize ==> bufs[i][x] == 0
      modifies this`disks, bufs
      ensures |disks| == job.disks + 1 && disks[job.disk2write] == old(disks[job.disk2write])
      ensures forall i :: 0 <= i <= job.disks && i != job.disk2write ==>
        disks[i] == old(disks[i]).(datalen := 0) && AllZero(bufs[i][..])
      ensures bufs[job.disk2write][..] == old(bufs[job.disk2write][..])
    {
      var dw := job.disk2write;
      for i := 0 to job.disks + 1
        invariant |disks| == job.disks + 1 && disks[dw] == old(disks[dw])
        invariant bufs[dw][..] == old(bufs[dw][..])
        invariant forall j :: 0 <= j < i && j != dw ==> disks[j] == old(disks[j]).(datalen := 0) && AllZero(bufs[j][..])
        invariant forall j :: i <= j <= job.disks ==> disks[j] == old(disks[j])
        invariant forall j, x {:trigger bufs[j][x]} :: i <= j <= job.disks && j != dw && parLen <= x < job.bufSize ==>
          bufs[j][x] == 0
      {
        if i != dw {
          disks := disks[i := disks[i].(datalen := 0)];
          ghost var others := Contents();
          forall x | 0 <= x < parLen {
            bufs[i][x] := 0;
          }
          assert forall j :: 0 <= j < |bufs| && j != i ==> bufs[j][..] == others[j];
        }
      }
    }

    /** What every reader holds at the end of a round, as a fact about its share of the window. */
    lemma SharesOf(i: nat)
      requires Full() && job.IsReader(i)
      ensures RoundShare(job, streams, i, disks[i], Win(), done) && disks[i].datalen <= job.bufSize
      ensures disks[i].datalen == job.bufSize
        || Pos(TaskOf(job, streams, i, Win(), done), disks[i]) == Hi(|streams[i]|, Win())
      ensures BufferOk(streams[i], Base(|streams[i]|, Win(), done), disks[i].datalen, bufs[i][..])
    {
      hide ReaderOk, QuietAt, TargetOk, HashOk, HashDiskOk, Readable;
      assert ReaderAt(i) && QuietNow(i);
      QuietHasShare(job, streams, i, disks[i], cbs[i], k[i], bufs[i][..], Win(), done, writeStart, writeSize);
    }

    /** The longest input is as long as the round can be: a bufferful, or all the window still lacks. */
    lemma LongestIsRest(parLen: nat)
      requires JobOk(job, streams) && Full() && Win().lo + done <= Win().hi
      requires forall i :: 0 <= i <= job.disks && i != job.disk2write ==> disks[i].datalen <= parLen
      requires parLen == 0 || exists i :: 0 <= i <= job.disks && i != job.disk2write && disks[i].datalen == parLen
      ensures parLen == Min(job.bufSize, Win().hi - Win().lo - done)
    {
      hide ReaderOk, QuietAt, TargetOk, HashOk, HashDiskOk, Readable, RoundShare, QuietNow, Positioned, BufferOk;
      var w := Win();
      var widest := if job.Sync() then var i :| 0 <= i < job.disks && |streams[i]| == job.sliceSize; i else job.disks;
      assert job.IsReader(widest) && |streams[widest]| >= w.hi by {
        assert !job.Sync() ==> End(job.rows[job.disks], 1) == job.sliceSize;
      }
      SharesOf(widest);
      ShareBounds(job, streams, widest, disks[widest], w, done);
      if parLen > 0 {
        var i :| 0 <= i <= job.disks && i != job.disk2write && disks[i].datalen == parLen;
        SharesOf(i);
        ShareBounds(job, streams, i, disks[i], w, done);
      }
    }

    /** The XOR of the input buffers is the XOR of the streams at the window position being folded. */
    lemma FoldedByte(x: nat)
      requires Full() && x < job.bufSize && Win().lo + done + x < Win().hi
      ensures XorAt(Contents(), job.disk2write, x) == XorAt(streams, job.disk2write, Win().lo + done + x)
    {
      hide ReaderOk, QuietAt, TargetOk, HashOk, HashDiskOk, Readable, RoundShare, BufferOk;
      forall i | 0 <= i <= job.disks && i != job.disk2write
        ensures At(Contents()[i], x) == At(streams[i], Win().lo + done + x)
      {
        SharesOf(i);
        BufferByte(job, streams, i, disks[i], Win(), done, bufs[i][..], x);
      }
      XorCongruence(Contents(), streams, job.disk2write, job.disks + 1, x, Win().lo + done + x);
    }

    /** What a round of n bytes relies on, stated over the disks and buffer contents it starts from. */
    ghost predicate RoundStart(ds: seq<SliceDisk>, bs: seq<seq<byte>>, n: nat)
      requires Lens()
      reads this
    {
      && |ds| == |bs| == job.disks + 1 && n <= job.bufSize && Win().lo + done + n <= Win().hi
      && (forall x :: 0 <= x < n ==>
            XorAt(bs, job.disk2write, x) == XorAt(streams, job.disk2write, Win().lo + done + x))
      && (forall i {:trigger job.IsReader(i)} :: job.IsReader(i) ==>
            && ReaderOk(job, streams, i, ds[i], cbs[i], k[i], bs[i], Win(), done)
            && (ds[i].datalen == job.bufSize
              || Pos(TaskOf(job, streams, i, Win(), done), ds[i]) == Hi(|streams[i]|, Win()))
            && ds[i].datalen <= n)
    }

    lemma FullStartsRound(n: nat)
      requires JobOk(job, streams) && Full() && n == Min(job.bufSize, Win().hi - Win().lo - done)
      requires Win().lo + done <= Win().hi
      requires forall i :: 0 <= i <= job.disks && i != job.disk2write ==> disks[i].datalen <= n
      ensures RoundStart(disks, Contents(), n)
    {
      hide ReaderOk, QuietNow, TargetOk, HashOk, HashDiskOk, Readable, RoundShare, BufferOk, XorAt;
      forall x | 0 <= x < n
        ensures XorAt(Contents(), job.disk2write, x) == XorAt(streams, job.disk2write, Win().lo + done + x)
      {
        FoldedByte(x);
      }
      forall i {:trigger job.IsReader(i)} | job.IsReader(i)
        ensures ReaderOk(job, streams, i, disks[i], cbs[i], k[i], Contents()[i], Win(), done)
        ensures disks[i].datalen == job.bufSize
          || Pos(TaskOf(job, streams, i, Win(), done), disks[i]) == Hi(|streams[i]|, Win())
      {
        assert ReaderAt(i);
        SharesOf(i);
      }
    }

    /** A buffer is zero behind the n bytes of a round. */
    lemma ZeroBehind(ds: seq<SliceDisk>, bs: seq<seq<byte>>, n: nat, i: nat, x: nat)
      requires Lens() && RoundStart(ds, bs, n) && job.IsReader(i) && n <= x < job.bufSize
      ensures |bs[i]| == job.bufSize && bs[i][x] == 0
    {
      assert ReaderOk(job, streams, i, ds[i], cbs[i], k[i], bs[i], Win(), done);
    }

    /** Moves n bytes of window from the input buffers, XORed, to the target's buffer. */
    method FoldRound(n: nat)
      requires Full() && n > 0 && RoundStart(disks, Contents(), n) && TargetOpen()
      modifies this`disks, this`done, bufs
      ensures Lens() && done == old(done) + n && TargetOpen()
      ensures forall i {:trigger job.IsReader(i)} :: job.IsReader(i) ==>
        disks[i] == old(disks[i]).(datalen := 0) && AllZero(bufs[i][..])
      ensures disks[job.disk2write] == old(disks[job.disk2write]).(datalen := n)
    {
      hide ReaderOk, QuietNow, HashOk, HashDiskOk, Readable, RoundShare, BufferOk, XorAt, TargetState, TargetOk,
        ShapeOk;
      ShapeFacts(job, streams);
      var dw := job.disk2write;
      ghost var ds, bs := disks, Contents();
      disks := disks[dw := disks[dw].(datalen := n)];
      XorInputs(n);
      ghost var folded := bufs[dw][..];
      forall i, x {:trigger bufs[i][x]} | 0 <= i <= job.disks && i != dw && n <= x < job.bufSize
        ensures bufs[i][x] == 0
      {
        ZeroBehind(ds, bs, n, i, x);
        assert bufs[i][x] == bs[i][x];
      }
      ClearInputs(n);
      assert bufs[dw][..] == folded;
      FoldKeepsTarget(job, streams, ds[dw], cbs[dw], bs[dw], Win(), done, written, prefix, work, n, folded);
      done := done + n;
    }

    /** After a round all readers stand where they stood, with empty buffers. */
    lemma RoundKeepsReaders(ds: seq<SliceDisk>, bs: seq<seq<byte>>, was: nat, n: nat)
      requires Lens() && |ds| == |bs| == job.disks + 1 && done == was + n && n <= job.bufSize && NoRequests()
      requires forall i {:trigger job.IsReader(i)} :: job.IsReader(i) ==>
        && ReaderOk(job, streams, i, ds[i], cbs[i], k[i], bs[i], Win(), was)
        && (ds[i].datalen == job.bufSize || Pos(TaskOf(job, streams, i, Win(), was), ds[i]) == Hi(|streams[i]|, Win()))
        && ds[i].datalen <= n
        && disks[i] == ds[i].(datalen := 0) && AllZero(bufs[i][..])
      ensures Readers()
    {
      hide ReaderOk;
      forall i {:trigger job.IsReader(i)} | job.IsReader(i)
        ensures ReaderAt(i)
      {
        RoundKeepsOne(i, ds[i], bs[i], was, n);
      }
    }

    lemma RoundKeepsOne(i: nat, d: SliceDisk, b: seq<byte>, was: nat, n: nat)
      requires Lens() && job.IsReader(i) && done == was + n && n <= job.bufSize && cbs[i].nbytes == 0
      requires ReaderOk(job, streams, i, d, cbs[i], k[i], b, Win(), was)
      requires d.datalen == job.bufSize || Pos(TaskOf(job, streams, i, Win(), was), d) == Hi(|streams[i]|, Win())
      requires d.datalen <= n && disks[i] == d.(datalen := 0) && AllZero(bufs[i][..])
      ensures ReaderAt(i)
    {
      hide ReaderOk;
      RoundKeepsReader(job, streams, i, d, cbs[i], k[i], b, Win(), was, n, bufs[i][..]);
    }

    /** Folds one round; 0 when the window is exhausted, and then the target is complete. */
    method ComputeParity() returns (parLen: nat)
      requires JobOk(job, streams) && Full()
      modifies this`disks, this`done, bufs
      ensures parLen == Min(job.bufSize, Win().hi - Win().lo - old(done))
      ensures Win() == old(Win()) && done == old(done) + parLen
      ensures parLen > 0 ==> Ready() && disks[job.disk2write].fd > 0 && disks[job.disk2write].datalen == parLen
      ensures parLen > 0 ==> disks[job.disk2write].bytes2transfer == old(disks[job.disk2write].bytes2transfer)
      ensures parLen == 0 ==> Full() && disks[job.disk2write].bytes2transfer == 0 && disks == old(disks)
    {
      hide ReaderOk, QuietNow, HashOk, HashDiskOk, Readable, TargetOk, SyncOk, RestoreOk, ReaderRowsOk, SavedUpTo,
        RowWindow;
      TargetBounds();
      parLen := LongestInput();
      LongestIsRest(parLen);
      if parLen > 0 {
        FullStartsRound(parLen);
        ghost var ds, bs, was := disks, Contents(), done;
        FoldRound(parLen);
        RoundKeepsReaders(ds, bs, was, parLen);
        RoundKeepsHashes(ds);
      }
    }

    lemma RoundKeepsHashes(ds: seq<SliceDisk>)
      requires Lens() && |ds| == |disks| && hashSize == RowCount(job, job.disks)
      requires forall i {:trigger job.IsReader(i)} :: job.IsReader(i) ==> disks[i] == ds[i].(datalen := 0)
      requires job.Sync() ==> forall i :: 0 <= i < job.disks ==> HashDiskOk(job, i, ds[i], k[i], hashArray)
      requires forall e :: e in hashArray ==> e.disk < job.disks
      ensures Hashes()
    {
      hide HashDiskOk;
      if job.Sync() {
        forall i | 0 <= i < job.disks
          ensures HashDiskOk(job, i, disks[i], k[i], hashArray)
        {
          assert job.IsReader(i);
          HashIgnoresBuffer(job, i, ds[i], k[i], hashArray);
        }
      }
    }

    /** An open target lacks exactly what has not been written; a closed one lacks nothing. */
    lemma TargetBounds()
      requires Full()
      ensures Win().lo + done <= Win().hi
      ensures disks[job.disk2write].bytes2transfer == Win().hi - Win().lo - done
      ensures disks[job.disk2write].fd <= 0 ==> !job.Sync() && Win().hi == Win().lo + done
    {
      hide ReaderOk, QuietNow, HashOk, HashDiskOk, Readable, ReaderRowsOk;
    }

    // ---------------------------------------------------------------- whole runs

    /** When a sync has folded the whole window, the hash of every file of disk i is on record. */
    lemma AllHashed(i: nat)
      requires SyncOk(job, streams) && Full() && done == job.sliceSize && i < job.disks
      ensures |job.rows[i]| == |job.files[i]|
      ensures OfDisk(hashArray, i) == Record(job.rows[i], job.files[i], i, job.hash, |job.rows[i]|)
    {
      hide HashOk, Readable, TargetOk;
      assert job.IsReader(i) && ReaderAt(i) && QuietNow(i);
      SharesOf(i);
      if disks[i].fd > 0 {
        RecordEmptyTail(job.rows[i], job.files[i], i, job.hash, k[i] - 1, |job.rows[i]|);
      }
    }

    /** The work file of a sync that has folded and written everything. */
    lemma SyncWork()
      requires job.Sync() && Full() && done == job.sliceSize
      ensures work == prefix + XorWindow(streams, job.disks, 0, job.sliceSize)
    {
      hide ReaderOk, QuietNow, HashOk, HashDiskOk, Readable;
    }

    /** Generates the slice's parity: fill the buffers, fold them, until a round is empty. */
    method CreateSlice()
      requires SyncOk(job, streams) && Ready() && done == 0
      modifies this`disks, this`k, this`hashArray, this`cbs, this`work, this`saved, this`writeStart, this`writeSize,
               this`done, this`written, bufs
      ensures work == prefix + XorWindow(streams, job.disks, 0, job.sliceSize)
      ensures forall i {:trigger job.rows[i]} :: 0 <= i < job.disks ==>
        |job.rows[i]| == |job.files[i]|
          && OfDisk(hashArray, i) == Record(job.rows[i], job.files[i], i, job.hash, |job.rows[i]|)
    {
      hide SyncOk, RestoreOk, ReaderOk, Steady, TargetOk, Full, ReadersRest, HashDiskOk, TargetState;
      assert job.Sync() by { SyncFacts(job, streams); }
      while true
        invariant Ready() && done <= job.sliceSize
        decreases job.sliceSize - done
      {
        var _ := Wait4Buffers();
        ghost var before := done;
        var parLen := ComputeParity();
        if parLen <= 0 {
          break;
        }
      }
      SyncWork();
      forall i {:trigger job.rows[i]} | 0 <= i < job.disks
        ensures |job.rows[i]| == |job.files[i]|
        ensures OfDisk(hashArray, i) == Record(job.rows[i], job.files[i], i, job.hash, |job.rows[i]|)
      {
        AllHashed(i);
      }
    }

    /** After a round with nothing left to fold a restore has closed its target and is ready for the next. */
    lemma ExhaustedIsReady()
      requires RestoreOk(job, streams) && Full() && disks[job.disk2write].bytes2transfer == 0
      requires Win().hi == Win().lo + done
      ensures Ready() && disks[job.disk2write].fd <= 0
    {
      hide ReaderOk, QuietNow, HashOk, HashDiskOk, Readable, ReaderRowsOk, TargetOk, RestOk;
      AllRest();
    }

    /** What an open target still lacks when part of it waits in its buffer. */
    lemma OpenLacks()
      requires Ready() && disks[job.disk2write].fd > 0
      ensures disks[job.disk2write].bytes2transfer == Win().hi - Win().lo - done + disks[job.disk2write].datalen
    {
      hide ReaderOk, HashOk, HashDiskOk, Readable, ReaderRowsOk;
    }

    /** Restores every wanted file of the slice: open a target, fill, fold and write until it is complete. */
    method RestoreSlice()
      requires RestoreOk(job, streams) && Ready() && disks[job.disk2write].fd <= 0
      modifies this`disks, this`k, this`hashArray, this`cbs, this`work, this`saved, this`writeStart, this`writeSize,
               this`done, this`written, bufs
      ensures saved == SavedUpTo(job, streams, |job.wanted|)
    {
      hide SyncOk, RestoreOk, ReaderOk, Steady, TargetOk, ReadersRest, HashDiskOk, TargetState, QuietNow, HashOk;
      RestoreFacts(job, streams);
      var dw := job.disk2write;
      while true
        invariant Ready() && (disks[dw].fd > 0 ==> disks[dw].datalen > 0)
        decreases |job.rows[dw]| - k[dw], if disks[dw].fd > 0 then 1 + disks[dw].bytes2transfer else 0
      {
        if disks[dw].fd > 0 {
          OpenLacks();
        }
        var rv := Wait4Buffers();
        if rv < 0 {
          break;
        }
        TargetBounds();
        var parLen := ComputeParity();
        if parLen == 0 {
          ExhaustedIsReady();
        }
      }
    }
  }
}
