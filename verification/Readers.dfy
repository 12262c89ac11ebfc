/**
 * One reading disk of a transfer: its state, the code's window arithmetic on that state, and the
 * invariant that ties the state to the unread part of the disk's stream.
 */
module Readers {
  import opened Bytes
  import opened Streams
  import opened Hashing

  /** The per-disk fields of a slice transfer. */
  datatype SliceDisk = SliceDisk(
    diskFinished: bool,
    fd: int,                 // <= 0 when closed; j + 1 when row j of the disk is open
    datalen: nat,            // bytes in the disk's buffer
    seqNo: nat,              // key of the last row fetched
    fileOffset: int,         // next byte of the open file
    fileSize: nat,
    bytes2transfer: int,
    parityStart: int,
    hashState: HashState
  )

  /** An asynchronous request; nbytes == 0 when there is none. */
  datatype Aiocb = Aiocb(nbytes: nat, offset: int, completed: bool)

  const NoRequest := Aiocb(0, 0, false)

  /** What one reader works against: its rows, stream length, window, and bytes already folded. */
  datatype Task = Task(rows: seq<Row>, len: nat, w: Window, done: nat, sync: bool)

  /** The closed-interval overlap test of the source. */
  predicate Involved(writeStart: int, writeSize: int, start: int, size: int) {
    writeStart <= start + size && start <= writeStart + writeSize
  }

  /** The source's test and the closed intervals of rows and windows are the same. */
  lemma InvolvedIff(w: Window, s: nat, n: nat)
    requires w.lo <= w.hi
    ensures Involved(w.lo, w.hi - w.lo, s, n) <==> Meets(w, s, n)
    ensures Meets(w, s, n) <==> exists x: nat {:trigger Within(w, s, n, x)} :: Within(w, s, n, x)
  {
    if Meets(w, s, n) {
      assert Within(w, s, n, Max(w.lo, s));
    }
  }

  /** A position in both, ends included. */
  predicate Within(w: Window, s: nat, n: nat, x: nat) { w.lo <= x <= w.hi && s <= x <= s + n }

  /** Finished: nothing left to transfer, and closed, empty, inside the window, or read to its end. */
  predicate FileFinished(d: SliceDisk, writeStart: int, writeSize: int) {
    && d.bytes2transfer == 0
    && (d.fd <= 0 || d.fileSize == 0
        || d.parityStart + d.fileSize <= writeStart + writeSize || d.fileOffset == d.fileSize)
  }

  /** Clips a transfer of a whole file to the window. */
  function FitTransfer(d: SliceDisk, writeStart: int, writeSize: int): SliceDisk {
    var ext := d.parityStart + d.bytes2transfer - (writeStart + writeSize);
    var d1 := if ext > 0 then d.(bytes2transfer := d.bytes2transfer - ext) else d;
    if d.parityStart < writeStart then
      var skip := writeStart - d.parityStart;
      d1.(fileOffset := skip, bytes2transfer := d1.bytes2transfer - skip)
    else d1
  }

  /** Clipping leaves exactly the intersection of file and window, which is never negative. */
  lemma FitIsIntersection(d: SliceDisk, writeStart: nat, writeSize: nat)
    requires d.bytes2transfer == d.fileSize && d.fileOffset == 0 && d.parityStart >= 0
    requires Involved(writeStart, writeSize, d.parityStart, d.fileSize)
    ensures var r := FitTransfer(d, writeStart, writeSize);
      && r.parityStart + r.fileOffset == Max(d.parityStart, writeStart)
      && r.bytes2transfer == Min(d.parityStart + d.fileSize, writeStart + writeSize) - Max(d.parityStart, writeStart)
      && r.bytes2transfer >= 0
  {
  }

  /** Stream position of the next byte the reader will deliver. */
  function Pos(t: Task, d: SliceDisk): nat {
    Base(t.len, t.w, t.done) + d.datalen
  }

  /** A skipped-over disk: all its rows end before the window, its file fields are left behind. */
  ghost predicate Stale(t: Task, d: SliceDisk, k: nat) {
    && k == |t.rows| && d.fd <= 0 && t.len < t.w.lo
    && 0 <= d.parityStart && d.parityStart + d.fileSize <= t.len
  }

  /** The row cursor: k rows have been fetched and the file fields describe row k - 1. */
  ghost predicate CursorOk(t: Task, d: SliceDisk, k: nat) {
    && k <= |t.rows|
    && t.len == End(t.rows, |t.rows|)
    && d.seqNo == SeqAt(t.rows, k)
    && (|| (d.fileSize == SizeAt(t.rows, k) && (t.sync || d.parityStart == StartAt(t.rows, k)))
        || (!t.sync && Stale(t, d, k)))
  }

  /**
   * Window clipping: what is left to transfer is exactly the part of the current file that lies in the
   * window and has not been read, and the file offset is the distance of the read position from the
   * file's start.
   */
  ghost predicate Positioned(t: Task, d: SliceDisk, k: nat)
    requires k <= |t.rows|
  {
    var p := Pos(t, d);
    && p <= Hi(t.len, t.w)
    && d.bytes2transfer == Max(0, Min(End(t.rows, k), t.w.hi) - p)
    && (d.fd > 0 ==> d.fd == k && End(t.rows, k - 1) <= p <= End(t.rows, k) && d.fileOffset == p - End(t.rows, k - 1))
    && (d.bytes2transfer > 0 ==> d.fd > 0)
    && (d.fd <= 0 && !d.diskFinished ==> p == Lo(t.len, t.w) && End(t.rows, k) <= t.w.lo)
    && (d.diskFinished ==> k == |t.rows| && d.fd <= 0 && p == t.len)
  }

  /** Nothing more will be read before the buffer is emptied. */
  ghost predicate Quiet(t: Task, d: SliceDisk, bufSize: nat) {
    || d.diskFinished
    || (d.bytes2transfer > 0 && d.datalen >= bufSize)
    || (d.bytes2transfer == 0 && if t.sync then d.fd > 0 && d.fileSize == 0 else Pos(t, d) == Hi(t.len, t.w))
  }

  /** The new state of a disk when row k2 - 1 is opened. */
  function OpenRow(rows: seq<Row>, sync: bool, h: HashState, d: SliceDisk, k2: nat, parityStart: int, writeStart: int,
                   writeSize: int): SliceDisk
    requires 0 < k2 <= |rows|
  {
    var row := rows[k2 - 1];
    var d1 := d.(fd := k2, seqNo := row.dseq, fileOffset := 0, fileSize := row.fsize,
                 bytes2transfer := row.fsize, parityStart := parityStart,
                 hashState := if sync then h else d.hashState);
    if sync then d1 else FitTransfer(d1, writeStart, writeSize)
  }

  /** The row that a finished reader opens next: the following one, or the first that reaches the window. */
  ghost predicate NextRow(t: Task, k: nat, k2: nat, parityStart: int, writeStart: nat) {
    && k < k2 <= |t.rows|
    && (if t.sync then k2 == k + 1 else parityStart == End(t.rows, k2 - 1) && End(t.rows, k2) >= writeStart)
    && (k2 == k + 1 || End(t.rows, k2 - 1) < writeStart)
  }

  ghost predicate TaskWindow(t: Task, writeStart: nat, writeSize: nat) {
    if t.sync then t.w.lo == 0 && t.len <= t.w.hi else t.w == Window(writeStart, writeStart + writeSize)
  }

  /** Where a finished reader stands: at the end of what it has fetched, or at the window's start. */
  lemma FinishedAt(t: Task, d: SliceDisk, k: nat, writeStart: nat, writeSize: nat)
    requires CursorOk(t, d, k) && Positioned(t, d, k) && FileFinished(d, writeStart, writeSize)
    requires TaskWindow(t, writeStart, writeSize)
    ensures d.fd > 0 ==> Pos(t, d) == End(t.rows, k)
  {
    EndMono(t.rows, k, |t.rows|);
  }

  /** The read position lies in the row opened next, at its start or at the window's, whichever is later. */
  lemma NextRowPosition(t: Task, d: SliceDisk, k: nat, k2: nat, parityStart: int, writeStart: nat, writeSize: nat)
    requires CursorOk(t, d, k) && Positioned(t, d, k) && FileFinished(d, writeStart, writeSize) && !d.diskFinished
    requires TaskWindow(t, writeStart, writeSize) && NextRow(t, k, k2, parityStart, writeStart)
    ensures End(t.rows, k2) <= t.len
    ensures End(t.rows, k2 - 1) <= Pos(t, d) <= End(t.rows, k2)
    ensures Pos(t, d) == Max(End(t.rows, k2 - 1), t.w.lo)
    ensures d.fd > 0 ==> k2 == k + 1 && Pos(t, d) == End(t.rows, k)
  {
    FinishedAt(t, d, k, writeStart, writeSize);
    EndMono(t.rows, k, k2 - 1);
    EndMono(t.rows, k2, |t.rows|);
  }

  /** Opening the next row that reaches the window keeps the reader on its stream. */
  lemma OpenNext(t: Task, h: HashState, d: SliceDisk, k: nat, k2: nat, parityStart: int, writeStart: nat,
                 writeSize: nat)
    requires CursorOk(t, d, k) && Positioned(t, d, k) && FileFinished(d, writeStart, writeSize) && !d.diskFinished
    requires TaskWindow(t, writeStart, writeSize) && NextRow(t, k, k2, parityStart, writeStart)
    ensures var r := OpenRow(t.rows, t.sync, h, d, k2, parityStart, writeStart, writeSize);
      CursorOk(t, r, k2) && Positioned(t, r, k2)
    ensures !t.sync ==> Meets(t.w, End(t.rows, k2 - 1), t.rows[k2 - 1].fsize)
  {
    NextRowPosition(t, d, k, k2, parityStart, writeStart, writeSize);
  }

  /** A reader that had a file before opens an empty remainder only when the window is exhausted. */
  lemma OpenEmpty(t: Task, h: HashState, d: SliceDisk, k: nat, k2: nat, parityStart: int, writeStart: nat,
                  writeSize: nat)
    requires CursorOk(t, d, k) && Positioned(t, d, k) && FileFinished(d, writeStart, writeSize) && !d.diskFinished
    requires d.fd > 0 && !t.sync && SizesDescend(t.rows)
    requires TaskWindow(t, writeStart, writeSize) && NextRow(t, k, k2, parityStart, writeStart)
    requires OpenRow(t.rows, t.sync, h, d, k2, parityStart, writeStart, writeSize).bytes2transfer <= 0
    ensures Pos(t, d) == Hi(t.len, t.w)
  {
    NextRowPosition(t, d, k, k2, parityStart, writeStart, writeSize);
    if t.rows[k2 - 1].fsize == 0 {
      EmptyTail(t.rows, k2 - 1, |t.rows|);
    }
  }

  /** The state of a disk that has no further row for this window. */
  function Exhaust(rows: seq<Row>, d: SliceDisk): SliceDisk {
    d.(diskFinished := true, fd := if d.fd > 0 then -1 else d.fd, seqNo := SeqAt(rows, |rows|))
  }

  lemma ExhaustOk(t: Task, d: SliceDisk, k: nat, writeStart: nat, writeSize: nat)
    requires CursorOk(t, d, k) && Positioned(t, d, k) && FileFinished(d, writeStart, writeSize)
    requires TaskWindow(t, writeStart, writeSize)
    requires k == |t.rows| || (!t.sync && t.len < writeStart)
    ensures CursorOk(t, Exhaust(t.rows, d), |t.rows|) && Positioned(t, Exhaust(t.rows, d), |t.rows|)
  {
    FinishedAt(t, d, k, writeStart, writeSize);
    EndMono(t.rows, k, |t.rows|);
  }

  /** n more bytes of the open file arrive in the buffer; h is the new state of the file's hash. */
  function Deliver(d: SliceDisk, n: nat, h: HashState): SliceDisk {
    d.(datalen := d.datalen + n, fileOffset := d.fileOffset + n, bytes2transfer := d.bytes2transfer - n, hashState := h)
  }

  lemma DeliverOk(t: Task, d: SliceDisk, k: nat, n: nat, h: HashState)
    requires CursorOk(t, d, k) && Positioned(t, d, k) && n <= d.bytes2transfer
    ensures CursorOk(t, Deliver(d, n, h), k) && Positioned(t, Deliver(d, n, h), k)
  {
    EndMono(t.rows, k, |t.rows|);
  }

  /** A quiet reader has filled its buffer or read everything its stream has in the window. */
  lemma QuietMeansFullOrDone(t: Task, d: SliceDisk, k: nat, bufSize: nat)
    requires CursorOk(t, d, k) && Positioned(t, d, k) && d.datalen <= bufSize
    requires SizesDescend(t.rows) && (t.sync ==> t.w.lo == 0 && t.len <= t.w.hi)
    requires Quiet(t, d, bufSize)
    ensures d.datalen == bufSize || Pos(t, d) == Hi(t.len, t.w)
  {
    if !d.diskFinished && d.bytes2transfer == 0 && t.sync {
      if k < |t.rows| {
        EmptyTail(t.rows, k - 1, |t.rows|);
        EmptyTail(t.rows, k - 1, k);
      }
    }
  }

  /** Emptying all buffers after a round of n bytes leaves every reader at the same stream position. */
  lemma RoundOk(t: Task, d: SliceDisk, k: nat, bufSize: nat, n: nat)
    requires CursorOk(t, d, k) && Positioned(t, d, k)
    requires d.datalen == bufSize || Pos(t, d) == Hi(t.len, t.w)
    requires d.datalen <= n <= bufSize
    ensures var t2, d2 := t.(done := t.done + n), d.(datalen := 0);
      CursorOk(t2, d2, k) && Positioned(t2, d2, k) && Pos(t2, d2) == Pos(t, d)
  {
  }

  // ---------------------------------------------------------------- the next target's window

  /** What newTargetFile does to one reading disk. */
  function Retarget(d: SliceDisk, writeStart: int, writeSize: int): SliceDisk {
    var d1 := d.(diskFinished := false);
    if Involved(writeStart, writeSize, d.parityStart, d.fileSize)
    then FitTransfer(d1.(bytes2transfer := d.fileSize, fileOffset := 0), writeStart, writeSize)
    else if d.fd > 0 then d1.(fd := -1) else d1
  }

  /** A reader between two windows, the first of which ended at `hi`. */
  ghost predicate Idle(rows: seq<Row>, len: nat, d: SliceDisk, k: nat, hi: nat) {
    && k <= |rows| && len == End(rows, |rows|)
    && d.datalen == 0
    && d.seqNo == SeqAt(rows, k)
    && (|| (d.fileSize == SizeAt(rows, k) && d.parityStart == StartAt(rows, k))
        || (k == |rows| && d.fd <= 0 && len < hi && 0 <= d.parityStart && d.parityStart + d.fileSize <= len))
    && (d.fd > 0 ==> d.fd == k && StartAt(rows, k) <= hi)
    && (d.fd <= 0 ==> End(rows, k) <= hi)
  }

  /** A reader whose window has been folded completely is idle. */
  lemma DoneIsIdle(t: Task, d: SliceDisk, k: nat)
    requires !t.sync && CursorOk(t, d, k) && Positioned(t, d, k)
    requires d.datalen == 0 && t.w.lo <= t.w.hi && t.done == t.w.hi - t.w.lo
    ensures Idle(t.rows, t.len, d, k, t.w.hi) && d.bytes2transfer == 0
  {
    EndMono(t.rows, k, |t.rows|);
  }

  /** With windows in ascending order the re-clipped reader is positioned on the new window. */
  lemma RetargetOk(t: Task, d: SliceDisk, k: nat, hi: nat)
    requires !t.sync && t.done == 0 && Idle(t.rows, t.len, d, k, hi)
    requires hi <= t.w.lo <= t.w.hi
    requires d.bytes2transfer == 0 || (k > 0 && d.fd == k && t.w.lo <= End(t.rows, k))
    ensures var r := Retarget(d, t.w.lo, t.w.hi - t.w.lo);
      CursorOk(t, r, k) && Positioned(t, r, k) && r.datalen == 0
    ensures var r := Retarget(d, t.w.lo, t.w.hi - t.w.lo);
      r.fd > 0 ==> Meets(t.w, End(t.rows, k - 1), t.rows[k - 1].fsize)
  {
    EndMono(t.rows, k, |t.rows|);
  }
}
