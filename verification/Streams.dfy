/**
 * Slice rows, the byte stream a disk contributes to a slice, and the window of that stream
 * that one transfer asks for.
 */
module Streams {
  import opened Bytes

  /** One row of a slice: the file's sequence number on its disk, its size and its recorded start. */
  datatype Row = Row(dseq: nat, fsize: nat, start: nat)

  /** The half-open range of slice positions a transfer asks for. */
  datatype Window = Window(lo: nat, hi: nat)

  /** Where row k begins when the rows of a disk are laid end to end. */
  function End(rows: seq<Row>, k: nat): nat
    requires k <= |rows|
  {
    if k == 0 then 0 else End(rows, k - 1) + rows[k - 1].fsize
  }

  /** Recorded starts are the prefix sums of the sizes. */
  ghost predicate Contiguous(rows: seq<Row>) {
    forall j {:trigger rows[j].start} :: 0 <= j < |rows| ==> rows[j].start == End(rows, j)
  }

  ghost predicate KeysAscend(rows: seq<Row>) {
    && (forall j {:trigger rows[j].dseq} :: 0 <= j < |rows| ==> rows[j].dseq > 0)
    && (forall j, m {:trigger rows[j].dseq, rows[m].dseq} :: 0 <= j < m < |rows| ==> rows[j].dseq < rows[m].dseq)
  }

  ghost predicate SizesDescend(rows: seq<Row>) {
    forall j, m {:trigger rows[j].fsize, rows[m].fsize} :: 0 <= j < m < |rows| ==> rows[j].fsize >= rows[m].fsize
  }

  /** The rows of one disk in one slice: positive increasing keys, sizes descending, starts as prefix sums. */
  ghost predicate RowsOk(rows: seq<Row>) {
    Contiguous(rows) && KeysAscend(rows) && SizesDescend(rows)
  }

  lemma {:induction false} EndMono(rows: seq<Row>, j: nat, k: nat)
    requires j <= k <= |rows|
    ensures End(rows, j) <= End(rows, k)
  {
    if j < k {
      EndMono(rows, j, k - 1);
    }
  }

  /** Once a file is empty, every file after it is, so the stream ends there. */
  lemma {:induction false} EmptyTail(rows: seq<Row>, j: nat, k: nat)
    requires SizesDescend(rows) && j < k <= |rows| && rows[j].fsize == 0
    ensures End(rows, k) == End(rows, j)
  {
    if j + 1 < k {
      EmptyTail(rows, j, k - 1);
    }
  }

  /** The query "first row with dseq > seq": its index, or the number of rows when there is none. */
  function FirstAfter(rows: seq<Row>, seqNo: nat): (k: nat)
    ensures k <= |rows|
  {
    FirstAfterFrom(rows, seqNo, 0)
  }

  function FirstAfterFrom(rows: seq<Row>, seqNo: nat, k: nat): (r: nat)
    requires k <= |rows|
    ensures k <= r <= |rows|
    decreases |rows| - k
  {
    if k == |rows| || rows[k].dseq > seqNo then k else FirstAfterFrom(rows, seqNo, k + 1)
  }

  /** The key a disk carries after its first k rows. */
  function SeqAt(rows: seq<Row>, k: nat): nat
    requires k <= |rows|
  {
    if k == 0 then 0 else rows[k - 1].dseq
  }

  function SizeAt(rows: seq<Row>, k: nat): nat
    requires k <= |rows|
  {
    if k == 0 then 0 else rows[k - 1].fsize
  }

  function StartAt(rows: seq<Row>, k: nat): nat
    requires k <= |rows|
  {
    if k == 0 then 0 else End(rows, k - 1)
  }

  /** Asking for the row after the k-th key gives row k. */
  lemma FirstAfterIsNext(rows: seq<Row>, k: nat)
    requires KeysAscend(rows) && k <= |rows|
    ensures FirstAfter(rows, SeqAt(rows, k)) == k
  {
    FirstAfterSkips(rows, k, 0);
  }

  lemma {:induction false} FirstAfterSkips(rows: seq<Row>, k: nat, j: nat)
    requires KeysAscend(rows) && j <= k <= |rows|
    ensures FirstAfterFrom(rows, SeqAt(rows, k), j) == k
    decreases k - j
  {
    if j < k {
      assert rows[j].dseq <= rows[k - 1].dseq;
      FirstAfterSkips(rows, k, j + 1);
    }
  }

  /** First position in a stream of length len that a window asks for (its end if there is none). */
  function Lo(len: nat, w: Window): nat { if w.lo <= len then w.lo else len }

  function Hi(len: nat, w: Window): nat { if w.hi <= len then w.hi else len }

  /** First stream position not yet folded into the target once `done` window bytes have been. */
  function Base(len: nat, w: Window, done: nat): nat {
    if Lo(len, w) + done <= Hi(len, w) then Lo(len, w) + done else Hi(len, w)
  }

  /** Closed intervals [s, s + n] and the window touch: the condition under which a reader opens a file. */
  predicate Meets(w: Window, s: nat, n: nat) {
    w.lo <= s + n && s <= w.hi
  }
}
