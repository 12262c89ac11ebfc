/** The preloaded queue of slice numbers: a fixed array that is filled once and read once. */
module TinyQueue {

  /** Number 0 stands for "no job". */
  const NO_JOB: nat := 0

  /** The array's used part and the place to read next. */
  datatype Queue = Queue(cells: seq<nat>, tail: nat, size: nat)
  {
    ghost predicate Ok() { tail <= |cells| <= size }

    /** Jobs not handed out yet. */
    function Left(): seq<nat>
      requires tail <= |cells|
    {
      cells[tail..]
    }

    function Count(): int { |cells| - tail }

    function IsFull(): bool { |cells| == size }

    function Pop(): (r: (nat, Queue)) {
      if tail < |cells| then (cells[tail], this.(tail := tail + 1)) else (NO_JOB, this)
    }

    function Cleared(): Queue { Queue([], 0, size) }
  }

  class Store {
    const rowids: array<nat>
    var head: nat
    var tail: nat

    ghost predicate Valid()
      reads this, rowids
    {
      tail <= head <= rowids.Length
    }

    ghost function View(): (q: Queue)
      requires Valid()
      reads this, rowids
      ensures q.Ok()
    {
      Queue(rowids[..head], tail, rowids.Length)
    }

    constructor (size: nat)
      ensures Valid() && fresh(rowids) && View() == Queue([], 0, size)
      ensures forall i :: 0 <= i < rowids.Length ==> rowids[i] == NO_JOB
    {
      rowids := new nat[size](_ => 0);
      head, tail := 0, 0;
    }

    method Clear()
      requires Valid()
      modifies this, rowids
      ensures Valid() && View() == old(View()).Cleared()
      ensures forall i :: 0 <= i < rowids.Length ==> rowids[i] == NO_JOB
    {
      head, tail := 0, 0;
      forall i | 0 <= i < rowids.Length {
        rowids[i] := 0;
      }
    }

    method Pop() returns (job: nat)
      requires Valid()
      modifies this`tail
      ensures Valid() && (job, View()) == old(View()).Pop()
      ensures old(View().Left()) == (if old(tail) < head then [job] else []) + View().Left()
    {
      job := NO_JOB;
      if head != tail {
        job := rowids[tail];
        tail := tail + 1;
      }
    }

    /** Appends a job while there is room; places that have been read are not used again. */
    method Push(job: nat) returns (r: int)
      requires Valid()
      modifies this`head, rowids
      ensures Valid()
      ensures if old(head) < rowids.Length then r == head && View().Left() == old(View().Left()) + [job]
              else r == -1 && View() == old(View())
    {
      if head < rowids.Length {
        rowids[head] := job;
        head := head + 1;
        return head;
      }
      return -1;
    }

    method IsFull() returns (full: bool)
      requires Valid()
      ensures full == View().IsFull()
    {
      return head == rowids.Length;
    }

    method GetCount() returns (count: int)
      requires Valid()
      ensures count == |View().Left()| == View().Count()
    {
      return head - tail;
    }
  }
}
