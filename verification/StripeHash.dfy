/**
 * Incremental hashing through a 32-byte carry buffer, for any lane arithmetic.
 * Keeping the arithmetic abstract keeps the bookkeeping proofs free of bit-vectors.
 */
module StripeHash {
  import opened Bytes

  const STRIPE := 32
  const TWO_TO_64: nat := 0x1_0000_0000_0000_0000

  /**
   * The arithmetic of a hash with lanes A and result H. An input below one stripe starts from `start`;
   * the incremental form gets the same value back out of its untouched lanes with `short`.
   */
  datatype Kernel<!A, !H> = Kernel(
    init: A,
    step: (A, seq<byte>) -> A,
    long: A -> H,
    start: H,
    short: A -> H,
    addLen: (H, nat) -> H,
    eight: (H, seq<byte>) -> H,
    four: (H, seq<byte>) -> H,
    one: (H, byte) -> H,
    avalanche: H -> H
  )

  /** The 64-bit length counter. */
  function AddLen(n: nat, m: nat): nat { (n + m) % TWO_TO_64 }

  function Whole(n: nat): nat { n - n % STRIPE }

  /** Every whole stripe at the front of p, in order; a shorter rest is not looked at. */
  function Fold<A, H>(k: Kernel<A, H>, acc: A, p: seq<byte>): A
    decreases |p|
  {
    if |p| < STRIPE then acc else Fold(k, k.step(acc, p[..STRIPE]), p[STRIPE..])
  }

  /** The remaining 0..31 bytes: eights, then at most one four, then single bytes. */
  function Finalize<A, H>(k: Kernel<A, H>, h: H, p: seq<byte>): H
    decreases |p|
  {
    if |p| >= 8 then Finalize(k, k.eight(h, p[..8]), p[8..])
    else if |p| >= 4 then Finalize(k, k.four(h, p[..4]), p[4..])
    else if |p| > 0 then Finalize(k, k.one(h, p[0]), p[1..])
    else k.avalanche(h)
  }

  /** The hash of a complete input. */
  function OneShot<A, H>(k: Kernel<A, H>, input: seq<byte>): H {
    var h := if |input| >= STRIPE then k.long(Fold(k, k.init, input)) else k.start;
    Finalize(k, k.addLen(h, |input| % TWO_TO_64), input[Whole(|input|)..])
  }

  /** The incremental state: `buffer` always holds 32 bytes, `bufferedSize` of them pending. */
  datatype State<A> = State(acc: A, totalLen: nat, buffer: seq<byte>, bufferedSize: nat)

  predicate Valid<A>(st: State<A>) {
    |st.buffer| == STRIPE && st.bufferedSize < STRIPE && st.totalLen < TWO_TO_64
  }

  function Reset<A, H>(k: Kernel<A, H>): (st: State<A>)
    ensures Valid(st)
  {
    State(k.init, 0, seq(STRIPE, _ => 0), 0)
  }

  function Update<A, H>(k: Kernel<A, H>, st: State<A>, input: seq<byte>): (r: State<A>)
    requires Valid(st)
    ensures Valid(r)
  {
    var total := AddLen(st.totalLen, |input|);
    var room := STRIPE - st.bufferedSize;
    if |input| < room then
      State(st.acc, total, Overwrite(st.buffer, st.bufferedSize, input), st.bufferedSize + |input|)
    else
      var first := if st.bufferedSize > 0 then room else 0;
      var full := Overwrite(st.buffer, STRIPE - first, input[..first]);
      var acc := if st.bufferedSize > 0 then Fold(k, st.acc, full) else st.acc;
      var rest := input[first..];
      var whole := Whole(|rest|);
      State(Fold(k, acc, rest), total, Overwrite(full, 0, rest[whole..]), |rest| - whole)
  }

  function Digest<A, H>(k: Kernel<A, H>, st: State<A>): H
    requires Valid(st)
  {
    var h := if st.totalLen >= STRIPE then k.long(st.acc) else k.short(st.acc);
    Finalize(k, k.addLen(h, st.totalLen), st.buffer[..st.totalLen % STRIPE])
  }

  /** st is what any sequence of updates leaves behind that has been given exactly `data`. */
  predicate Absorbed<A(==), H>(k: Kernel<A, H>, st: State<A>, data: seq<byte>) {
    && Valid(st)
    && st.totalLen == |data| % TWO_TO_64
    && st.bufferedSize == |data| % STRIPE
    && st.acc == Fold(k, k.init, data)
    && st.buffer[..st.bufferedSize] == data[Whole(|data|)..]
  }

  lemma {:induction false} FoldConcat<A, H>(k: Kernel<A, H>, acc: A, p: seq<byte>, q: seq<byte>)
    requires |p| % STRIPE == 0
    ensures Fold(k, acc, p + q) == Fold(k, Fold(k, acc, p), q)
    decreases |p|
  {
    if |p| == 0 {
      assert p + q == q;
    } else {
      assert (p + q)[..STRIPE] == p[..STRIPE];
      assert (p + q)[STRIPE..] == p[STRIPE..] + q;
      FoldConcat(k, k.step(acc, p[..STRIPE]), p[STRIPE..], q);
    }
  }

  /** A rest shorter than a stripe adds nothing. */
  lemma FoldWhole<A, H>(k: Kernel<A, H>, acc: A, p: seq<byte>)
    ensures Fold(k, acc, p) == Fold(k, acc, p[..Whole(|p|)])
  {
    var w := Whole(|p|);
    FoldConcat(k, acc, p[..w], p[w..]);
    assert p[..w] + p[w..] == p;
  }

  lemma ResetAbsorbs<A, H>(k: Kernel<A, H>)
    ensures Absorbed(k, Reset(k), [])
  {
  }

  lemma TotalLenAdds(n: nat, m: nat)
    ensures (n % TWO_TO_64 + m) % TWO_TO_64 == (n + m) % TWO_TO_64
  {
    var q := n / TWO_TO_64;
    assert n == q * TWO_TO_64 + n % TWO_TO_64;
  }

  /** One update, whatever its length, takes the state from `data` to `data + input`. */
  lemma UpdateAbsorbs<A, H>(k: Kernel<A, H>, st: State<A>, data: seq<byte>, input: seq<byte>)
    requires Absorbed(k, st, data)
    ensures Absorbed(k, Update(k, st, input), data + input)
  {
    var room := STRIPE - st.bufferedSize;
    TotalLenAdds(|data|, |input|);
    if |input| < room {
      UpdateFitsBuffer(k, st, data, input);
    } else {
      UpdateOverflowsBuffer(k, st, data, input);
    }
  }

  /** The tail after the last whole stripe does not see whole stripes put in front. */
  lemma TailOfConcat(head: seq<byte>, rest: seq<byte>)
    requires |head| % STRIPE == 0
    ensures |head + rest| % STRIPE == |rest| % STRIPE
    ensures (head + rest)[Whole(|head + rest|)..] == rest[Whole(|rest|)..]
  {
  }

  lemma UpdateOverflowsBuffer<A, H>(k: Kernel<A, H>, st: State<A>, data: seq<byte>, input: seq<byte>)
    requires Absorbed(k, st, data) && |input| >= STRIPE - st.bufferedSize
    ensures Absorbed(k, Update(k, st, input), data + input)
  {
    var first := if st.bufferedSize > 0 then STRIPE - st.bufferedSize else 0;
    var full := Overwrite(st.buffer, STRIPE - first, input[..first]);
    var head, rest := data + input[..first], input[first..];
    var all := data + input;
    assert all == head + rest;
    var r := Update(k, st, input);
    assert r.acc == Fold(k, k.init, all) by {
      FoldHead(k, st, data, input, first, full);
      FoldConcat(k, k.init, head, rest);
    }
    assert r.totalLen == |all| % TWO_TO_64 by {
      TotalLenAdds(|data|, |input|);
    }
    assert |head| % STRIPE == 0 by {
      FoldHead(k, st, data, input, first, full);
    }
    TailOfConcat(head, rest);
    assert r.buffer[..r.bufferedSize] == rest[Whole(|rest|)..];
  }

  /** An input that fits the carry buffer only lengthens the tail after the last whole stripe. */
  lemma TailGrows(data: seq<byte>, buffer: seq<byte>, n: nat, input: seq<byte>)
    requires |buffer| == STRIPE && n == |data| % STRIPE && n + |input| < STRIPE
    requires buffer[..n] == data[Whole(|data|)..]
    ensures |data + input| % STRIPE == n + |input|
    ensures (data + input)[..Whole(|data|)] == data[..Whole(|data|)]
    ensures Overwrite(buffer, n, input)[..n + |input|] == (data + input)[Whole(|data|)..]
  {
    assert Overwrite(buffer, n, input)[..n + |input|] == buffer[..n] + input;
    assert (data + input)[Whole(|data|)..] == data[Whole(|data|)..] + input;
  }

  lemma UpdateFitsBuffer<A, H>(k: Kernel<A, H>, st: State<A>, data: seq<byte>, input: seq<byte>)
    requires Absorbed(k, st, data) && |input| < STRIPE - st.bufferedSize
    ensures Absorbed(k, Update(k, st, input), data + input)
  {
    var all := data + input;
    TailGrows(data, st.buffer, st.bufferedSize, input);
    assert Whole(|all|) == Whole(|data|);
    assert Fold(k, k.init, all) == st.acc by {
      FoldWhole(k, k.init, data);
      FoldWhole(k, k.init, all);
    }
    assert Update(k, st, input).totalLen == |all| % TWO_TO_64 by {
      TotalLenAdds(|data|, |input|);
    }
  }

  /** Completing the carry buffer makes it the stripe after the ones already consumed. */
  lemma CarryIsNextStripe(data: seq<byte>, buffer: seq<byte>, n: nat, input: seq<byte>, first: nat)
    requires |buffer| == STRIPE && n == |data| % STRIPE && first == STRIPE - n <= |input|
    requires buffer[..n] == data[Whole(|data|)..]
    ensures (|data| + first) % STRIPE == 0
    ensures data + input[..first] == data[..Whole(|data|)] + Overwrite(buffer, n, input[..first])
  {
    var w := Whole(|data|);
    assert data == data[..w] + buffer[..n];
    assert Overwrite(buffer, n, input[..first]) == buffer[..n] + input[..first];
  }

  lemma FoldHead<A, H>(k: Kernel<A, H>, st: State<A>, data: seq<byte>, input: seq<byte>, first: nat, full: seq<byte>)
    requires Absorbed(k, st, data)
    requires first == (if st.bufferedSize > 0 then STRIPE - st.bufferedSize else 0) && first <= |input|
    requires full == Overwrite(st.buffer, STRIPE - first, input[..first])
    ensures (|data| + first) % STRIPE == 0
    ensures Fold(k, k.init, data + input[..first]) == if st.bufferedSize > 0 then Fold(k, st.acc, full) else st.acc
  {
    if st.bufferedSize > 0 {
      var consumed := data[..Whole(|data|)];
      var head := data + input[..first];
      CarryIsNextStripe(data, st.buffer, st.bufferedSize, input, first);
      assert head == consumed + full;
      assert Fold(k, k.init, head) == Fold(k, st.acc, full) by {
        FoldWhole(k, k.init, data);
        FoldConcat(k, k.init, consumed, full);
      }
    } else {
      assert data + input[..first] == data;
    }
  }

  /** The state after updating with each chunk in turn. */
  function UpdateAll<A, H>(k: Kernel<A, H>, st: State<A>, chunks: seq<seq<byte>>): (r: State<A>)
    requires Valid(st)
    ensures Valid(r)
    decreases |chunks|
  {
    if |chunks| == 0 then st else UpdateAll(k, Update(k, st, chunks[0]), chunks[1..])
  }

  function Flatten(chunks: seq<seq<byte>>): seq<byte>
    decreases |chunks|
  {
    if |chunks| == 0 then [] else chunks[0] + Flatten(chunks[1..])
  }

  lemma ConcatAssoc(a: seq<byte>, b: seq<byte>, c: seq<byte>)
    ensures a + b + c == a + (b + c)
  {
  }

  lemma {:induction false} UpdateAllAbsorbs<A, H>(k: Kernel<A, H>, st: State<A>, data: seq<byte>,
                                                  chunks: seq<seq<byte>>)
    requires Absorbed(k, st, data)
    ensures Absorbed(k, UpdateAll(k, st, chunks), data + Flatten(chunks))
    decreases |chunks|
  {
    if |chunks| == 0 {
      assert data + Flatten(chunks) == data;
    } else {
      var next := Update(k, st, chunks[0]);
      assert Absorbed(k, next, data + chunks[0]) by {
        UpdateAbsorbs(k, st, data, chunks[0]);
      }
      UpdateAllAbsorbs(k, next, data + chunks[0], chunks[1..]);
      ConcatAssoc(data, chunks[0], Flatten(chunks[1..]));
    }
  }

  /** What a state that has absorbed `data` digests to is the one-shot hash of `data`. */
  lemma DigestIsOneShot<A, H>(k: Kernel<A, H>, st: State<A>, data: seq<byte>)
    requires Absorbed(k, st, data) && |data| < TWO_TO_64 && k.short(k.init) == k.start
    ensures Digest(k, st) == OneShot(k, data)
  {
    hide Finalize, Fold;
    ShortFold(k, data);
    assert |data| % TWO_TO_64 == |data|;
    assert st.buffer[..st.totalLen % STRIPE] == data[Whole(|data|)..];
    hide Absorbed, Whole;
  }

  lemma ShortFold<A, H>(k: Kernel<A, H>, data: seq<byte>)
    ensures |data| < STRIPE ==> Fold(k, k.init, data) == k.init
  {
  }

  /** For every input below 2^64 bytes and every split of it into chunks. */
  lemma StreamingIsOneShot<A, H>(k: Kernel<A, H>, chunks: seq<seq<byte>>)
    requires |Flatten(chunks)| < TWO_TO_64 && k.short(k.init) == k.start
    ensures Digest(k, UpdateAll(k, Reset(k), chunks)) == OneShot(k, Flatten(chunks))
  {
    var data := Flatten(chunks);
    assert [] + data == data;
    UpdateAllAbsorbs(k, Reset(k), [], chunks);
    DigestIsOneShot(k, UpdateAll(k, Reset(k), chunks), data);
  }

  /** The mutable hash state of the library: lanes and carry buffer updated in place. */
  class Hasher<A, H> {
    const k: Kernel<A, H>
    const buffer: array<byte>
    var acc: A
    var totalLen: nat
    var bufferedSize: nat

    ghost predicate Valid()
      reads this, buffer
    {
      buffer.Length == STRIPE && bufferedSize < STRIPE && totalLen < TWO_TO_64
    }

    ghost function View(): State<A>
      reads this, buffer
    {
      State(acc, totalLen, buffer[..], bufferedSize)
    }

    constructor (k: Kernel<A, H>)
      ensures Valid() && fresh(buffer) && this.k == k
      ensures View() == Reset(k)
    {
      this.k := k;
      acc, totalLen, bufferedSize := k.init, 0, 0;
      buffer := new byte[STRIPE](_ => 0);
      new;
      assert buffer[..] == seq(STRIPE, _ => 0);
    }

    /** Consumes every whole stripe of an input that has at least one; returns the bytes consumed. */
    method ConsumeLong(input: seq<byte>) returns (at: nat)
      requires |input| >= STRIPE
      modifies this`acc
      ensures at == Whole(|input|)
      ensures acc == Fold(k, old(acc), input)
    {
      at := 0;
      assert input[at..] == input;
      while at + STRIPE <= |input|
        invariant at <= |input| && at % STRIPE == 0
        invariant Fold(k, acc, input[at..]) == Fold(k, old(acc), input)
        decreases |input| - at
      {
        assert input[at..][..STRIPE] == input[at..at + STRIPE];
        assert input[at..][STRIPE..] == input[at + STRIPE..];
        acc := k.step(acc, input[at..at + STRIPE]);
        at := at + STRIPE;
      }
    }

    /** Copies data into the carry buffer. */
    method Fill(at: nat, data: seq<byte>)
      requires at + |data| <= buffer.Length
      modifies buffer
      ensures buffer[..] == Overwrite(old(buffer[..]), at, data)
    {
      forall i | 0 <= i < |data| {
        buffer[at + i] := data[i];
      }
    }

    /** Tops up a non-empty carry buffer and consumes it; returns how much input that took. */
    method CompleteCarry(input: seq<byte>) returns (first: nat)
      requires Valid() && |input| >= STRIPE - bufferedSize
      modifies this`acc, this`bufferedSize, buffer
      ensures first == if old(bufferedSize) > 0 then STRIPE - old(bufferedSize) else 0
      ensures bufferedSize == 0
      ensures buffer[..] == Overwrite(old(buffer[..]), STRIPE - first, input[..first])
      ensures acc == if first > 0 then Fold(k, old(acc), buffer[..]) else old(acc)
    {
      first := 0;
      if bufferedSize > 0 {
        first := STRIPE - bufferedSize;
        Fill(bufferedSize, input[..first]);
        var _ := ConsumeLong(buffer[..]);
        bufferedSize := 0;
      }
    }

    /** Consumes the whole stripes of the rest of an input and keeps its tail. */
    method ConsumeRest(rest: seq<byte>)
      requires Valid() && bufferedSize == 0
      modifies this`acc, this`bufferedSize, buffer
      ensures acc == Fold(k, old(acc), rest)
      ensures bufferedSize == |rest| - Whole(|rest|)
      ensures buffer[..] == Overwrite(old(buffer[..]), 0, rest[Whole(|rest|)..])
    {
      var at := 0;
      if |rest| >= STRIPE {
        at := ConsumeLong(rest);
      }
      if at < |rest| {
        Fill(0, rest[at..]);
        bufferedSize := |rest| - at;
      }
    }

    method UpdateWith(input: seq<byte>)
      requires Valid()
      modifies this, buffer
      ensures Valid()
      ensures View() == Update(k, old(View()), input)
    {
      ghost var before := buffer[..];
      totalLen := AddLen(totalLen, |input|);
      assert buffer[..] == before;
      if |input| < STRIPE - bufferedSize {
        Fill(bufferedSize, input);
        bufferedSize := bufferedSize + |input|;
      } else {
        var first := CompleteCarry(input);
        ConsumeRest(input[first..]);
      }
    }

    method FinalizeTail(start: H, p: seq<byte>) returns (h: H)
      ensures h == Finalize(k, start, p)
    {
      h := start;
      var at := 0;
      assert p[at..] == p;
      while |p| - at >= 8
        invariant at <= |p|
        invariant Finalize(k, h, p[at..]) == Finalize(k, start, p)
      {
        assert p[at..][..8] == p[at..at + 8] && p[at..][8..] == p[at + 8..];
        h := k.eight(h, p[at..at + 8]);
        at := at + 8;
      }
      if |p| - at >= 4 {
        assert p[at..][..4] == p[at..at + 4] && p[at..][4..] == p[at + 4..];
        h := k.four(h, p[at..at + 4]);
        at := at + 4;
      }
      while at < |p|
        invariant at <= |p| && |p| - at < 4
        invariant Finalize(k, h, p[at..]) == Finalize(k, start, p)
      {
        assert p[at..][1..] == p[at + 1..];
        h := k.one(h, p[at]);
        at := at + 1;
      }
      h := k.avalanche(h);
    }

    method DigestNow() returns (h: H)
      requires Valid()
      ensures h == Digest(k, View())
    {
      h := if totalLen >= STRIPE then k.long(acc) else k.short(acc);
      h := FinalizeTail(k.addLen(h, totalLen), buffer[..totalLen % STRIPE]);
    }
  }

  /** The one-shot entry point, with the stripe and tail loops of the library. */
  method HashOnce<A, H>(k: Kernel<A, H>, input: seq<byte>) returns (h: H)
    ensures h == OneShot(k, input)
  {
    var work := new Hasher(k);
    var at := 0;
    if |input| >= STRIPE {
      at := work.ConsumeLong(input);
      h := k.long(work.acc);
    } else {
      h := k.start;
    }
    h := work.FinalizeTail(k.addLen(h, |input| % TWO_TO_64), input[at..]);
  }
}
