/**
 * Incremental XXH3: stripes, blocks with scrambling, the 256-byte buffer and the last stripe, which may
 * wrap around the buffer. The arithmetic on lanes stays abstract.
 */
module Xxh3 {
  import opened Bytes

  const STRIPE_LEN: nat := 64
  const SECRET_CONSUME_RATE: nat := 8
  const INTERNALBUFFER_SIZE: nat := 256
  const MIDSIZE_MAX: nat := 240
  const SECRET_SIZE_MIN: nat := 136
  const SECRET_LASTACC_START: nat := 7

  /** Lanes A and result H: one stripe with 64 bytes of secret, scrambling, and the two ways to finish. */
  datatype Core<!A, !H> = Core(
    init: A,
    accumulate: (A, seq<byte>, seq<byte>) -> A,
    scramble: (A, seq<byte>) -> A,
    finish: (A, nat) -> H,
    short: seq<byte> -> H,
    secret: seq<byte>
  )
  {
    function Limit(): (r: nat)
      requires |secret| >= SECRET_SIZE_MIN
      ensures r + STRIPE_LEN == |secret|
    {
      |secret| - STRIPE_LEN
    }

    function StripesPerBlock(): (r: nat)
      requires |secret| >= SECRET_SIZE_MIN
      ensures r > 0 && SECRET_CONSUME_RATE * r <= Limit()
    {
      Limit() / SECRET_CONSUME_RATE
    }

    function SecretAt(offset: nat): seq<byte>
      requires offset + STRIPE_LEN <= |secret|
    {
      secret[offset..offset + STRIPE_LEN]
    }
  }

  /** Lanes and the number of stripes of the current block that they have taken. */
  datatype Lanes<A> = Lanes(acc: A, soFar: nat)

  /** One stripe; the last one of a block is followed by scrambling. */
  function Step<A, H>(k: Core<A, H>, st: Lanes<A>, stripe: seq<byte>): (r: Lanes<A>)
    requires |k.secret| >= SECRET_SIZE_MIN && st.soFar < k.StripesPerBlock()
    ensures r.soFar < k.StripesPerBlock()
  {
    var acc := k.accumulate(st.acc, stripe, k.SecretAt(st.soFar * SECRET_CONSUME_RATE));
    if st.soFar + 1 == k.StripesPerBlock() then Lanes(k.scramble(acc, k.SecretAt(k.Limit())), 0)
    else Lanes(acc, st.soFar + 1)
  }

  /** All whole stripes of p, one after the other: the meaning of every way of consuming them. */
  function Stripes<A, H>(k: Core<A, H>, st: Lanes<A>, p: seq<byte>): (r: Lanes<A>)
    requires |k.secret| >= SECRET_SIZE_MIN && st.soFar < k.StripesPerBlock()
    ensures r.soFar < k.StripesPerBlock()
    decreases |p|
  {
    if |p| < STRIPE_LEN then st else Stripes(k, Step(k, st, p[..STRIPE_LEN]), p[STRIPE_LEN..])
  }

  lemma {:induction false} StripesConcat<A, H>(k: Core<A, H>, st: Lanes<A>, p: seq<byte>, q: seq<byte>)
    requires |k.secret| >= SECRET_SIZE_MIN && st.soFar < k.StripesPerBlock() && |p| % STRIPE_LEN == 0
    ensures Stripes(k, st, p + q) == Stripes(k, Stripes(k, st, p), q)
    decreases |p|
  {
    if |p| == 0 {
      assert p + q == q;
    } else {
      assert (p + q)[..STRIPE_LEN] == p[..STRIPE_LEN] && (p + q)[STRIPE_LEN..] == p[STRIPE_LEN..] + q;
      StripesConcat(k, Step(k, st, p[..STRIPE_LEN]), p[STRIPE_LEN..], q);
    }
  }

  // ---------------------------------------------------------------- blocks

  /** n stripes in a row without scrambling, with the secret from stripe `from` of the block on. */
  method Accumulate<A, H>(k: Core<A, H>, start: A, p: seq<byte>, from: nat, n: nat) returns (acc: A)
    requires |k.secret| >= SECRET_SIZE_MIN && |p| == STRIPE_LEN * n && from + n <= k.StripesPerBlock()
    ensures acc == Accumulated(k, start, p, from)
  {
    acc := start;
    assert p[0..] == p;
    for i := 0 to n
      invariant STRIPE_LEN * i <= |p|
      invariant Accumulated(k, acc, p[STRIPE_LEN * i..], from + i) == Accumulated(k, start, p, from)
    {
      var rest := p[STRIPE_LEN * i..];
      assert rest[STRIPE_LEN..] == p[STRIPE_LEN * (i + 1)..];
      acc := k.accumulate(acc, rest[..STRIPE_LEN], k.SecretAt((from + i) * SECRET_CONSUME_RATE));
    }
  }

  function Accumulated<A, H>(k: Core<A, H>, acc: A, p: seq<byte>, from: nat): A
    requires |k.secret| >= SECRET_SIZE_MIN && from + |p| / STRIPE_LEN <= k.StripesPerBlock()
    decreases |p|
  {
    if |p| < STRIPE_LEN then acc
    else
      Accumulated(k, k.accumulate(acc, p[..STRIPE_LEN], k.SecretAt(from * SECRET_CONSUME_RATE)), p[STRIPE_LEN..],
        from + 1)
  }

  /** Stripes that do not complete the block are only accumulated; those that do are then scrambled. */
  lemma {:induction false} StripesInBlock<A, H>(k: Core<A, H>, acc: A, soFar: nat, p: seq<byte>)
    requires |k.secret| >= SECRET_SIZE_MIN && soFar < k.StripesPerBlock() && |p| % STRIPE_LEN == 0
    requires soFar + |p| / STRIPE_LEN <= k.StripesPerBlock()
    ensures Stripes(k, Lanes(acc, soFar), p)
      == if soFar + |p| / STRIPE_LEN < k.StripesPerBlock()
        then Lanes(Accumulated(k, acc, p, soFar), soFar + |p| / STRIPE_LEN)
         else Lanes(k.scramble(Accumulated(k, acc, p, soFar), k.SecretAt(k.Limit())), 0)
    decreases |p|
  {
    if |p| > 0 {
      var acc2 := k.accumulate(acc, p[..STRIPE_LEN], k.SecretAt(soFar * SECRET_CONSUME_RATE));
      if |p| == STRIPE_LEN {
        assert p[STRIPE_LEN..] == [];
      } else {
        StripesInBlock(k, acc2, soFar + 1, p[STRIPE_LEN..]);
      }
    }
  }

  /** Processes stripes that may lie across blocks: the rest of the block, whole blocks, a partial block. */
  method ConsumeStripes<A, H>(k: Core<A, H>, st: Lanes<A>, input: seq<byte>, nbStripes: nat) returns (r: Lanes<A>)
    requires |k.secret| >= SECRET_SIZE_MIN && st.soFar < k.StripesPerBlock() && |input| == STRIPE_LEN * nbStripes
    ensures r == Stripes(k, st, input)
  {
    hide Stripes, Step;
    var perBlock := k.StripesPerBlock();
    var acc, soFar, p, left, initial := st.acc, st.soFar, input, nbStripes, st.soFar;
    if left >= perBlock - soFar {
      var thisIter := perBlock - soFar;
      while true
        invariant initial < perBlock && thisIter == perBlock - initial && left >= thisIter && |p| == STRIPE_LEN * left
        invariant Stripes(k, Lanes(acc, initial), p) == Stripes(k, st, input)
        decreases left
      {
        BlockDone(k, acc, initial, p, thisIter);
        acc := Accumulate(k, acc, p[..STRIPE_LEN * thisIter], initial, thisIter);
        acc := k.scramble(acc, k.SecretAt(k.Limit()));
        p := p[STRIPE_LEN * thisIter..];
        left := left - thisIter;
        thisIter := perBlock;
        initial := 0;
        if left < perBlock {
          break;
        }
      }
      soFar := 0;
    }
    NoneLeft(k, Lanes(acc, soFar), p);
    if left > 0 {
      WholeStripes(p, left);
      StripesInBlock(k, acc, soFar, p);
      acc := Accumulate(k, acc, p, initial, left);
      soFar := soFar + left;
    }
    r := Lanes(acc, soFar);
  }

  lemma BlockDone<A, H>(k: Core<A, H>, acc: A, from: nat, p: seq<byte>, n: nat)
    requires |k.secret| >= SECRET_SIZE_MIN && from < k.StripesPerBlock() && n == k.StripesPerBlock() - from
    requires STRIPE_LEN * n <= |p|
    ensures var block := p[..STRIPE_LEN * n];
      Stripes(k, Lanes(acc, from), p)
      == Stripes(k, Lanes(k.scramble(Accumulated(k, acc, block, from), k.SecretAt(k.Limit())), 0), p[STRIPE_LEN * n..])
  {
    hide Stripes, Accumulated;
    var block := p[..STRIPE_LEN * n];
    WholeStripes(block, n);
    StripesInBlock(k, acc, from, block);
    StripesConcat(k, Lanes(acc, from), block, p[STRIPE_LEN * n..]);
    assert block + p[STRIPE_LEN * n..] == p;
  }

  lemma NoneLeft<A, H>(k: Core<A, H>, st: Lanes<A>, p: seq<byte>)
    requires |k.secret| >= SECRET_SIZE_MIN && st.soFar < k.StripesPerBlock()
    ensures |p| == 0 ==> Stripes(k, st, p) == st
  {
  }

  lemma WholeStripes(p: seq<byte>, n: nat)
    requires |p| == STRIPE_LEN * n
    ensures |p| % STRIPE_LEN == 0 && |p| / STRIPE_LEN == n
  {
  }

  // ---------------------------------------------------------------- one shot

  /** Whole stripes of an input of n bytes except that the last byte is always left over. */
  function Settled(n: nat): (m: nat)
    requires n > 0
    ensures m < n && m % STRIPE_LEN == 0 && n - m <= STRIPE_LEN
  {
    DivStep(n - 1, STRIPE_LEN);
    Multiple((n - 1) / STRIPE_LEN);
    STRIPE_LEN * ((n - 1) / STRIPE_LEN)
  }

  function Start<A, H>(k: Core<A, H>): Lanes<A> { Lanes(k.init, 0) }

  /** The lanes of a long input: all settled stripes, then the input's last 64 bytes with their own secret. */
  function LongAcc<A, H>(k: Core<A, H>, input: seq<byte>): A
    requires |k.secret| >= SECRET_SIZE_MIN && |input| > STRIPE_LEN
  {
    LastStripe(k, Stripes(k, Start(k), input[..Settled(|input|)]).acc, input[|input| - STRIPE_LEN..])
  }

  function LastStripe<A, H>(k: Core<A, H>, acc: A, stripe: seq<byte>): A
    requires |k.secret| >= SECRET_SIZE_MIN
  {
    k.accumulate(acc, stripe, k.SecretAt(k.Limit() - SECRET_LASTACC_START))
  }

  function OneShot<A, H>(k: Core<A, H>, input: seq<byte>): H
    requires |k.secret| >= SECRET_SIZE_MIN
  {
    if |input| <= MIDSIZE_MAX then k.short(input) else k.finish(LongAcc(k, input), |input|)
  }

  /**
   * The one-shot hash in numbers: the short form up to 240 bytes, else all whole stripes of 64 bytes in
   * front of the last byte, and the last 64 bytes.
   */
  lemma OneShotInNumbers<A, H>(k: Core<A, H>, input: seq<byte>)
    requires |k.secret| >= 136
    ensures |input| <= 240 ==> OneShot(k, input) == k.short(input)
    ensures |input| > 240 ==>
      var n, s := |input|, |k.secret|;
      var lanes := Stripes(k, Lanes(k.init, 0), input[..(n - 1) / 64 * 64]);
      OneShot(k, input) == k.finish(k.accumulate(lanes.acc, input[n - 64..], k.secret[s - 71..s - 7]), n)
  {
    hide Stripes;
    if |input| > 240 {
      var s := |k.secret|;
      SettledMeans(|input|);
      assert Settled(|input|) == (|input| - 1) / 64 * 64;
      assert k.SecretAt(k.Limit() - SECRET_LASTACC_START) == k.secret[s - 71..s - 7];
    }
  }

  /** A stripe in numbers: eight bytes further into the secret each time, scrambling when the secret is used up. */
  lemma StepInNumbers<A, H>(k: Core<A, H>, st: Lanes<A>, stripe: seq<byte>)
    requires |k.secret| >= 136 && st.soFar < (|k.secret| - 64) / 8
    ensures var at, s := 8 * st.soFar, |k.secret|;
      var acc := k.accumulate(st.acc, stripe, k.secret[at..at + 64]);
      Step(k, st, stripe)
      == if st.soFar + 1 == (s - 64) / 8 then Lanes(k.scramble(acc, k.secret[s - 64..]), 0)
        else Lanes(acc, st.soFar + 1)
  {
    var at := 8 * st.soFar;
    assert k.StripesPerBlock() == (|k.secret| - 64) / 8;
    assert st.soFar * SECRET_CONSUME_RATE == at;
    assert k.SecretAt(st.soFar * SECRET_CONSUME_RATE) == k.secret[at..at + 64];
    assert k.secret[k.Limit()..] == k.SecretAt(k.Limit());
  }

  /** Whole blocks in front of the last byte. */
  function BlockCount(n: nat, blockLen: nat): nat
    requires n > 0 && blockLen > 0
  {
    (n - 1) / blockLen
  }

  function Extent(blockLen: nat, n: nat): nat { blockLen * n }

  /** Blocks of an input: how the number of stripes splits into blocks and a rest. */
  lemma BlocksOf(n: nat, perBlock: nat)
    requires n > 0 && perBlock > 0
    ensures var blocks := BlockCount(n, STRIPE_LEN * perBlock);
      var left := (n - 1) - Extent(STRIPE_LEN * perBlock, blocks);
      && 0 <= left < STRIPE_LEN * perBlock && left / STRIPE_LEN < perBlock
      && Extent(STRIPE_LEN * perBlock, blocks) + STRIPE_LEN * (left / STRIPE_LEN) == Settled(n)
    ensures Extent(STRIPE_LEN * perBlock, 0) == 0
  {
    var x, b := n - 1, STRIPE_LEN * perBlock;
    var blocks := x / b;
    DivStep(x, b);
    var left := x - b * blocks;
    DivStep(left, STRIPE_LEN);
    var q := left / STRIPE_LEN;
    assert x == STRIPE_LEN * (perBlock * blocks + q) + left % STRIPE_LEN;
    DivUnique(x, STRIPE_LEN, perBlock * blocks + q, left % STRIPE_LEN);
    assert STRIPE_LEN * q < STRIPE_LEN * perBlock;
  }

  lemma DivStep(x: nat, b: nat)
    requires b > 0
    ensures x == b * (x / b) + x % b && 0 <= x % b < b
  {
  }

  lemma Multiple(q: nat)
    ensures STRIPE_LEN * q % STRIPE_LEN == 0
  {
  }

  lemma DivUnique(x: nat, b: nat, q: nat, r: nat)
    requires b > 0 && x == b * q + r && r < b
    ensures x / b == q
  {
    var d := x / b - q;
    assert b * d == r - x % b;
  }

  /** The long-hash loop: whole blocks, each scrambled, a partial block and the last stripe. */
  method HashLong<A, H>(k: Core<A, H>, input: seq<byte>) returns (acc: A)
    requires |k.secret| >= SECRET_SIZE_MIN && |input| > STRIPE_LEN
    ensures acc == LongAcc(k, input)
  {
    hide Stripes, Accumulated, Settled, Extent, BlockCount;
    var perBlock := k.StripesPerBlock();
    var blockLen := STRIPE_LEN * perBlock;
    var nbBlocks := BlockCount(|input|, blockLen);
    var left := (|input| - 1) - Extent(blockLen, nbBlocks);
    BlocksOf(|input|, perBlock);
    acc := k.init;
    var at := 0;
    NoneLeft(k, Start(k), input[..0]);
    for n := 0 to nbBlocks
      invariant at == Extent(blockLen, n) <= Extent(blockLen, nbBlocks) <= |input| && at % STRIPE_LEN == 0
      invariant Lanes(acc, 0) == Stripes(k, Start(k), input[..at])
    {
      BlockFits(perBlock, n, nbBlocks, at);
      BlockOf(k, acc, input, at, perBlock);
      acc := Accumulate(k, acc, input[at..at + blockLen], 0, perBlock);
      acc := k.scramble(acc, k.SecretAt(k.Limit()));
      at := at + blockLen;
    }
    var nbStripes := left / STRIPE_LEN;
    BlockOf(k, acc, input, at, nbStripes);
    acc := Accumulate(k, acc, input[at..at + STRIPE_LEN * nbStripes], 0, nbStripes);
    acc := k.accumulate(acc, input[|input| - STRIPE_LEN..], k.SecretAt(k.Limit() - SECRET_LASTACC_START));
  }

  /** n more stripes from the beginning of a block. */
  lemma BlockOf<A, H>(k: Core<A, H>, acc: A, input: seq<byte>, at: nat, n: nat)
    requires |k.secret| >= SECRET_SIZE_MIN && at % STRIPE_LEN == 0 && at + STRIPE_LEN * n <= |input|
    requires n <= k.StripesPerBlock()
    requires Lanes(acc, 0) == Stripes(k, Start(k), input[..at])
    ensures var piece := input[at..at + STRIPE_LEN * n];
      |piece| / STRIPE_LEN == n &&
      Stripes(k, Start(k), input[..at + STRIPE_LEN * n])
      == if n < k.StripesPerBlock() then Lanes(Accumulated(k, acc, piece, 0), n)
         else Lanes(k.scramble(Accumulated(k, acc, piece, 0), k.SecretAt(k.Limit())), 0)
  {
    hide Stripes, Accumulated;
    NextPiece(k, input, at, at + STRIPE_LEN * n);
    StripesInBlock(k, acc, 0, input[at..at + STRIPE_LEN * n]);
  }

  lemma BlockFits(perBlock: nat, n: nat, m: nat, at: nat)
    requires n < m && at == Extent(STRIPE_LEN * perBlock, n) && at % STRIPE_LEN == 0
    ensures at + STRIPE_LEN * perBlock == Extent(STRIPE_LEN * perBlock, n + 1) <= Extent(STRIPE_LEN * perBlock, m)
    ensures (at + STRIPE_LEN * perBlock) % STRIPE_LEN == 0
  {
    hide Extent;
    ExtentStep(STRIPE_LEN * perBlock, n, m);
  }

  lemma ExtentStep(b: nat, n: nat, m: nat)
    requires n < m
    ensures Extent(b, n) + b == Extent(b, n + 1) <= Extent(b, m)
  {
    assert b * m == b * (n + 1) + b * (m - n - 1);
  }

  lemma NextPiece<A, H>(k: Core<A, H>, input: seq<byte>, a: nat, b: nat)
    requires |k.secret| >= SECRET_SIZE_MIN && a <= b <= |input| && a % STRIPE_LEN == 0
    ensures Stripes(k, Start(k), input[..b]) == Stripes(k, Stripes(k, Start(k), input[..a]), input[a..b])
  {
    assert input[..b] == input[..a] + input[a..b];
    StripesConcat(k, Start(k), input[..a], input[a..b]);
  }

  /** The one-shot entry point. */
  method HashOnce<A, H>(k: Core<A, H>, input: seq<byte>) returns (h: H)
    requires |k.secret| >= SECRET_SIZE_MIN
    ensures h == OneShot(k, input)
  {
    if |input| <= MIDSIZE_MAX {
      return k.short(input);
    }
    var acc := HashLong(k, input);
    return k.finish(acc, |input|);
  }

  // ---------------------------------------------------------------- streaming

  /**
   * The state after any updates with the bytes of `data`: all but the last n bytes have been consumed,
   * those are in the buffer, and if they are less than a stripe, the buffer ends with the stripe consumed last.
   */
  ghost predicate Absorbed<A, H>(k: Core<A, H>, st: Lanes<A>, buffer: seq<byte>, n: nat, data: seq<byte>) {
    && |k.secret| >= SECRET_SIZE_MIN && |buffer| == INTERNALBUFFER_SIZE && n <= INTERNALBUFFER_SIZE && n <= |data|
    && (|data| > 0 ==> n > 0) && (|data| <= INTERNALBUFFER_SIZE ==> n == |data|)
    && Consumed(k, st, buffer, n, data)
    && buffer[..n] == data[|data| - n..]
  }

  ghost predicate Consumed<A, H>(k: Core<A, H>, st: Lanes<A>, buffer: seq<byte>, n: nat, data: seq<byte>)
    requires |k.secret| >= SECRET_SIZE_MIN && |buffer| == INTERNALBUFFER_SIZE && n <= |data|
  {
    var m := |data| - n;
    && m % STRIPE_LEN == 0 && st == Stripes(k, Start(k), data[..m])
    && (m > 0 && n < STRIPE_LEN ==> buffer[INTERNALBUFFER_SIZE - STRIPE_LEN..] == data[m - STRIPE_LEN..m])
  }

  /** A short update only lengthens what is in the buffer. */
  lemma Buffered<A, H>(k: Core<A, H>, st: Lanes<A>, buffer: seq<byte>, n: nat, data: seq<byte>, input: seq<byte>)
    requires Absorbed(k, st, buffer, n, data) && n + |input| <= INTERNALBUFFER_SIZE
    ensures Absorbed(k, st, Overwrite(buffer, n, input), n + |input|, data + input)
  {
    hide Stripes;
    var all, m, now := data + input, |data| - n, Overwrite(buffer, n, input);
    assert all[..m] == data[..m] && all[m..] == data[m..] + input;
    assert now[..n + |input|] == buffer[..n] + input;
    if m > 0 && n + |input| < STRIPE_LEN {
      assert now[INTERNALBUFFER_SIZE - STRIPE_LEN..] == buffer[INTERNALBUFFER_SIZE - STRIPE_LEN..];
      assert all[m - STRIPE_LEN..m] == data[m - STRIPE_LEN..m];
    }
  }

  /** In the middle of a long update everything given so far has been consumed. */
  ghost predicate Emptied<A, H>(k: Core<A, H>, st: Lanes<A>, buffer: seq<byte>, data: seq<byte>) {
    && |k.secret| >= SECRET_SIZE_MIN && |buffer| == INTERNALBUFFER_SIZE
    && Consumed(k, st, buffer, 0, data)
  }

  /** The buffer, filled up, is consumed. */
  lemma FilledUp<A, H>(k: Core<A, H>, st: Lanes<A>, buffer: seq<byte>, n: nat, data: seq<byte>, input: seq<byte>)
    requires Absorbed(k, st, buffer, n, data) && n + |input| == INTERNALBUFFER_SIZE
    ensures st.soFar < k.StripesPerBlock()
    ensures var full := Overwrite(buffer, n, input);
      Emptied(k, Stripes(k, st, full), full, data + input)
  {
    hide Stripes, Step, Overwrite, Absorbed, Emptied;
    AbsorbedMeans(k, st, buffer, n, data);
    var m, full := |data| - n, Overwrite(buffer, n, input);
    FullBuffer(buffer, n, data, input);
    StripesConcat(k, Start(k), data[..m], full);
    LastOf(data[..m], full);
    EmptiedMeans(k, Stripes(k, st, full), full, data + input);
  }

  lemma AbsorbedMeans<A, H>(k: Core<A, H>, st: Lanes<A>, buffer: seq<byte>, n: nat, data: seq<byte>)
    requires Absorbed(k, st, buffer, n, data)
    ensures n <= INTERNALBUFFER_SIZE && n <= |data| && |k.secret| >= SECRET_SIZE_MIN && |buffer| == INTERNALBUFFER_SIZE
    ensures (|data| - n) % STRIPE_LEN == 0 && st == Stripes(k, Start(k), data[..|data| - n])
    ensures buffer[..n] == data[|data| - n..]
  {
    hide Stripes, Step;
  }

  lemma FullBuffer(buffer: seq<byte>, n: nat, data: seq<byte>, input: seq<byte>)
    requires n <= |data| && n + |input| == |buffer| && buffer[..n] == data[|data| - n..]
    ensures data + input == data[..|data| - n] + Overwrite(buffer, n, input)
  {
    assert Overwrite(buffer, n, input) == buffer[..n] + input;
    assert data == data[..|data| - n] + data[|data| - n..];
  }

  lemma LastOf(front: seq<byte>, full: seq<byte>)
    requires |full| == INTERNALBUFFER_SIZE
    ensures var all := front + full; full[INTERNALBUFFER_SIZE - STRIPE_LEN..] == all[|all| - STRIPE_LEN..|all|]
  {
  }

  /** Settled stripes of a long rest are consumed, and the last of them is kept at the end of the buffer. */
  lemma RestConsumed<A, H>(k: Core<A, H>, st: Lanes<A>, buffer: seq<byte>, data: seq<byte>, piece: seq<byte>)
    requires Emptied(k, st, buffer, data) && |piece| % STRIPE_LEN == 0 && |piece| >= STRIPE_LEN
    ensures st.soFar < k.StripesPerBlock()
    ensures Emptied(k, Stripes(k, st, piece),
                    Overwrite(buffer, INTERNALBUFFER_SIZE - STRIPE_LEN, piece[|piece| - STRIPE_LEN..]), data + piece)
  {
    hide Stripes, Step, Overwrite, Emptied;
    EmptiedFacts(k, st, buffer, data);
    EmptiedMeans(k, st, buffer, data);
    StripesConcat(k, Start(k), data, piece);
    LastKept(buffer, data, piece);
    EmptiedMeans(k, Stripes(k, st, piece),
                 Overwrite(buffer, INTERNALBUFFER_SIZE - STRIPE_LEN, piece[|piece| - STRIPE_LEN..]), data + piece);
  }

  lemma EmptiedMeans<A, H>(k: Core<A, H>, st: Lanes<A>, buffer: seq<byte>, data: seq<byte>)
    requires |k.secret| >= SECRET_SIZE_MIN && |buffer| == INTERNALBUFFER_SIZE
    ensures Emptied(k, st, buffer, data) <==>
      && |data| % STRIPE_LEN == 0 && st == Stripes(k, Start(k), data)
      && (|data| > 0 ==> buffer[INTERNALBUFFER_SIZE - STRIPE_LEN..] == data[|data| - STRIPE_LEN..|data|])
  {
    hide Stripes, Step;
    assert data[..|data|] == data;
  }

  lemma LastKept(buffer: seq<byte>, data: seq<byte>, piece: seq<byte>)
    requires |buffer| == INTERNALBUFFER_SIZE && |piece| >= STRIPE_LEN
    ensures var all, now := data + piece,
      Overwrite(buffer, INTERNALBUFFER_SIZE - STRIPE_LEN, piece[|piece| - STRIPE_LEN..]);
      now[INTERNALBUFFER_SIZE - STRIPE_LEN..] == all[|all| - STRIPE_LEN..|all|]
  {
    var all, now := data + piece, Overwrite(buffer, INTERNALBUFFER_SIZE - STRIPE_LEN, piece[|piece| - STRIPE_LEN..]);
    assert now[INTERNALBUFFER_SIZE - STRIPE_LEN..] == piece[|piece| - STRIPE_LEN..];
    assert all[|all| - STRIPE_LEN..|all|] == piece[|piece| - STRIPE_LEN..];
  }

  /** What is left of a long update goes to the front of the buffer. */
  lemma RestBuffered<A, H>(k: Core<A, H>, st: Lanes<A>, buffer: seq<byte>, data: seq<byte>, rest: seq<byte>)
    requires Emptied(k, st, buffer, data) && 0 < |rest| <= INTERNALBUFFER_SIZE
    requires (|data| == 0 || |data| >= INTERNALBUFFER_SIZE)
    ensures Absorbed(k, st, Overwrite(buffer, 0, rest), |rest|, data + rest)
  {
    hide Stripes;
    var all, now := data + rest, Overwrite(buffer, 0, rest);
    assert data[..|data|] == data && all[..|data|] == data && all[|data|..] == rest;
    assert now[..|rest|] == rest;
    if |data| > 0 && |rest| < STRIPE_LEN {
      assert now[INTERNALBUFFER_SIZE - STRIPE_LEN..] == buffer[INTERNALBUFFER_SIZE - STRIPE_LEN..];
      assert all[|data| - STRIPE_LEN..|data|] == data[|data| - STRIPE_LEN..];
    }
  }

  /** The mutable state of the library. */
  class Stream<A, H> {
    const k: Core<A, H>
    const buffer: array<byte>
    var acc: A
    var soFar: nat
    var bufferedSize: nat
    var totalLen: nat
    ghost var data: seq<byte>

    ghost predicate Valid()
      reads this, buffer
    {
      buffer.Length == INTERNALBUFFER_SIZE && totalLen == |data|
        && Absorbed(k, Lanes(acc, soFar), buffer[..], bufferedSize, data)
    }

    constructor (k: Core<A, H>)
      requires |k.secret| >= SECRET_SIZE_MIN
      ensures Valid() && fresh(buffer) && this.k == k && data == []
    {
      this.k := k;
      acc, soFar, bufferedSize, totalLen, data := k.init, 0, 0, 0, [];
      buffer := new byte[INTERNALBUFFER_SIZE](_ => 0);
    }

    /** Copies bytes into the buffer. */
    method Copy(at: nat, bytes: seq<byte>)
      requires at + |bytes| <= buffer.Length
      modifies buffer
      ensures buffer[..] == Overwrite(old(buffer[..]), at, bytes)
    {
      forall i | 0 <= i < |bytes| {
        buffer[at + i] := bytes[i];
      }
    }

    method Consume(input: seq<byte>, nbStripes: nat)
      requires |k.secret| >= SECRET_SIZE_MIN && soFar < k.StripesPerBlock() && |input| == STRIPE_LEN * nbStripes
      modifies this`acc, this`soFar
      ensures Lanes(acc, soFar) == Stripes(k, old(Lanes(acc, soFar)), input)
    {
      var r := ConsumeStripes(k, Lanes(acc, soFar), input, nbStripes);
      acc, soFar := r.acc, r.soFar;
    }

    /** Adds input of any length. */
    method Update(input: seq<byte>)
      requires Valid()
      modifies this, buffer
      ensures Valid() && data == old(data) + input
    {
      hide Absorbed, Emptied, Stripes;
      BufferedSize(k, Lanes(acc, soFar), buffer[..], bufferedSize, data);
      totalLen := totalLen + |input|;
      if |input| <= INTERNALBUFFER_SIZE - bufferedSize {
        Buffered(k, Lanes(acc, soFar), buffer[..], bufferedSize, data, input);
        Copy(bufferedSize, input);
        bufferedSize := bufferedSize + |input|;
        data := data + input;
        return;
      }
      var loadSize := TopUp(input);
      var rest := input[loadSize..];
      Store(rest);
      assert old(data) + input[..loadSize] + rest == old(data) + input;
    }

    /** Completes and consumes a buffer that is not empty; returns how many bytes of input that took. */
    method TopUp(input: seq<byte>) returns (loadSize: nat)
      requires buffer.Length == INTERNALBUFFER_SIZE && Absorbed(k, Lanes(acc, soFar), buffer[..], bufferedSize, data)
      requires bufferedSize + |input| > INTERNALBUFFER_SIZE
      modifies this`acc, this`soFar, this`bufferedSize, this`data, buffer
      ensures loadSize < |input| && bufferedSize == 0 && data == old(data) + input[..loadSize]
      ensures Emptied(k, Lanes(acc, soFar), buffer[..], data) && (|data| == 0 || |data| >= INTERNALBUFFER_SIZE)
    {
      hide Absorbed, Emptied, Stripes;
      BufferedSize(k, Lanes(acc, soFar), buffer[..], bufferedSize, data);
      loadSize := 0;
      if bufferedSize > 0 {
        loadSize := INTERNALBUFFER_SIZE - bufferedSize;
        FilledUp(k, Lanes(acc, soFar), buffer[..], bufferedSize, data, input[..loadSize]);
        Copy(bufferedSize, input[..loadSize]);
        Consume(buffer[..], INTERNALBUFFER_SIZE / STRIPE_LEN);
        bufferedSize := 0;
      }
      data := data + input[..loadSize];
    }

    /** Consumes the settled stripes of a long rest and buffers what is left. */
    method Store(rest: seq<byte>)
      requires buffer.Length == INTERNALBUFFER_SIZE && |rest| > 0 && bufferedSize == 0
      requires Emptied(k, Lanes(acc, soFar), buffer[..], data) && (|data| == 0 || |data| >= INTERNALBUFFER_SIZE)
      modifies this`acc, this`soFar, this`bufferedSize, this`data, buffer
      ensures Absorbed(k, Lanes(acc, soFar), buffer[..], bufferedSize, data) && data == old(data) + rest
    {
      hide Absorbed, Emptied, Stripes;
      var left := rest;
      if |rest| > INTERNALBUFFER_SIZE {
        var nbStripes := (|rest| - 1) / STRIPE_LEN;
        var piece := rest[..STRIPE_LEN * nbStripes];
        RestConsumed(k, Lanes(acc, soFar), buffer[..], data, piece);
        EmptiedFacts(k, Lanes(acc, soFar), buffer[..], data);
        Consume(piece, nbStripes);
        Copy(INTERNALBUFFER_SIZE - STRIPE_LEN, piece[|piece| - STRIPE_LEN..]);
        data := data + piece;
        left := rest[STRIPE_LEN * nbStripes..];
      }
      RestBuffered(k, Lanes(acc, soFar), buffer[..], data, left);
      Copy(0, left);
      bufferedSize := |left|;
      data := data + left;
      assert data == old(data) + rest;
    }

    /** The lanes after the remaining stripes and the last 64 bytes, which may wrap around the buffer. */
    method DigestLong() returns (h: A)
      requires Valid() && |data| > MIDSIZE_MAX
      ensures h == LongAcc(k, data)
    {
      hide Stripes, Absorbed, Settled;
      BufferedSize(k, Lanes(acc, soFar), buffer[..], bufferedSize, data);
      var lastStripe;
      if bufferedSize >= STRIPE_LEN {
        var nbStripes := (bufferedSize - 1) / STRIPE_LEN;
        SettledInBuffer(k, Lanes(acc, soFar), buffer[..], bufferedSize, data);
        var r := ConsumeStripes(k, Lanes(acc, soFar), buffer[..STRIPE_LEN * nbStripes], nbStripes);
        h := r.acc;
        lastStripe := buffer[bufferedSize - STRIPE_LEN..bufferedSize];
      } else {
        var catchupSize := STRIPE_LEN - bufferedSize;
        WrapsAround(k, Lanes(acc, soFar), buffer[..], bufferedSize, data);
        h := acc;
        lastStripe := buffer[INTERNALBUFFER_SIZE - catchupSize..] + buffer[..bufferedSize];
      }
      h := k.accumulate(h, lastStripe, k.SecretAt(k.Limit() - SECRET_LASTACC_START));
    }

    /** The hash of everything added so far; the state stays as it is. */
    method Digest() returns (h: H)
      requires Valid()
      ensures h == OneShot(k, data)
    {
      if totalLen > MIDSIZE_MAX {
        var lanes := DigestLong();
        return k.finish(lanes, totalLen);
      }
      assert buffer[..totalLen] == data;
      return k.short(buffer[..totalLen]);
    }
  }

  lemma BufferedSize<A, H>(k: Core<A, H>, st: Lanes<A>, buffer: seq<byte>, n: nat, data: seq<byte>)
    requires Absorbed(k, st, buffer, n, data)
    ensures n <= INTERNALBUFFER_SIZE && n <= |data| && |k.secret| >= SECRET_SIZE_MIN && |buffer| == INTERNALBUFFER_SIZE
    ensures n == 0 ==> data == [] && Emptied(k, st, buffer, data)
  {
  }

  lemma EmptiedFacts<A, H>(k: Core<A, H>, st: Lanes<A>, buffer: seq<byte>, data: seq<byte>)
    requires Emptied(k, st, buffer, data)
    ensures |k.secret| >= SECRET_SIZE_MIN && |buffer| == INTERNALBUFFER_SIZE && st.soFar < k.StripesPerBlock()
  {
  }

  /** With at least a stripe in the buffer, the settled stripes and the last 64 bytes are all there. */
  lemma SettledInBuffer<A, H>(k: Core<A, H>, st: Lanes<A>, buffer: seq<byte>, n: nat, data: seq<byte>)
    requires Absorbed(k, st, buffer, n, data) && STRIPE_LEN <= n
    ensures st.soFar < k.StripesPerBlock()
    ensures var m := STRIPE_LEN * ((n - 1) / STRIPE_LEN);
      Stripes(k, st, buffer[..m]) == Stripes(k, Start(k), data[..Settled(|data|)])
    ensures buffer[n - STRIPE_LEN..n] == data[|data| - STRIPE_LEN..]
  {
    hide Stripes, Step, Absorbed, Settled;
    var at, m := |data| - n, Settled(n);
    AbsorbedMeans(k, st, buffer, n, data);
    SettledMeans(n);
    SettledSplit(at, n);
    PieceOfTail(buffer, n, data, 0, m);
    PieceOfTail(buffer, n, data, n - STRIPE_LEN, n);
    NextPiece(k, data, at, at + m);
  }

  lemma SettledMeans(n: nat)
    requires n > 0
    ensures Settled(n) == STRIPE_LEN * ((n - 1) / STRIPE_LEN)
  {
  }

  /** Whole stripes in front move the settled part. */
  lemma SettledSplit(at: nat, n: nat)
    requires at % STRIPE_LEN == 0 && n > 0
    ensures Settled(at + n) == at + Settled(n)
  {
    hide Settled;
    SettledMeans(n);
    SettledMeans(at + n);
    var x, q := n - 1, at / STRIPE_LEN;
    DivStep(x, STRIPE_LEN);
    DivStep(at, STRIPE_LEN);
    DivUnique(at + x, STRIPE_LEN, q + x / STRIPE_LEN, x % STRIPE_LEN);
  }

  lemma PieceOfTail(buffer: seq<byte>, n: nat, data: seq<byte>, a: nat, b: nat)
    requires n <= |buffer| && n <= |data| && buffer[..n] == data[|data| - n..] && a <= b <= n
    ensures buffer[a..b] == data[|data| - n + a..|data| - n + b]
  {
    assert buffer[a..b] == buffer[..n][a..b];
    assert data[|data| - n + a..|data| - n + b] == data[|data| - n..][a..b];
  }

  /** With less than a stripe in the buffer, the last 64 bytes wrap around it. */
  lemma WrapsAround<A, H>(k: Core<A, H>, st: Lanes<A>, buffer: seq<byte>, n: nat, data: seq<byte>)
    requires Absorbed(k, st, buffer, n, data) && n < STRIPE_LEN && |data| > MIDSIZE_MAX
    ensures st == Stripes(k, Start(k), data[..Settled(|data|)])
    ensures n > 0 && buffer[INTERNALBUFFER_SIZE - (STRIPE_LEN - n)..] + buffer[..n] == data[|data| - STRIPE_LEN..]
  {
    hide Stripes, Step, Settled;
    var m := |data| - n;
    SettledMeans(n);
    SettledSplit(m, n);
    var tail := buffer[INTERNALBUFFER_SIZE - STRIPE_LEN..];
    assert buffer[INTERNALBUFFER_SIZE - (STRIPE_LEN - n)..] == tail[n..] == data[m - STRIPE_LEN..m][n..];
    assert data[|data| - STRIPE_LEN..] == data[m - STRIPE_LEN + n..m] + data[m..];
  }

  // ---------------------------------------------------------------- every split

  function Flatten(chunks: seq<seq<byte>>): seq<byte>
    decreases |chunks|
  {
    if |chunks| == 0 then [] else Flatten(chunks[..|chunks| - 1]) + chunks[|chunks| - 1]
  }

  /** Reset, any updates, digest: the one-shot hash of all the bytes, however they were split. */
  method HashChunks<A, H>(k: Core<A, H>, chunks: seq<seq<byte>>) returns (h: H)
    requires |k.secret| >= SECRET_SIZE_MIN
    ensures h == OneShot(k, Flatten(chunks))
  {
    var state := new Stream(k);
    assert chunks[..0] == [];
    for i := 0 to |chunks|
      invariant state.Valid() && state.k == k && fresh(state) && fresh(state.buffer)
      invariant state.data == Flatten(chunks[..i])
    {
      assert chunks[..i + 1][..i] == chunks[..i];
      state.Update(chunks[i]);
    }
    assert chunks[..|chunks|] == chunks;
    h := state.Digest();
  }
}
