/** XXH64: the one-shot hash, the buffered incremental form, and the proof that they agree. */
module Xxh64 {
  import opened Bytes
  import opened StripeHash

  const PRIME_1: bv64 := 0x9E3779B185EBCA87
  const PRIME_2: bv64 := 0xC2B2AE3D27D4EB4F
  const PRIME_3: bv64 := 0x165667B19E3779F9
  const PRIME_4: bv64 := 0x85EBCA77C2B2AE63
  const PRIME_5: bv64 := 0x27D4EB2F165667C5

  /** The four accumulator lanes. */
  datatype Lanes = Lanes(a0: bv64, a1: bv64, a2: bv64, a3: bv64)

  function RotL(x: bv64, r: nat): bv64
    requires r <= 64
  {
    x.RotateLeft(r)
  }

  function Round(acc: bv64, lane: bv64): bv64 {
    RotL(acc + lane * PRIME_2, 31) * PRIME_1
  }

  function MergeRound(acc: bv64, val: bv64): bv64 {
    (acc ^ Round(0, val)) * PRIME_1 + PRIME_4
  }

  function Avalanche(hash: bv64): bv64 {
    var h1 := (hash ^ (hash >> 33)) * PRIME_2;
    var h2 := (h1 ^ (h1 >> 29)) * PRIME_3;
    h2 ^ (h2 >> 32)
  }

  /** Four bytes, least significant first. */
  function ReadLE32(p: seq<byte>): bv64
    requires |p| >= 4
  {
    p[0] as bv64 | ((p[1] as bv64) << 8) | ((p[2] as bv64) << 16) | ((p[3] as bv64) << 24)
  }

  /** Eight bytes, least significant first. */
  function ReadLE64(p: seq<byte>): bv64
    requires |p| >= 8
  {
    ReadLE32(p) | (ReadLE32(p[4..]) << 32)
  }

  function InitAccs(seed: bv64): Lanes {
    Lanes(seed + PRIME_1 + PRIME_2, seed + PRIME_2, seed, seed - PRIME_1)
  }

  /** One 32-byte stripe into the four lanes. */
  function ConsumeStripe(acc: Lanes, p: seq<byte>): Lanes
    requires |p| == STRIPE
  {
    Lanes(Round(acc.a0, ReadLE64(p)), Round(acc.a1, ReadLE64(p[8..])),
          Round(acc.a2, ReadLE64(p[16..])), Round(acc.a3, ReadLE64(p[24..])))
  }

  function MergeAccs(acc: Lanes): bv64 {
    MergeRound(MergeRound(MergeRound(MergeRound(
      RotL(acc.a0, 1) + RotL(acc.a1, 7) + RotL(acc.a2, 12) + RotL(acc.a3, 18),
      acc.a0), acc.a1), acc.a2), acc.a3)
  }

  function Finalize8(hash: bv64, p: seq<byte>): bv64
    requires |p| >= 8
  {
    RotL(hash ^ Round(0, ReadLE64(p)), 27) * PRIME_1 + PRIME_4
  }

  function Finalize4(hash: bv64, p: seq<byte>): bv64
    requires |p| >= 4
  {
    RotL(hash ^ (ReadLE32(p) * PRIME_1), 23) * PRIME_2 + PRIME_3
  }

  function Finalize1(hash: bv64, b: byte): bv64 {
    RotL(hash ^ (b as bv64 * PRIME_5), 11) * PRIME_1
  }

  function Plus(x: bv64, y: bv64): bv64 { x + y }

  function Twice(x: bv64): bv64 { x << 1 }

  /** A number modulo 2^64, bit by bit. */
  function Bits(n: nat): bv64 {
    if n == 0 then 0 else if n % 2 == 1 then Plus(Twice(Bits(n / 2)), 1) else Twice(Bits(n / 2))
  }

  /** The length of the input is added modulo 2^64. */
  function AddLength(h: bv64, len: nat): bv64 { Plus(h, Bits(len)) }

  lemma {:induction false} BitsCount(n: nat)
    ensures Bits(n + 1) == Plus(Bits(n), 1)
  {
    hide Plus, Twice;
    if n % 2 == 1 {
      BitsCount(n / 2);
      assert (n + 1) / 2 == n / 2 + 1;
      Carry(Bits(n / 2));
    } else {
      assert (n + 1) / 2 == n / 2;
      FirstBit();
    }
  }

  lemma FirstBit()
    ensures Twice(0) == 0
  {
  }

  lemma Carry(x: bv64)
    ensures Twice(Plus(x, 1)) == Plus(Plus(Twice(x), 1), 1)
  {
  }

  /** What is added for a length: nothing for none, and one more for every byte more, whatever the length. */
  lemma AddLengthCounts(h: bv64, n: nat)
    ensures AddLength(h, n) == Plus(h, Bits(n)) && Bits(0) == 0 && Bits(n + 1) == Plus(Bits(n), 1)
  {
    BitsCount(n);
    NoBits();
    hide Bits, Plus;
  }

  lemma NoBits()
    ensures Bits(0) == 0
  {
  }

  lemma PlusAdds(x: bv64, y: bv64)
    ensures Plus(x, y) == x + y
  {
  }

  /** The seed is added to every lane. */
  lemma SeedShiftsLanes(seed: bv64)
    ensures var a, b := InitAccs(seed), InitAccs(0);
      a.a0 == b.a0 + seed && a.a1 == b.a1 + seed && a.a2 == b.a2 + seed && a.a3 == b.a3 + seed
  {
    hide InitAccs;
    SeedShiftsFirst(seed);
    SeedShiftsSecond(seed);
    SeedShiftsThird(seed);
    SeedShiftsLast(seed);
  }

  lemma SeedShiftsFirst(seed: bv64)
    ensures InitAccs(seed).a0 == InitAccs(0).a0 + seed
  {
    assert seed + PRIME_1 + PRIME_2 == 0 + PRIME_1 + PRIME_2 + seed;
  }

  lemma SeedShiftsSecond(seed: bv64)
    ensures InitAccs(seed).a1 == InitAccs(0).a1 + seed
  {
    assert seed + PRIME_2 == 0 + PRIME_2 + seed;
  }

  lemma SeedShiftsThird(seed: bv64)
    ensures InitAccs(seed).a2 == InitAccs(0).a2 + seed
  {
    assert seed == 0 + seed;
  }

  lemma SeedShiftsLast(seed: bv64)
    ensures InitAccs(seed).a3 == InitAccs(0).a3 + seed
  {
    assert seed - PRIME_1 == 0 - PRIME_1 + seed;
  }

  /** Each byte of a word is where it belongs. */
  lemma BytesOfWord(p: seq<byte>)
    requires |p| >= 8
    ensures var w := ReadLE64(p);
      && w & 0xFF == p[0] as bv64 && (w >> 8) & 0xFF == p[1] as bv64 && (w >> 16) & 0xFF == p[2] as bv64
      && (w >> 24) & 0xFF == p[3] as bv64 && (w >> 32) & 0xFF == p[4] as bv64 && (w >> 40) & 0xFF == p[5] as bv64
      && (w >> 48) & 0xFF == p[6] as bv64 && (w >> 56) & 0xFF == p[7] as bv64
  {
    assert p[4..][0] == p[4] && p[4..][1] == p[5] && p[4..][2] == p[6] && p[4..][3] == p[7];
  }

  /** The arithmetic above, packaged for the stripe and carry-buffer bookkeeping. */
  function Xxh64Kernel(seed: bv64): Kernel<Lanes, bv64> {
    Kernel(
      InitAccs(seed),
      (acc: Lanes, p: seq<byte>) => if |p| == STRIPE then ConsumeStripe(acc, p) else acc,
      (acc: Lanes) => MergeAccs(acc),
      seed + PRIME_5,
      (acc: Lanes) => acc.a2 + PRIME_5,
      (h: bv64, len: nat) => AddLength(h, len),
      (h: bv64, p: seq<byte>) => if |p| == 8 then Finalize8(h, p) else h,
      (h: bv64, p: seq<byte>) => if |p| == 4 then Finalize4(h, p) else h,
      (h: bv64, b: byte) => Finalize1(h, b),
      (h: bv64) => Avalanche(h))
  }

  lemma KernelAdds(seed: bv64, h: bv64, n: nat)
    ensures Xxh64Kernel(seed).addLen(h, n) == AddLength(h, n)
  {
    hide AddLength, InitAccs, ConsumeStripe, MergeAccs, Finalize8, Finalize4, Finalize1, Avalanche;
  }

  /** The hash of a complete input. */
  function Hash(input: seq<byte>, seed: bv64): bv64 {
    OneShot(Xxh64Kernel(seed), input)
  }

  /** Main result: for every seed, every input below 2^64 bytes and every split into chunks. */
  lemma StreamingEqualsOneShot(seed: bv64, chunks: seq<seq<byte>>)
    requires |Flatten(chunks)| < TWO_TO_64
    ensures var k := Xxh64Kernel(seed);
      Digest(k, UpdateAll(k, Reset(k), chunks)) == Hash(Flatten(chunks), seed)
  {
    StreamingIsOneShot(Xxh64Kernel(seed), chunks);
  }

  /** An input below a stripe: the seed, a prime and the length, then the bytes. */
  lemma ShortInput(input: seq<byte>, seed: bv64)
    requires |input| < 32
    ensures Hash(input, seed) == Finalize(Xxh64Kernel(seed), AddLength(seed + PRIME_5, |input|), input)
  {
    hide Finalize, AddLength;
    assert input[Whole(|input|)..] == input;
  }
}
