/** What the transfer engine needs to know of an incremental hash. */
module Hashing {
  import opened Bytes
  import opened StripeHash
  import Xxh64

  type HashState = State<Xxh64.Lanes>

  /** An incremental hash, the one-shot form it stands for, and what its states have absorbed. */
  datatype Hash = Hash(
    start: HashState,
    update: (HashState, seq<byte>) -> HashState,
    digest: HashState -> bv64,
    oneShot: seq<byte> -> bv64,
    absorbed: (HashState, seq<byte>) -> bool
  )

  /** Starting, updating and digesting agree with the one-shot form below 2^64 bytes. */
  ghost predicate HashOk(h: Hash) {
    && h.absorbed(h.start, [])
    && (forall st, data, input {:trigger h.absorbed(st, data), h.update(st, input)} ::
          h.absorbed(st, data) ==> h.absorbed(h.update(st, input), data + input))
    && (forall st, data {:trigger h.absorbed(st, data), h.digest(st)} ::
          h.absorbed(st, data) && |data| < TWO_TO_64 ==> h.digest(st) == h.oneShot(data))
  }

  /** XXH64 with seed 0, as the program uses it for files. */
  function FileHash(): Hash {
    var k := Xxh64.Xxh64Kernel(0);
    Hash(
      Reset(k),
      (st: HashState, input: seq<byte>) => if Valid(st) then Update(k, st, input) else st,
      (st: HashState) => if Valid(st) then Digest(k, st) else 0,
      (data: seq<byte>) => Xxh64.Hash(data, 0),
      (st: HashState, data: seq<byte>) => Absorbed(k, st, data))
  }

  lemma FileHashOk()
    ensures HashOk(FileHash())
  {
    var h, k := FileHash(), Xxh64.Xxh64Kernel(0);
    ResetAbsorbs(k);
    forall st, data, input {:trigger h.absorbed(st, data), h.update(st, input)} | h.absorbed(st, data)
      ensures h.absorbed(h.update(st, input), data + input)
    {
      UpdateAbsorbs(k, st, data, input);
    }
    forall st, data {:trigger h.absorbed(st, data), h.digest(st)} | h.absorbed(st, data) && |data| < TWO_TO_64
      ensures h.digest(st) == h.oneShot(data)
    {
      DigestIsOneShot(k, st, data);
    }
  }
}
