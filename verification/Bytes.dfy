/** Byte streams, zero padding and the byte-wise XOR that parity is made of. */
module Bytes {

  type byte = bv8

  function Min(a: int, b: int): int { if a <= b then a else b }

  function Max(a: int, b: int): int { if a >= b then a else b }

  /** buffer with `data` copied in at offset `at`. */
  function Overwrite(buffer: seq<byte>, at: nat, data: seq<byte>): (r: seq<byte>)
    requires at + |data| <= |buffer|
    ensures |r| == |buffer|
  {
    buffer[..at] + data + buffer[at + |data|..]
  }

  /** Byte k of a stream that is padded with zeros for ever. */
  function At(s: seq<byte>, k: nat): byte {
    if k < |s| then s[k] else 0
  }

  /** What stream i contributes to byte k when stream `skip` is left out. */
  function Term(ss: seq<seq<byte>>, skip: nat, i: nat, k: nat): byte
    requires i < |ss|
  {
    if i == skip then 0 else At(ss[i], k)
  }

  /** XOR of byte k of the first n streams, leaving out stream `skip`. */
  function XorUpTo(ss: seq<seq<byte>>, skip: nat, n: nat, k: nat): byte
    requires n <= |ss|
  {
    if n == 0 then 0
    else XorUpTo(ss, skip, n - 1, k) ^ Term(ss, skip, n - 1, k)
  }

  /** XOR of byte k of every stream except `skip`. */
  function XorAt(ss: seq<seq<byte>>, skip: nat, k: nat): byte {
    XorUpTo(ss, skip, |ss|, k)
  }

  /** The piece [lo, lo + n) of the XOR of all zero-padded streams except `skip`. */
  function XorWindow(ss: seq<seq<byte>>, skip: nat, lo: nat, n: nat): (r: seq<byte>)
    ensures |r| == n
    ensures forall x :: 0 <= x < n ==> r[x] == XorAt(ss, skip, lo + x)
  {
    seq(n, x requires 0 <= x < n => XorAt(ss, skip, lo + x))
  }

  /** Leaving a stream out of the XOR and putting it back gives the full XOR. */
  lemma {:induction false} XorSplit(ss: seq<seq<byte>>, all: nat, r: nat, n: nat, k: nat)
    requires n <= |ss| && all >= n
    ensures XorUpTo(ss, all, n, k) == XorUpTo(ss, r, n, k) ^ (if r < n then At(ss[r], k) else 0)
  {
    if n > 0 {
      XorSplit(ss, all, r, n - 1, k);
    }
  }

  /** The XOR looks only at byte k of the streams it does not skip. */
  lemma {:induction false} XorCongruence(ss: seq<seq<byte>>, ts: seq<seq<byte>>, skip: nat, n: nat, k: nat, k': nat)
    requires n <= |ss| && n <= |ts|
    requires forall i :: 0 <= i < n && i != skip ==> At(ss[i], k) == At(ts[i], k')
    ensures XorUpTo(ss, skip, n, k) == XorUpTo(ts, skip, n, k')
  {
    if n > 0 {
      XorCongruence(ss, ts, skip, n - 1, k, k');
      assert Term(ss, skip, n - 1, k) == Term(ts, skip, n - 1, k');
    }
  }

  /** A lost stream is the XOR of the parity byte with the other streams' bytes. */
  lemma LostByte(ss: seq<seq<byte>>, parity: seq<byte>, r: nat, k: nat)
    requires r < |ss|
    requires At(parity, k) == XorAt(ss, |ss|, k)
    ensures XorAt(ss + [parity], r, k) == At(ss[r], k)
  {
    var all := ss + [parity];
    var n := |ss|;
    XorSplit(ss, n, r, n, k);
    XorCongruence(ss, all, r, n, k, k);
    var others, lost := XorUpTo(ss, r, n, k), At(ss[r], k);
    assert others ^ (others ^ lost) == lost;
  }

  /** If only stream i may differ at byte k, the XORs agree exactly if it does not. */
  lemma {:induction false} XorOneDiffers(ss: seq<seq<byte>>, ts: seq<seq<byte>>, skip: nat, i: nat, n: nat, k: nat)
    requires i < n <= |ss| && n <= |ts| && i != skip
    requires forall j :: 0 <= j < n && j != i && j != skip ==> At(ss[j], k) == At(ts[j], k)
    ensures XorUpTo(ss, skip, n, k) == XorUpTo(ts, skip, n, k) <==> At(ss[i], k) == At(ts[i], k)
  {
    if n - 1 == i {
      XorCongruence(ss, ts, skip, i, k, k);
    } else {
      XorOneDiffers(ss, ts, skip, i, n - 1, k);
      assert Term(ss, skip, n - 1, k) == Term(ts, skip, n - 1, k);
    }
  }
}
