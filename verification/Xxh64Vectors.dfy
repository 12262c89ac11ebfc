/** Known hash values, which pin down the constants and rotations of the arithmetic. */
module Xxh64Vectors {
  import opened Bytes
  import opened StripeHash
  import opened Xxh64

  lemma Four(q: seq<byte>, b: seq<byte>)
    requires |q| >= 4 && |b| >= 4 && q[0] == b[0] && q[1] == b[1] && q[2] == b[2] && q[3] == b[3]
    ensures ReadLE32(q) == ReadLE32(b)
  {
  }

  /** Eight bytes in front of others. */
  lemma Eight(q: seq<byte>, b: seq<byte>)
    requires |b| == 8 <= |q| && q[..8] == b
    ensures ReadLE64(q) == ReadLE64(b)
  {
    assert ReadLE32(q) == ReadLE32(b) && ReadLE32(q[4..]) == ReadLE32(b[4..]) by {
      hide ReadLE32, ReadLE64;
      SamePrefix(q, b);
      Four(q, b);
      Four(q[4..], b[4..]);
    }
    hide ReadLE32;
  }

  lemma SamePrefix(q: seq<byte>, b: seq<byte>)
    requires |b| == 8 <= |q| && q[..8] == b
    ensures q[0] == b[0] && q[1] == b[1] && q[2] == b[2] && q[3] == b[3]
    ensures q[4..][0] == b[4..][0] && q[4..][1] == b[4..][1] && q[4..][2] == b[4..][2] && q[4..][3] == b[4..][3]
  {
    assert q == b + q[8..];
  }

  /** The four words of a stripe. */
  lemma Words(a: seq<byte>, b: seq<byte>, c: seq<byte>, d: seq<byte>)
    requires |a| == |b| == |c| == |d| == 8
    ensures var p := a + b + c + d;
      ReadLE64(p) == ReadLE64(a) && ReadLE64(p[8..]) == ReadLE64(b) && ReadLE64(p[16..]) == ReadLE64(c)
        && ReadLE64(p[24..]) == ReadLE64(d)
  {
    var p := a + b + c + d;
    hide ReadLE64;
    assert p[..8] == a && p[8..][..8] == b && p[16..][..8] == c && p[24..][..8] == d;
    Eight(p, a);
    Eight(p[8..], b);
    Eight(p[16..], c);
    Eight(p[24..], d);
  }

  lemma KernelFacts(stripe: seq<byte>, acc: Lanes)
    requires |stripe| == STRIPE
    ensures var k := Xxh64Kernel(0);
      k.step(k.init, stripe) == ConsumeStripe(InitAccs(0), stripe) && k.long(acc) == MergeAccs(acc)
  {
    hide ConsumeStripe, MergeAccs, InitAccs;
  }

  /** An input of one stripe and a tail. */
  lemma OneStripe(stripe: seq<byte>, tail: seq<byte>, merged: bv64, start: bv64, hash: bv64)
    requires |stripe| == STRIPE && |tail| < STRIPE && MergeAccs(ConsumeStripe(InitAccs(0), stripe)) == merged
    requires Xxh64Kernel(0).addLen(merged, STRIPE + |tail|) == start && Finalize(Xxh64Kernel(0), start, tail) == hash
    ensures Hash(stripe + tail, 0) == hash
  {
    hide ConsumeStripe, MergeAccs, InitAccs, Finalize, Xxh64Kernel;
    var k, p := Xxh64Kernel(0), stripe + tail;
    assert p[..STRIPE] == stripe && p[STRIPE..] == tail;
    assert Whole(|p|) == STRIPE && |p| % TWO_TO_64 == |p|;
    KernelFacts(stripe, ConsumeStripe(InitAccs(0), stripe));
    assert Fold(k, k.init, p) == Fold(k, k.step(k.init, stripe), tail) == k.step(k.init, stripe);
  }

  lemma TailEnd(h: bv64)
    ensures Finalize(Xxh64Kernel(0), h, []) == Avalanche(h)
  {
    hide Avalanche, ConsumeStripe, MergeAccs, InitAccs, Finalize8, Finalize4, Finalize1;
  }

  lemma TailOne(h: bv64, b: byte, rest: seq<byte>)
    requires |rest| < 3
    ensures Finalize(Xxh64Kernel(0), h, [b] + rest) == Finalize(Xxh64Kernel(0), Finalize1(h, b), rest)
  {
    hide Avalanche, ConsumeStripe, MergeAccs, InitAccs, Finalize8, Finalize4, Finalize1;
    assert ([b] + rest)[1..] == rest;
  }

  lemma TailFour(h: bv64, p: seq<byte>, rest: seq<byte>)
    requires |p| == 4 && |rest| < 4
    ensures Finalize(Xxh64Kernel(0), h, p + rest) == Finalize(Xxh64Kernel(0), Finalize4(h, p), rest)
  {
    hide Avalanche, ConsumeStripe, MergeAccs, InitAccs, Finalize8, Finalize4, Finalize1;
    assert (p + rest)[..4] == p && (p + rest)[4..] == rest;
  }

  lemma TailEight(h: bv64, p: seq<byte>, rest: seq<byte>)
    requires |p| == 8
    ensures Finalize(Xxh64Kernel(0), h, p + rest) == Finalize(Xxh64Kernel(0), Finalize8(h, p), rest)
  {
    hide Avalanche, ConsumeStripe, MergeAccs, InitAccs, Finalize8, Finalize4, Finalize1;
    assert (p + rest)[..8] == p && (p + rest)[8..] == rest;
  }

  /** The hash of nothing. */
  lemma EmptyInput()
    ensures Hash([], 0) == 0xEF46DB3751D8E999
  {
  }

  function NobodyStripe(): seq<byte> {
    [78, 111, 98, 111, 100, 121, 32, 105] + [110, 115, 112, 101, 99, 116, 115, 32]
    + [116, 104, 101, 32, 115, 112, 97, 109] + [109, 105, 115, 104, 32, 114, 101, 112]
  }

  lemma NobodyLanes()
    ensures |NobodyStripe()| == STRIPE && MergeAccs(ConsumeStripe(InitAccs(0), NobodyStripe())) == 0x84F22C421A11A8B5
  {
    Words([78, 111, 98, 111, 100, 121, 32, 105], [110, 115, 112, 101, 99, 116, 115, 32],
      [116, 104, 101, 32, 115, 112, 97, 109], [109, 105, 115, 104, 32, 114, 101, 112]);
    assert ReadLE64([78, 111, 98, 111, 100, 121, 32, 105]) == 0x692079646F626F4E;
    assert ReadLE64([110, 115, 112, 101, 99, 116, 115, 32]) == 0x207374636570736E;
    assert ReadLE64([116, 104, 101, 32, 115, 112, 97, 109]) == 0x6D61707320656874;
    assert ReadLE64([109, 105, 115, 104, 32, 114, 101, 112]) == 0x706572206873696D;
    hide ReadLE64;
    assert InitAccs(0) == Lanes(0x60EA27EEADC0B5D6, 0xC2B2AE3D27D4EB4F, 0x0000000000000000, 0x61C8864E7A143579);
    hide InitAccs;
    assert Round(0x60EA27EEADC0B5D6, 0x692079646F626F4E) == 0x37245127A4067E4B;
    assert Round(0xC2B2AE3D27D4EB4F, 0x207374636570736E) == 0x1B302B0A818F92CF;
    assert Round(0x0000000000000000, 0x6D61707320656874) == 0xCD62D843D0580FCA;
    assert Round(0x61C8864E7A143579, 0x706572206873696D) == 0x1C16E43EF2142A4A;
    hide Round;
    var acc := ConsumeStripe(InitAccs(0), NobodyStripe());
    assert acc == Lanes(0x37245127A4067E4B, 0x1B302B0A818F92CF, 0xCD62D843D0580FCA, 0x1C16E43EF2142A4A);
    hide ConsumeStripe;
    NobodyMerge();
  }

  lemma NobodyMerge()
    ensures MergeAccs(Lanes(0x37245127A4067E4B, 0x1B302B0A818F92CF, 0xCD62D843D0580FCA, 0x1C16E43EF2142A4A))
      == 0x84F22C421A11A8B5
  {
    assert RotL(0x37245127A4067E4B, 1) + RotL(0x1B302B0A818F92CF, 7) + RotL(0xCD62D843D0580FCA, 12)
      + RotL(0x1C16E43EF2142A4A, 18) == 0xC4DE2CE639FB8154;
    assert MergeRound(0xC4DE2CE639FB8154, 0x37245127A4067E4B) == 0x30D40DDD00AEA144;
    assert MergeRound(0x30D40DDD00AEA144, 0x1B302B0A818F92CF) == 0xE5A1F095BF498698;
    assert MergeRound(0xE5A1F095BF498698, 0xCD62D843D0580FCA) == 0xF9CEE721E748096D;
    assert MergeRound(0xF9CEE721E748096D, 0x1C16E43EF2142A4A) == 0x84F22C421A11A8B5;
  }

  lemma NobodySteps()
    ensures Finalize4(0x84F22C421A11A8DC, [101, 116, 105, 116]) == 0x9FCA0F5D0AAA110F
    ensures Finalize1(0x9FCA0F5D0AAA110F, 105) == 0x769671546F21BA14
    ensures Finalize1(0x769671546F21BA14, 111) == 0xEAE9B643C5F94E52
    ensures Finalize1(0xEAE9B643C5F94E52, 110) == 0x1D0A47483B37CC24
    ensures Avalanche(0x1D0A47483B37CC24) == 0xFBCEA83C8A378BF1
  {
    assert ReadLE32([101, 116, 105, 116]) == 0x0000000074697465;
    hide ReadLE64, ReadLE32;
  }

  function NobodyRest(): seq<byte> {
    [101, 116, 105, 116] + ([105] + ([111] + ([110] + [])))
  }

  /** One more bit of a length. */
  lemma BitStep(n: nat)
    requires n > 0
    ensures Bits(n) == if n % 2 == 1 then Plus(Twice(Bits(n / 2)), 1) else Twice(Bits(n / 2))
  {
    hide Plus, Twice;
  }

  lemma NobodyBits()
    ensures Bits(39) == 39
  {
    hide Bits;
    NoBits();
    BitStep(1);
    assert Plus(Twice(0), 1) == 1;
    BitStep(2);
    assert Twice(1) == 2;
    BitStep(4);
    assert Twice(2) == 4;
    BitStep(9);
    assert Plus(Twice(4), 1) == 9;
    BitStep(19);
    assert Plus(Twice(9), 1) == 19;
    BitStep(39);
    assert Plus(Twice(19), 1) == 39;
  }

  lemma NobodyLength()
    ensures Xxh64Kernel(0).addLen(0x84F22C421A11A8B5, 39) == 0x84F22C421A11A8DC
  {
    hide Bits, Xxh64Kernel;
    KernelAdds(0, 0x84F22C421A11A8B5, 39);
    NobodyBits();
    assert Plus(0x84F22C421A11A8B5, 39) == 0x84F22C421A11A8DC;
  }

  lemma NobodyTail()
    ensures Finalize(Xxh64Kernel(0), 0x84F22C421A11A8DC, NobodyRest()) == 0xFBCEA83C8A378BF1 && |NobodyRest()| == 7
  {
    hide Finalize, Finalize8, Finalize4, Finalize1, Avalanche, Xxh64Kernel;
    NobodySteps();
    TailEnd(0x1D0A47483B37CC24);
    TailOne(0xEAE9B643C5F94E52, 110, []);
    TailOne(0x769671546F21BA14, 111, [110] + []);
    TailOne(0x9FCA0F5D0AAA110F, 105, [111] + ([110] + []));
    TailFour(0x84F22C421A11A8DC, [101, 116, 105, 116], [105] + ([111] + ([110] + [])));
  }

  /** The hash of "Nobody inspects the spammish repetition": a stripe, one group of four and three single bytes. */
  lemma Nobody()
    ensures Hash(NobodyStripe() + NobodyRest(), 0) == 0xFBCEA83C8A378BF1
  {
    hide Hash, ConsumeStripe, MergeAccs, InitAccs, Finalize, Xxh64Kernel;
    NobodyLanes();
    NobodyLength();
    NobodyTail();
    OneStripe(NobodyStripe(), NobodyRest(), 0x84F22C421A11A8B5, 0x84F22C421A11A8DC, 0xFBCEA83C8A378BF1);
  }

  function FoxStripe(): seq<byte> {
    [84, 104, 101, 32, 113, 117, 105, 99] + [107, 32, 98, 114, 111, 119, 110, 32]
    + [102, 111, 120, 32, 106, 117, 109, 112] + [115, 32, 111, 118, 101, 114, 32, 116]
  }

  lemma FoxLanes()
    ensures |FoxStripe()| == STRIPE && MergeAccs(ConsumeStripe(InitAccs(0), FoxStripe())) == 0x9007C00F586BFAF0
  {
    Words([84, 104, 101, 32, 113, 117, 105, 99], [107, 32, 98, 114, 111, 119, 110, 32],
      [102, 111, 120, 32, 106, 117, 109, 112], [115, 32, 111, 118, 101, 114, 32, 116]);
    assert ReadLE64([84, 104, 101, 32, 113, 117, 105, 99]) == 0x6369757120656854;
    assert ReadLE64([107, 32, 98, 114, 111, 119, 110, 32]) == 0x206E776F7262206B;
    assert ReadLE64([102, 111, 120, 32, 106, 117, 109, 112]) == 0x706D756A20786F66;
    assert ReadLE64([115, 32, 111, 118, 101, 114, 32, 116]) == 0x74207265766F2073;
    hide ReadLE64;
    assert InitAccs(0) == Lanes(0x60EA27EEADC0B5D6, 0xC2B2AE3D27D4EB4F, 0x0000000000000000, 0x61C8864E7A143579);
    hide InitAccs;
    assert Round(0x60EA27EEADC0B5D6, 0x6369757120656854) == 0x1BF961D28F3A149D;
    assert Round(0xC2B2AE3D27D4EB4F, 0x206E776F7262206B) == 0x0BD18AA2EE4D901F;
    assert Round(0x0000000000000000, 0x706D756A20786F66) == 0x9986F59CC4FE6078;
    assert Round(0x61C8864E7A143579, 0x74207265766F2073) == 0x79F80495CC7EBC76;
    hide Round;
    var acc := ConsumeStripe(InitAccs(0), FoxStripe());
    assert acc == Lanes(0x1BF961D28F3A149D, 0x0BD18AA2EE4D901F, 0x9986F59CC4FE6078, 0x79F80495CC7EBC76);
    hide ConsumeStripe;
    FoxMerge();
  }

  lemma FoxMerge()
    ensures MergeAccs(Lanes(0x1BF961D28F3A149D, 0x0BD18AA2EE4D901F, 0x9986F59CC4FE6078, 0x79F80495CC7EBC76))
      == 0x9007C00F586BFAF0
  {
    assert RotL(0x1BF961D28F3A149D, 1) + RotL(0x0BD18AA2EE4D901F, 7) + RotL(0x9986F59CC4FE6078, 12)
      + RotL(0x79F80495CC7EBC76, 18) == 0xA26913671D1DAA37;
    assert MergeRound(0xA26913671D1DAA37, 0x1BF961D28F3A149D) == 0x739083290851E7D7;
    assert MergeRound(0x739083290851E7D7, 0x0BD18AA2EE4D901F) == 0xCD0C5C927E433BF7;
    assert MergeRound(0xCD0C5C927E433BF7, 0x9986F59CC4FE6078) == 0x962F3F76B777EA40;
    assert MergeRound(0x962F3F76B777EA40, 0x79F80495CC7EBC76) == 0x9007C00F586BFAF0;
  }

  lemma FoxSteps()
    ensures Finalize8(0x9007C00F586BFB1B, [104, 101, 32, 108, 97, 122, 121, 32]) == 0x16439AFBB973B9CE
    ensures Finalize1(0x16439AFBB973B9CE, 100) == 0xF298D68986F0650D
    ensures Finalize1(0xF298D68986F0650D, 111) == 0xD42FD768E36B4332
    ensures Finalize1(0xD42FD768E36B4332, 103) == 0xBCFB33FF6EE4F80C
    ensures Avalanche(0xBCFB33FF6EE4F80C) == 0x0B242D361FDA71BC
  {
    assert ReadLE64([104, 101, 32, 108, 97, 122, 121, 32]) == 0x20797A616C206568;
    hide ReadLE64, ReadLE32;
  }

  function FoxRest(): seq<byte> {
    [104, 101, 32, 108, 97, 122, 121, 32] + ([100] + ([111] + ([103] + [])))
  }

  lemma FoxBits()
    ensures Bits(43) == 43
  {
    hide Bits;
    NoBits();
    BitStep(1);
    assert Plus(Twice(0), 1) == 1;
    BitStep(2);
    assert Twice(1) == 2;
    BitStep(5);
    assert Plus(Twice(2), 1) == 5;
    BitStep(10);
    assert Twice(5) == 10;
    BitStep(21);
    assert Plus(Twice(10), 1) == 21;
    BitStep(43);
    assert Plus(Twice(21), 1) == 43;
  }

  lemma FoxLength()
    ensures Xxh64Kernel(0).addLen(0x9007C00F586BFAF0, 43) == 0x9007C00F586BFB1B
  {
    hide Bits, Xxh64Kernel;
    KernelAdds(0, 0x9007C00F586BFAF0, 43);
    FoxBits();
    assert Plus(0x9007C00F586BFAF0, 43) == 0x9007C00F586BFB1B;
  }

  lemma FoxTail()
    ensures Finalize(Xxh64Kernel(0), 0x9007C00F586BFB1B, FoxRest()) == 0x0B242D361FDA71BC && |FoxRest()| == 11
  {
    hide Finalize, Finalize8, Finalize4, Finalize1, Avalanche, Xxh64Kernel;
    FoxSteps();
    TailEnd(0xBCFB33FF6EE4F80C);
    TailOne(0xD42FD768E36B4332, 103, []);
    TailOne(0xF298D68986F0650D, 111, [103] + []);
    TailOne(0x16439AFBB973B9CE, 100, [111] + ([103] + []));
    TailEight(0x9007C00F586BFB1B, [104, 101, 32, 108, 97, 122, 121, 32], [100] + ([111] + ([103] + [])));
  }

  /** The hash of "The quick brown fox jumps over the lazy dog": a stripe, one group of eight and three single bytes. */
  lemma Fox()
    ensures Hash(FoxStripe() + FoxRest(), 0) == 0x0B242D361FDA71BC
  {
    hide Hash, ConsumeStripe, MergeAccs, InitAccs, Finalize, Xxh64Kernel;
    FoxLanes();
    FoxLength();
    FoxTail();
    OneStripe(FoxStripe(), FoxRest(), 0x9007C00F586BFAF0, 0x9007C00F586BFB1B, 0x0B242D361FDA71BC);
  }

  // ---------------------------------------------------------------- several stripes

  /** The letter a, 32 times. */
  function Stripe32(): seq<byte> {
    [97, 97, 97, 97, 97, 97, 97, 97] + [97, 97, 97, 97, 97, 97, 97, 97]
    + [97, 97, 97, 97, 97, 97, 97, 97] + [97, 97, 97, 97, 97, 97, 97, 97]
  }

  /** The letter a, 32 times for each stripe and once more. */
  function Letters(stripes: nat): seq<byte> {
    if stripes == 0 then [97] else Stripe32() + Letters(stripes - 1)
  }

  lemma StripeWords()
    ensures var p := Stripe32();
      |p| == STRIPE && ReadLE64(p) == ReadLE64(p[8..]) == ReadLE64(p[16..]) == ReadLE64(p[24..]) == 0x6161616161616161
  {
    var word: seq<byte> := [97, 97, 97, 97, 97, 97, 97, 97];
    Words(word, word, word, word);
    assert ReadLE64([97, 97, 97, 97, 97, 97, 97, 97]) == 0x6161616161616161;
    hide ReadLE64;
  }

  /** One such stripe, given what it does to each lane. */
  lemma StripeDoes(a: Lanes, b: Lanes)
    requires Round(a.a0, 0x6161616161616161) == b.a0 && Round(a.a1, 0x6161616161616161) == b.a1
    requires Round(a.a2, 0x6161616161616161) == b.a2 && Round(a.a3, 0x6161616161616161) == b.a3
    ensures |Stripe32()| == STRIPE && ConsumeStripe(a, Stripe32()) == b
  {
    StripeWords();
    hide Round, ReadLE64;
  }

  lemma Stripe1()
    ensures |Stripe32()| == STRIPE
    ensures ConsumeStripe(Lanes(0x60EA27EEADC0B5D6, 0xC2B2AE3D27D4EB4F, 0x0000000000000000, 0x61C8864E7A143579),
      Stripe32())
      == Lanes(0x03F42814F61B485D, 0x4CB08EFC49304275, 0xF260C6325FDFDB1C, 0x5FDB98ABAD090AAD)
  {
    assert Round(0x60EA27EEADC0B5D6, 0x6161616161616161) == 0x03F42814F61B485D;
    assert Round(0xC2B2AE3D27D4EB4F, 0x6161616161616161) == 0x4CB08EFC49304275;
    assert Round(0x0000000000000000, 0x6161616161616161) == 0xF260C6325FDFDB1C;
    assert Round(0x61C8864E7A143579, 0x6161616161616161) == 0x5FDB98ABAD090AAD;
    hide Round;
    StripeDoes(Lanes(0x60EA27EEADC0B5D6, 0xC2B2AE3D27D4EB4F, 0x0000000000000000, 0x61C8864E7A143579),
      Lanes(0x03F42814F61B485D, 0x4CB08EFC49304275, 0xF260C6325FDFDB1C, 0x5FDB98ABAD090AAD));
  }

  lemma Stripe2()
    ensures |Stripe32()| == STRIPE
    ensures ConsumeStripe(Lanes(0x03F42814F61B485D, 0x4CB08EFC49304275, 0xF260C6325FDFDB1C, 0x5FDB98ABAD090AAD),
      Stripe32())
      == Lanes(0x05DDDF2BD5BE5062, 0x1EFB1FADD780FA8E, 0x40CD4AE0EB88D74B, 0x16EC75A40A747876)
  {
    assert Round(0x03F42814F61B485D, 0x6161616161616161) == 0x05DDDF2BD5BE5062;
    assert Round(0x4CB08EFC49304275, 0x6161616161616161) == 0x1EFB1FADD780FA8E;
    assert Round(0xF260C6325FDFDB1C, 0x6161616161616161) == 0x40CD4AE0EB88D74B;
    assert Round(0x5FDB98ABAD090AAD, 0x6161616161616161) == 0x16EC75A40A747876;
    hide Round;
    StripeDoes(Lanes(0x03F42814F61B485D, 0x4CB08EFC49304275, 0xF260C6325FDFDB1C, 0x5FDB98ABAD090AAD),
      Lanes(0x05DDDF2BD5BE5062, 0x1EFB1FADD780FA8E, 0x40CD4AE0EB88D74B, 0x16EC75A40A747876));
  }

  lemma Stripe3()
    ensures |Stripe32()| == STRIPE
    ensures ConsumeStripe(Lanes(0x05DDDF2BD5BE5062, 0x1EFB1FADD780FA8E, 0x40CD4AE0EB88D74B, 0x16EC75A40A747876),
      Stripe32())
      == Lanes(0x42F504E0519E8F36, 0xBB026F895BF35B7D, 0xFD801FB8025B792C, 0xAC6EFFA9CE6893DA)
  {
    assert Round(0x05DDDF2BD5BE5062, 0x6161616161616161) == 0x42F504E0519E8F36;
    assert Round(0x1EFB1FADD780FA8E, 0x6161616161616161) == 0xBB026F895BF35B7D;
    assert Round(0x40CD4AE0EB88D74B, 0x6161616161616161) == 0xFD801FB8025B792C;
    assert Round(0x16EC75A40A747876, 0x6161616161616161) == 0xAC6EFFA9CE6893DA;
    hide Round;
    StripeDoes(Lanes(0x05DDDF2BD5BE5062, 0x1EFB1FADD780FA8E, 0x40CD4AE0EB88D74B, 0x16EC75A40A747876),
      Lanes(0x42F504E0519E8F36, 0xBB026F895BF35B7D, 0xFD801FB8025B792C, 0xAC6EFFA9CE6893DA));
  }

  lemma Stripe4()
    ensures |Stripe32()| == STRIPE
    ensures ConsumeStripe(Lanes(0x42F504E0519E8F36, 0xBB026F895BF35B7D, 0xFD801FB8025B792C, 0xAC6EFFA9CE6893DA),
      Stripe32())
      == Lanes(0x8D6772159F37042C, 0x637E3F2A2FDCB5FF, 0xCDE629F71E9FD020, 0x4D8A2CC02389566F)
  {
    assert Round(0x42F504E0519E8F36, 0x6161616161616161) == 0x8D6772159F37042C;
    assert Round(0xBB026F895BF35B7D, 0x6161616161616161) == 0x637E3F2A2FDCB5FF;
    assert Round(0xFD801FB8025B792C, 0x6161616161616161) == 0xCDE629F71E9FD020;
    assert Round(0xAC6EFFA9CE6893DA, 0x6161616161616161) == 0x4D8A2CC02389566F;
    hide Round;
    StripeDoes(Lanes(0x42F504E0519E8F36, 0xBB026F895BF35B7D, 0xFD801FB8025B792C, 0xAC6EFFA9CE6893DA),
      Lanes(0x8D6772159F37042C, 0x637E3F2A2FDCB5FF, 0xCDE629F71E9FD020, 0x4D8A2CC02389566F));
  }

  lemma Stripe5()
    ensures |Stripe32()| == STRIPE
    ensures ConsumeStripe(Lanes(0x8D6772159F37042C, 0x637E3F2A2FDCB5FF, 0xCDE629F71E9FD020, 0x4D8A2CC02389566F),
      Stripe32())
      == Lanes(0xBC5678308CC21DE9, 0xFF063E29515C14AF, 0xDB1F2266A206F979, 0x1A634E0E3F9667BC)
  {
    assert Round(0x8D6772159F37042C, 0x6161616161616161) == 0xBC5678308CC21DE9;
    assert Round(0x637E3F2A2FDCB5FF, 0x6161616161616161) == 0xFF063E29515C14AF;
    assert Round(0xCDE629F71E9FD020, 0x6161616161616161) == 0xDB1F2266A206F979;
    assert Round(0x4D8A2CC02389566F, 0x6161616161616161) == 0x1A634E0E3F9667BC;
    hide Round;
    StripeDoes(Lanes(0x8D6772159F37042C, 0x637E3F2A2FDCB5FF, 0xCDE629F71E9FD020, 0x4D8A2CC02389566F),
      Lanes(0xBC5678308CC21DE9, 0xFF063E29515C14AF, 0xDB1F2266A206F979, 0x1A634E0E3F9667BC));
  }

  lemma Stripe6()
    ensures |Stripe32()| == STRIPE
    ensures ConsumeStripe(Lanes(0xBC5678308CC21DE9, 0xFF063E29515C14AF, 0xDB1F2266A206F979, 0x1A634E0E3F9667BC),
      Stripe32())
      == Lanes(0x990F47DEC81F7BC4, 0xF4BEDBFC85D2D12F, 0x1961E48037F8AB01, 0xD2EF09E6794775CD)
  {
    assert Round(0xBC5678308CC21DE9, 0x6161616161616161) == 0x990F47DEC81F7BC4;
    assert Round(0xFF063E29515C14AF, 0x6161616161616161) == 0xF4BEDBFC85D2D12F;
    assert Round(0xDB1F2266A206F979, 0x6161616161616161) == 0x1961E48037F8AB01;
    assert Round(0x1A634E0E3F9667BC, 0x6161616161616161) == 0xD2EF09E6794775CD;
    hide Round;
    StripeDoes(Lanes(0xBC5678308CC21DE9, 0xFF063E29515C14AF, 0xDB1F2266A206F979, 0x1A634E0E3F9667BC),
      Lanes(0x990F47DEC81F7BC4, 0xF4BEDBFC85D2D12F, 0x1961E48037F8AB01, 0xD2EF09E6794775CD));
  }

  lemma Stripe7()
    ensures |Stripe32()| == STRIPE
    ensures ConsumeStripe(Lanes(0x990F47DEC81F7BC4, 0xF4BEDBFC85D2D12F, 0x1961E48037F8AB01, 0xD2EF09E6794775CD),
      Stripe32())
      == Lanes(0x00A89B95EA26E425, 0x3A2979002327480E, 0x8A9A1E89D1161ADC, 0x582ED4B896DFB541)
  {
    assert Round(0x990F47DEC81F7BC4, 0x6161616161616161) == 0x00A89B95EA26E425;
    assert Round(0xF4BEDBFC85D2D12F, 0x6161616161616161) == 0x3A2979002327480E;
    assert Round(0x1961E48037F8AB01, 0x6161616161616161) == 0x8A9A1E89D1161ADC;
    assert Round(0xD2EF09E6794775CD, 0x6161616161616161) == 0x582ED4B896DFB541;
    hide Round;
    StripeDoes(Lanes(0x990F47DEC81F7BC4, 0xF4BEDBFC85D2D12F, 0x1961E48037F8AB01, 0xD2EF09E6794775CD),
      Lanes(0x00A89B95EA26E425, 0x3A2979002327480E, 0x8A9A1E89D1161ADC, 0x582ED4B896DFB541));
  }

  lemma Stripe8()
    ensures |Stripe32()| == STRIPE
    ensures ConsumeStripe(Lanes(0x00A89B95EA26E425, 0x3A2979002327480E, 0x8A9A1E89D1161ADC, 0x582ED4B896DFB541),
      Stripe32())
      == Lanes(0x6EF7DD5F72100F29, 0x633C2F5C9C0C429C, 0x5BE4CB2516E65A7F, 0xD7000214089989A0)
  {
    assert Round(0x00A89B95EA26E425, 0x6161616161616161) == 0x6EF7DD5F72100F29;
    assert Round(0x3A2979002327480E, 0x6161616161616161) == 0x633C2F5C9C0C429C;
    assert Round(0x8A9A1E89D1161ADC, 0x6161616161616161) == 0x5BE4CB2516E65A7F;
    assert Round(0x582ED4B896DFB541, 0x6161616161616161) == 0xD7000214089989A0;
    hide Round;
    StripeDoes(Lanes(0x00A89B95EA26E425, 0x3A2979002327480E, 0x8A9A1E89D1161ADC, 0x582ED4B896DFB541),
      Lanes(0x6EF7DD5F72100F29, 0x633C2F5C9C0C429C, 0x5BE4CB2516E65A7F, 0xD7000214089989A0));
  }

  lemma LettersMerge()
    ensures MergeAccs(Lanes(0x6EF7DD5F72100F29, 0x633C2F5C9C0C429C, 0x5BE4CB2516E65A7F, 0xD7000214089989A0))
      == 0x9DC7A708872A7D5A
  {
    assert RotL(0x6EF7DD5F72100F29, 1) + RotL(0x633C2F5C9C0C429C, 7) + RotL(0x5BE4CB2516E65A7F, 12)
      + RotL(0xD7000214089989A0, 18) == 0xD109DCE1766CBE41;
    assert MergeRound(0xD109DCE1766CBE41, 0x6EF7DD5F72100F29) == 0x25FA51349267EE2E;
    assert MergeRound(0x25FA51349267EE2E, 0x633C2F5C9C0C429C) == 0x62D0D48960FF6B5F;
    assert MergeRound(0x62D0D48960FF6B5F, 0x5BE4CB2516E65A7F) == 0xEC6CD6FA6773B609;
    assert MergeRound(0xEC6CD6FA6773B609, 0xD7000214089989A0) == 0x9DC7A708872A7D5A;
  }

  lemma LettersBits()
    ensures Bits(257) == 257
  {
    hide Bits;
    NoBits();
    BitStep(1);
    assert Plus(Twice(0), 1) == 1;
    BitStep(2);
    assert Twice(1) == 2;
    BitStep(4);
    assert Twice(2) == 4;
    BitStep(8);
    assert Twice(4) == 8;
    BitStep(16);
    assert Twice(8) == 16;
    BitStep(32);
    assert Twice(16) == 32;
    BitStep(64);
    assert Twice(32) == 64;
    BitStep(128);
    assert Twice(64) == 128;
    BitStep(257);
    assert Plus(Twice(128), 1) == 257;
  }

  lemma LettersLength()
    ensures Xxh64Kernel(0).addLen(0x9DC7A708872A7D5A, 257) == 0x9DC7A708872A7E5B
  {
    hide Bits, Xxh64Kernel;
    KernelAdds(0, 0x9DC7A708872A7D5A, 257);
    LettersBits();
    assert Plus(0x9DC7A708872A7D5A, 257) == 0x9DC7A708872A7E5B;
  }

  lemma LettersByte()
    ensures Finalize1(0x9DC7A708872A7E5B, 97) == 0x6493B85C307455C5
  {
    assert 97 as byte as bv64 * PRIME_5 == 0x17AD1CD776BD51A5;
    assert 0x9DC7A708872A7E5B as bv64 ^ 0x17AD1CD776BD51A5 == 0x8A6ABBDFF1972FFE;
    assert RotL(0x8A6ABBDFF1972FFE, 11) == 0x55DEFF8CB97FF453;
  }

  lemma LettersEndMix()
    ensures Avalanche(0x6493B85C307455C5) == 0x476064D7D5DEC02B
  {
    assert (0x6493B85C307455C5 as bv64 ^ (0x6493B85C307455C5 as bv64 >> 33)) * PRIME_2 == 0xAC292C6B32344885;
    assert (0xAC292C6B32344885 as bv64 ^ (0xAC292C6B32344885 as bv64 >> 29)) * PRIME_3 == 0x476064D792BEA4FC;
  }

  lemma LettersTail()
    ensures Finalize(Xxh64Kernel(0), 0x9DC7A708872A7E5B, [97]) == 0x476064D7D5DEC02B
  {
    hide Finalize, Finalize8, Finalize4, Finalize1, Avalanche, Xxh64Kernel;
    LettersByte();
    LettersEndMix();
    TailEnd(0x6493B85C307455C5);
    TailOne(0x9DC7A708872A7E5B, 97, []);
    assert [97] + [] == [97 as byte];
  }

  lemma {:induction false} LettersLengthIs(n: nat)
    ensures |Letters(n)| == STRIPE * n + 1
  {
    if n > 0 {
      LettersLengthIs(n - 1);
    }
  }

  /** The next stripe of many. */
  lemma FoldLetters(n: nat, a: Lanes, b: Lanes)
    requires n > 0 && |Stripe32()| == STRIPE && ConsumeStripe(a, Stripe32()) == b
    ensures Fold(Xxh64Kernel(0), a, Letters(n)) == Fold(Xxh64Kernel(0), b, Letters(n - 1))
  {
    hide ConsumeStripe, MergeAccs, InitAccs, Finalize8, Finalize4, Finalize1, Avalanche, Stripe32;
    var p := Letters(n);
    assert p[..STRIPE] == Stripe32() && p[STRIPE..] == Letters(n - 1);
  }

  lemma LettersLanes()
    ensures Fold(Xxh64Kernel(0), Lanes(0x60EA27EEADC0B5D6, 0xC2B2AE3D27D4EB4F, 0x0000000000000000, 0x61C8864E7A143579),
      Letters(8))
      == Lanes(0x6EF7DD5F72100F29, 0x633C2F5C9C0C429C, 0x5BE4CB2516E65A7F, 0xD7000214089989A0)
  {
    hide ConsumeStripe, Xxh64Kernel, Letters, Stripe32, Fold;
    Stripe1();
    FoldLetters(8, Lanes(0x60EA27EEADC0B5D6, 0xC2B2AE3D27D4EB4F, 0x0000000000000000, 0x61C8864E7A143579),
      Lanes(0x03F42814F61B485D, 0x4CB08EFC49304275, 0xF260C6325FDFDB1C, 0x5FDB98ABAD090AAD));
    Stripe2();
    FoldLetters(7, Lanes(0x03F42814F61B485D, 0x4CB08EFC49304275, 0xF260C6325FDFDB1C, 0x5FDB98ABAD090AAD),
      Lanes(0x05DDDF2BD5BE5062, 0x1EFB1FADD780FA8E, 0x40CD4AE0EB88D74B, 0x16EC75A40A747876));
    Stripe3();
    FoldLetters(6, Lanes(0x05DDDF2BD5BE5062, 0x1EFB1FADD780FA8E, 0x40CD4AE0EB88D74B, 0x16EC75A40A747876),
      Lanes(0x42F504E0519E8F36, 0xBB026F895BF35B7D, 0xFD801FB8025B792C, 0xAC6EFFA9CE6893DA));
    Stripe4();
    FoldLetters(5, Lanes(0x42F504E0519E8F36, 0xBB026F895BF35B7D, 0xFD801FB8025B792C, 0xAC6EFFA9CE6893DA),
      Lanes(0x8D6772159F37042C, 0x637E3F2A2FDCB5FF, 0xCDE629F71E9FD020, 0x4D8A2CC02389566F));
    Stripe5();
    FoldLetters(4, Lanes(0x8D6772159F37042C, 0x637E3F2A2FDCB5FF, 0xCDE629F71E9FD020, 0x4D8A2CC02389566F),
      Lanes(0xBC5678308CC21DE9, 0xFF063E29515C14AF, 0xDB1F2266A206F979, 0x1A634E0E3F9667BC));
    Stripe6();
    FoldLetters(3, Lanes(0xBC5678308CC21DE9, 0xFF063E29515C14AF, 0xDB1F2266A206F979, 0x1A634E0E3F9667BC),
      Lanes(0x990F47DEC81F7BC4, 0xF4BEDBFC85D2D12F, 0x1961E48037F8AB01, 0xD2EF09E6794775CD));
    Stripe7();
    FoldLetters(2, Lanes(0x990F47DEC81F7BC4, 0xF4BEDBFC85D2D12F, 0x1961E48037F8AB01, 0xD2EF09E6794775CD),
      Lanes(0x00A89B95EA26E425, 0x3A2979002327480E, 0x8A9A1E89D1161ADC, 0x582ED4B896DFB541));
    Stripe8();
    FoldLetters(1, Lanes(0x00A89B95EA26E425, 0x3A2979002327480E, 0x8A9A1E89D1161ADC, 0x582ED4B896DFB541),
      Lanes(0x6EF7DD5F72100F29, 0x633C2F5C9C0C429C, 0x5BE4CB2516E65A7F, 0xD7000214089989A0));
    LastLetter(Lanes(0x6EF7DD5F72100F29, 0x633C2F5C9C0C429C, 0x5BE4CB2516E65A7F, 0xD7000214089989A0));
  }

  lemma LastLetter(a: Lanes)
    ensures Fold(Xxh64Kernel(0), a, Letters(0)) == a
  {
    hide Xxh64Kernel;
  }

  lemma InitLanes()
    ensures Xxh64Kernel(0).init == Lanes(0x60EA27EEADC0B5D6, 0xC2B2AE3D27D4EB4F, 0x0000000000000000, 0x61C8864E7A143579)
  {
    hide ConsumeStripe, MergeAccs, Finalize8, Finalize4, Finalize1, Avalanche, AddLength;
  }

  lemma {:induction false} LettersEnd(n: nat)
    ensures |Letters(n)| == STRIPE * n + 1 && Letters(n)[STRIPE * n..] == [97]
    decreases n
  {
    LettersLengthIs(n);
    if n > 0 {
      LettersLengthIs(n - 1);
      LettersEnd(n - 1);
      assert Letters(n)[STRIPE * n..] == Letters(n - 1)[STRIPE * (n - 1)..];
    }
  }

  lemma LongForm(acc: Lanes)
    ensures Xxh64Kernel(0).long(acc) == MergeAccs(acc)
  {
    hide ConsumeStripe, MergeAccs, InitAccs, Finalize8, Finalize4, Finalize1, Avalanche, AddLength;
  }

  /** The hash of 257 times the letter a: eight stripes and a single byte, and a length beyond a byte. */
  lemma ManyLetters()
    ensures |Letters(8)| == 257 && Hash(Letters(8), 0) == 0x476064D7D5DEC02B
  {
    hide Fold, Finalize, Xxh64Kernel, MergeAccs, Letters;
    LettersLengthIs(8);
    LettersEnd(8);
    InitLanes();
    LettersLanes();
    LettersMerge();
    LongForm(Lanes(0x6EF7DD5F72100F29, 0x633C2F5C9C0C429C, 0x5BE4CB2516E65A7F, 0xD7000214089989A0));
    LettersLength();
    LettersTail();
    assert Whole(257) == 256;
  }

  /** The hash of nothing with another seed. */
  lemma EmptySeeded()
    ensures Hash([], 0x9E3779B1) == 0xAC75FDA2929B17EF
  {
  }
}
