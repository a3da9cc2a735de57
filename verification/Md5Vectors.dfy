/** MD5 of "abc", step by step: one of the digests that section A.5 of RFC 1321 lists. Its block passes
    through every constant, function and rotation of the standard. */
module Md5Vectors {
  import opened Bytes
  import opened Md5Spec
  import opened Padding
  import opened Words

  const ABC: seq<byte> := [0x61, 0x62, 0x63]

  /** The words of the padded message. */
  ghost predicate OfAbc(b: seq<byte>)
  {
    && |b| == 64 && X(b, 0) == 0x80636261 && X(b, 14) == 0x18
    && forall k :: 0 < k < 16 && k != 14 ==> X(b, k) == 0
  }

  lemma WordsOfBlock(b: seq<byte>)
    requires |b| == 64 && b[0] == 0x61 && b[1] == 0x62 && b[2] == 0x63 && b[3] == 0x80
    requires b[56] == 0x18 && b[57] == b[58] == b[59] == b[60] == b[61] == b[62] == b[63] == 0
    requires forall i :: 3 < i < 56 ==> b[i] == 0
    ensures OfAbc(b)
  {
    assert X(b, 0) == 0x80636261 && X(b, 14) == 0x18;
    forall k | 0 < k < 16 && k != 14 ensures X(b, k) == 0 {
      assert b[4 * k] == b[4 * k + 1] == b[4 * k + 2] == b[4 * k + 3] == 0;
    }
  }

  lemma LengthOfAbc()
    ensures LE64(U64(24)) == [0x18, 0, 0, 0, 0, 0, 0, 0]
  {
    U64Of24();
  }

  lemma BlockOfAbc()
    ensures OfAbc(Pad(ABC))
  {
    PadShape(ABC);
    LengthOfAbc();
    hide Pad, U64, LE64, OfAbc;
    var b := Pad(ABC);
    assert b[0] == b[..3][0] && b[1] == b[..3][1] && b[2] == b[..3][2];
    assert |b| == 64;
    assert b[56] == b[56..][0] && b[57] == b[56..][1] && b[58] == b[56..][2] && b[59] == b[56..][3];
    assert b[60] == b[56..][4] && b[61] == b[56..][5] && b[62] == b[56..][6] && b[63] == b[56..][7];
    WordsOfBlock(b);
  }

  lemma NextF(b: seq<byte>, i: nat, v: bv32)
    requires |b| == 64 && 0 <= i < 16
    requires var r := Ops(INIT, b, i); NewA(r.a, r.b, F(r.b, r.c, r.d), X(b, Index(i)), T(i), Shift(i)) == v
    ensures var r := Ops(INIT, b, i);
      Ops(INIT, b, i + 1) == Regs(r.d, v, r.b, r.c)
  {
    hide NewA, X, T, Index, Shift, F, G, H, I;
  }

  lemma Ops16(b: seq<byte>)
    requires OfAbc(b)
    ensures Ops(INIT, b, 16) == Regs(0xdda9b9a6, 0x72aff2e0, 0xe396856b, 0xa1051895)
  {
    ConstantsTo16();
    PlacesTo16();
    assert Ops(INIT, b, 0) == INIT;
    hide X, Ops, T, Index, Shift;
    NextF(b, 0, 0xd6d117b4);
    NextF(b, 1, 0x344a8432);
    NextF(b, 2, 0x2f6fbd72);
    NextF(b, 3, 0x7ad956f2);
    NextF(b, 4, 0xc73741ef);
    NextF(b, 5, 0x8bac3051);
    NextF(b, 6, 0x207dc67b);
    NextF(b, 7, 0x928d99f6);
    NextF(b, 8, 0x854b3712);
    NextF(b, 9, 0x74e2f284);
    NextF(b, 10, 0x3020401c);
    NextF(b, 11, 0x5ed49596);
    NextF(b, 12, 0xdda9b9a6);
    NextF(b, 13, 0xa1051895);
    NextF(b, 14, 0xe396856b);
    NextF(b, 15, 0x72aff2e0);
  }

  lemma NextG(b: seq<byte>, i: nat, v: bv32)
    requires |b| == 64 && 16 <= i < 32
    requires var r := Ops(INIT, b, i); NewA(r.a, r.b, G(r.b, r.c, r.d), X(b, Index(i)), T(i), Shift(i)) == v
    ensures var r := Ops(INIT, b, i);
      Ops(INIT, b, i + 1) == Regs(r.d, v, r.b, r.c)
  {
    hide NewA, X, T, Index, Shift, F, G, H, I;
  }

  lemma Ops32(b: seq<byte>)
    requires OfAbc(b)
    ensures Ops(INIT, b, 32) == Regs(0x790a77fb, 0x726342d3, 0xa62884aa, 0x9f47e4f8)
  {
    Ops16(b);
    ConstantsTo32();
    PlacesTo32();
    hide X, Ops, T, Index, Shift;
    NextG(b, 16, 0x3e9e9126);
    NextG(b, 17, 0x4a1d804e);
    NextG(b, 18, 0xe25e1652);
    NextG(b, 19, 0xb5b204e4);
    NextG(b, 20, 0x59a8ffda);
    NextG(b, 21, 0x6d002f1e);
    NextG(b, 22, 0xabfc7920);
    NextG(b, 23, 0x47092c07);
    NextG(b, 24, 0xb7f268cf);
    NextG(b, 25, 0x09388eff);
    NextG(b, 26, 0xfe1623b1);
    NextG(b, 27, 0x786acb8f);
    NextG(b, 28, 0x790a77fb);
    NextG(b, 29, 0x9f47e4f8);
    NextG(b, 30, 0xa62884aa);
    NextG(b, 31, 0x726342d3);
  }

  lemma NextH(b: seq<byte>, i: nat, v: bv32)
    requires |b| == 64 && 32 <= i < 48
    requires var r := Ops(INIT, b, i); NewA(r.a, r.b, H(r.b, r.c, r.d), X(b, Index(i)), T(i), Shift(i)) == v
    ensures var r := Ops(INIT, b, i);
      Ops(INIT, b, i + 1) == Regs(r.d, v, r.b, r.c)
  {
    hide NewA, X, T, Index, Shift, F, G, H, I;
  }

  lemma Ops48(b: seq<byte>)
    requires OfAbc(b)
    ensures Ops(INIT, b, 48) == Regs(0x7f2e507b, 0x7beb9700, 0x8fae6399, 0x99d9679d)
  {
    Ops32(b);
    ConstantsTo48();
    PlacesTo48();
    hide X, Ops, T, Index, Shift;
    NextH(b, 32, 0xb3707ebf);
    NextH(b, 33, 0x60127b2e);
    NextH(b, 34, 0x8d212ff5);
    NextH(b, 35, 0x3b0875c7);
    NextH(b, 36, 0x21b117b9);
    NextH(b, 37, 0x6e7429d5);
    NextH(b, 38, 0x3575227e);
    NextH(b, 39, 0x5a2f5ea5);
    NextH(b, 40, 0x11de1779);
    NextH(b, 41, 0xfadcaa38);
    NextH(b, 42, 0x31c465ca);
    NextH(b, 43, 0x4c6124f4);
    NextH(b, 44, 0x7f2e507b);
    NextH(b, 45, 0x99d9679d);
    NextH(b, 46, 0x8fae6399);
    NextH(b, 47, 0x7beb9700);
  }

  lemma NextI(b: seq<byte>, i: nat, v: bv32)
    requires |b| == 64 && 48 <= i < 64
    requires var r := Ops(INIT, b, i); NewA(r.a, r.b, I(r.b, r.c, r.d), X(b, Index(i)), T(i), Shift(i)) == v
    ensures var r := Ops(INIT, b, i);
      Ops(INIT, b, i + 1) == Regs(r.d, v, r.b, r.c)
  {
    hide NewA, X, T, Index, Shift, F, G, H, I;
  }

  lemma Ops64(b: seq<byte>)
    requires OfAbc(b)
    ensures Ops(INIT, b, 64) == Regs(0x310ade8f, 0xc08226b3, 0xe484b9d8, 0x624d8cb2)
  {
    Ops48(b);
    ConstantsTo64();
    PlacesTo64();
    hide X, Ops, T, Index, Shift;
    NextI(b, 48, 0x7b201df8);
    NextI(b, 49, 0xf4e8e96e);
    NextI(b, 50, 0xb298cefd);
    NextI(b, 51, 0x8bf025c4);
    NextI(b, 52, 0x06cc5e8a);
    NextI(b, 53, 0x5b0d97aa);
    NextI(b, 54, 0x7d632dd0);
    NextI(b, 55, 0x3bfa2c27);
    NextI(b, 56, 0x7f81cc35);
    NextI(b, 57, 0x094454ab);
    NextI(b, 58, 0x4f9dbe3f);
    NextI(b, 59, 0x7327d604);
    NextI(b, 60, 0x310ade8f);
    NextI(b, 61, 0x624d8cb2);
    NextI(b, 62, 0xe484b9d8);
    NextI(b, 63, 0xc08226b3);
  }

  lemma CompressAbc(b: seq<byte>)
    requires OfAbc(b)
    ensures Compress(INIT, b) == Regs(0x98500190, 0xb04fd23c, 0x7d3f96d6, 0x727fe128)
  {
    Ops64(b);
    hide Ops, OfAbc;
  }

  lemma OneBlock(r: Regs, b: seq<byte>)
    requires |b| == 64
    ensures Blocks(r, b) == Compress(r, b)
  {
    hide Compress;
    assert b[..0] == [] && b[0..] == b;
    assert Blocks(r, b[..0]) == r;
  }

  lemma BytesOut()
    ensures LE32(0x98500190) == [0x90, 0x01, 0x50, 0x98]
    ensures LE32(0xb04fd23c) == [0x3c, 0xd2, 0x4f, 0xb0]
    ensures LE32(0x7d3f96d6) == [0xd6, 0x96, 0x3f, 0x7d]
    ensures LE32(0x727fe128) == [0x28, 0xe1, 0x7f, 0x72]
  {
  }

  /** The digest. */
  lemma DigestOfAbc()
    ensures Md5(ABC)
      == [0x90, 0x01, 0x50, 0x98] + [0x3c, 0xd2, 0x4f, 0xb0] + [0xd6, 0x96, 0x3f, 0x7d] + [0x28, 0xe1, 0x7f, 0x72]
  {
    BlockOfAbc();
    CompressAbc(Pad(ABC));
    OneBlock(INIT, Pad(ABC));
    BytesOut();
    hide Pad, Compress, LE32, Blocks, OfAbc;
  }
}
