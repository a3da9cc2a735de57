/** SHA-256 of "abc", step by step: the first example of appendix B of FIPS 180-2. Its block passes
    through every constant, function and rotation of the standard. */
module Sha256Vectors {
  import opened Bytes
  import opened Padding
  import opened Sha256Constants
  import opened Sha256Spec
  import opened Words

  const ABC: seq<byte> := [0x61, 0x62, 0x63]

  /** The words of the padded message. */
  ghost predicate OfAbc(b: seq<byte>)
  {
    && |b| == 64 && W(b, 0) == 0x61626380 && W(b, 15) == 0x18
    && forall t :: 0 < t < 15 ==> W(b, t) == 0
  }

  lemma WordsOfBlock(b: seq<byte>)
    requires |b| == 64 && b[0] == 0x61 && b[1] == 0x62 && b[2] == 0x63 && b[3] == 0x80
    requires b[60] == b[61] == b[62] == 0 && b[63] == 0x18
    requires forall i :: 3 < i < 60 ==> b[i] == 0
    ensures OfAbc(b)
  {
    assert W(b, 0) == 0x61626380 && W(b, 15) == 0x18;
    forall t | 0 < t < 15 ensures W(b, t) == 0 {
      assert b[4 * t] == b[4 * t + 1] == b[4 * t + 2] == b[4 * t + 3] == 0;
    }
  }

  lemma LengthOfAbc()
    ensures BE64(U64(24)) == [0, 0, 0, 0, 0, 0, 0, 0x18]
  {
    U64Of24();
  }

  lemma BlockOfAbc()
    ensures OfAbc(Pad(ABC))
  {
    PadShape(ABC);
    LengthOfAbc();
    hide Pad, U64, BE64, OfAbc;
    var b := Pad(ABC);
    assert b[0] == b[..3][0] && b[1] == b[..3][1] && b[2] == b[..3][2];
    assert |b| == 64;
    assert forall i :: 0 <= i < 8 ==> b[56..][i] == b[56 + i];
    assert b[56] == b[56..][0] && b[57] == b[56..][1] && b[58] == b[56..][2] && b[59] == b[56..][3];
    assert b[60] == b[56..][4] && b[61] == b[56..][5] && b[62] == b[56..][6] && b[63] == b[56..][7];
    WordsOfBlock(b);
  }

  lemma Words16(b: seq<byte>)
    requires OfAbc(b)
    ensures W(b, 16) == 0x61626380 && W(b, 17) == 0x000f0000 && W(b, 18) == 0x7da86405 && W(b, 19) == 0x600003c6
    ensures W(b, 20) == 0x3e9d7b78 && W(b, 21) == 0x0183fc00 && W(b, 22) == 0x12dcbfdb && W(b, 23) == 0xe2e2c38e
    ensures W(b, 24) == 0xc8215c1a && W(b, 25) == 0xb73679a2 && W(b, 26) == 0xe5bc3909 && W(b, 27) == 0x32663c5b
    ensures W(b, 28) == 0x9d209d67 && W(b, 29) == 0xec8726cb && W(b, 30) == 0x702138a4 && W(b, 31) == 0xd3b7973b
  {
    assert W(b, 16) == 0x61626380;
    assert W(b, 17) == 0x000f0000;
    assert W(b, 18) == 0x7da86405;
    assert W(b, 19) == 0x600003c6;
    assert W(b, 20) == 0x3e9d7b78;
    assert W(b, 21) == 0x0183fc00;
    assert W(b, 22) == 0x12dcbfdb;
    assert W(b, 23) == 0xe2e2c38e;
    assert W(b, 24) == 0xc8215c1a;
    assert W(b, 25) == 0xb73679a2;
    assert W(b, 26) == 0xe5bc3909;
    assert W(b, 27) == 0x32663c5b;
    assert W(b, 28) == 0x9d209d67;
    assert W(b, 29) == 0xec8726cb;
    assert W(b, 30) == 0x702138a4;
    assert W(b, 31) == 0xd3b7973b;
  }

  lemma Words32(b: seq<byte>)
    requires OfAbc(b)
    ensures W(b, 32) == 0x93f5997f && W(b, 33) == 0x3b68ba73 && W(b, 34) == 0xaff4ffc1 && W(b, 35) == 0xf10a5c62
    ensures W(b, 36) == 0x0a8b3996 && W(b, 37) == 0x72af830a && W(b, 38) == 0x9409e33e && W(b, 39) == 0x24641522
    ensures W(b, 40) == 0x9f47bf94 && W(b, 41) == 0xf0a64f5a && W(b, 42) == 0x3e246a79 && W(b, 43) == 0x27333ba3
    ensures W(b, 44) == 0x0c4763f2 && W(b, 45) == 0x840abf27 && W(b, 46) == 0x7a290d5d && W(b, 47) == 0x065c43da
  {
    Words16(b);
    assert W(b, 32) == 0x93f5997f;
    assert W(b, 33) == 0x3b68ba73;
    assert W(b, 34) == 0xaff4ffc1;
    assert W(b, 35) == 0xf10a5c62;
    assert W(b, 36) == 0x0a8b3996;
    assert W(b, 37) == 0x72af830a;
    assert W(b, 38) == 0x9409e33e;
    assert W(b, 39) == 0x24641522;
    assert W(b, 40) == 0x9f47bf94;
    assert W(b, 41) == 0xf0a64f5a;
    assert W(b, 42) == 0x3e246a79;
    assert W(b, 43) == 0x27333ba3;
    assert W(b, 44) == 0x0c4763f2;
    assert W(b, 45) == 0x840abf27;
    assert W(b, 46) == 0x7a290d5d;
    assert W(b, 47) == 0x065c43da;
  }

  lemma Words48(b: seq<byte>)
    requires OfAbc(b)
    ensures W(b, 48) == 0xfb3e89cb && W(b, 49) == 0xcc7617db && W(b, 50) == 0xb9e66c34 && W(b, 51) == 0xa9993667
    ensures W(b, 52) == 0x84badedd && W(b, 53) == 0xc21462bc && W(b, 54) == 0x1487472c && W(b, 55) == 0xb20f7a99
    ensures W(b, 56) == 0xef57b9cd && W(b, 57) == 0xebe6b238 && W(b, 58) == 0x9fe3095e && W(b, 59) == 0x78bc8d4b
    ensures W(b, 60) == 0xa43fcf15 && W(b, 61) == 0x668b2ff8 && W(b, 62) == 0xeeaba2cc && W(b, 63) == 0x12b1edeb
  {
    Words16(b);
    Words32(b);
    assert W(b, 48) == 0xfb3e89cb;
    assert W(b, 49) == 0xcc7617db;
    assert W(b, 50) == 0xb9e66c34;
    assert W(b, 51) == 0xa9993667;
    assert W(b, 52) == 0x84badedd;
    assert W(b, 53) == 0xc21462bc;
    assert W(b, 54) == 0x1487472c;
    assert W(b, 55) == 0xb20f7a99;
    assert W(b, 56) == 0xef57b9cd;
    assert W(b, 57) == 0xebe6b238;
    assert W(b, 58) == 0x9fe3095e;
    assert W(b, 59) == 0x78bc8d4b;
    assert W(b, 60) == 0xa43fcf15;
    assert W(b, 61) == 0x668b2ff8;
    assert W(b, 62) == 0xeeaba2cc;
    assert W(b, 63) == 0x12b1edeb;
  }

  /** One round computes two of the registers, and moves the others. */
  lemma Next(b: seq<byte>, t: nat, a: bv32, e: bv32)
    requires |b| == 64 && t < 64
    requires var r := Round(Rounds(H0, b, t), K(t), W(b, t)); r.a == a && r.e == e
    ensures var s := Rounds(H0, b, t);
      Rounds(H0, b, t + 1) == Hash(a, s.a, s.b, s.c, e, s.e, s.f, s.g)
  {
  }

  lemma Rounds16(b: seq<byte>)
    requires OfAbc(b)
    ensures Rounds(H0, b, 16)
         == Hash(0xb0fa238e, 0xc0645fde, 0xd932eb16, 0x87912990,
              0x07590dcd, 0x0b92f20c, 0x745a48de, 0x1e578218)
  {
    ConstantsTo16();
    assert Rounds(H0, b, 0) == H0;
    hide W, Rounds, K;
    Next(b, 0, 0x5d6aebcd, 0xfa2a4622);
    Next(b, 1, 0x5a6ad9ad, 0x78ce7989);
    Next(b, 2, 0xc8c347a7, 0xf92939eb);
    Next(b, 3, 0xd550f666, 0x24e00850);
    Next(b, 4, 0x04409a6a, 0x43ada245);
    Next(b, 5, 0x2b4209f5, 0x714260ad);
    Next(b, 6, 0xe5030380, 0x9b27a401);
    Next(b, 7, 0x85a07b5f, 0x0c657a79);
    Next(b, 8, 0x8e04ecb9, 0x32ca2d8c);
    Next(b, 9, 0x8c87346b, 0x1cc92596);
    Next(b, 10, 0x4798a3f4, 0x436b23e8);
    Next(b, 11, 0xf71fc5a9, 0x816fd6e9);
    Next(b, 12, 0x87912990, 0x1e578218);
    Next(b, 13, 0xd932eb16, 0x745a48de);
    Next(b, 14, 0xc0645fde, 0x0b92f20c);
    Next(b, 15, 0xb0fa238e, 0x07590dcd);
  }

  lemma Rounds32(b: seq<byte>)
    requires OfAbc(b)
    ensures Rounds(H0, b, 32)
         == Hash(0x73b33bf5, 0xea992a22, 0xa0060b30, 0x363482c9,
              0xba591112, 0x0109ab3a, 0xade79437, 0x6112a3b7)
  {
    Rounds16(b);
    Words16(b);
    ConstantsTo32();
    hide W, Rounds, K;
    Next(b, 16, 0x21da9a9b, 0x8034229c);
    Next(b, 17, 0xc2fbd9d1, 0x846ee454);
    Next(b, 18, 0xfe777bbf, 0xcc899961);
    Next(b, 19, 0xe1f20c33, 0xb0638179);
    Next(b, 20, 0x9dc68b63, 0x8ada8930);
    Next(b, 21, 0xc2606d6d, 0xe1257970);
    Next(b, 22, 0xa7a3623f, 0x49f5114a);
    Next(b, 23, 0xc5d53d8d, 0xaa47c347);
    Next(b, 24, 0x1c2c2838, 0x2823ef91);
    Next(b, 25, 0xcde8037d, 0x14383d8e);
    Next(b, 26, 0xb62ec4bc, 0xc74c6516);
    Next(b, 27, 0x77d37528, 0xedffbff8);
    Next(b, 28, 0x363482c9, 0x6112a3b7);
    Next(b, 29, 0xa0060b30, 0xade79437);
    Next(b, 30, 0xea992a22, 0x0109ab3a);
    Next(b, 31, 0x73b33bf5, 0xba591112);
  }

  lemma Rounds48(b: seq<byte>)
    requires OfAbc(b)
    ensures Rounds(H0, b, 48)
         == Hash(0x4172328d, 0xa14c14b0, 0x72ab4b91, 0x26628815,
              0xfecf0bc6, 0xd57b94a9, 0xb7755da1, 0xa80f11f0)
  {
    Rounds32(b);
    Words32(b);
    ConstantsTo48();
    hide W, Rounds, K;
    Next(b, 32, 0x98e12507, 0x9cd9f5f6);
    Next(b, 33, 0xfe604df5, 0x59249dd3);
    Next(b, 34, 0xa9a7738c, 0x085f3833);
    Next(b, 35, 0x65a0cfe4, 0xf4b002d6);
    Next(b, 36, 0x41a65cb1, 0x0772a26b);
    Next(b, 37, 0x34df1604, 0xa507a53d);
    Next(b, 38, 0x6dc57a8a, 0xf0781bc8);
    Next(b, 39, 0x79ea687a, 0x1efbc0a0);
    Next(b, 40, 0xd6670766, 0x26352d63);
    Next(b, 41, 0xdf46652f, 0x838b2711);
    Next(b, 42, 0x17aa0dfe, 0xdecd4715);
    Next(b, 43, 0x9d4baf93, 0xfda24c2e);
    Next(b, 44, 0x26628815, 0xa80f11f0);
    Next(b, 45, 0x72ab4b91, 0xb7755da1);
    Next(b, 46, 0xa14c14b0, 0xd57b94a9);
    Next(b, 47, 0x4172328d, 0xfecf0bc6);
  }

  lemma Rounds64(b: seq<byte>)
    requires OfAbc(b)
    ensures Rounds(H0, b, 64)
         == Hash(0x506e3058, 0xd39a2165, 0x04d24d6c, 0xb85e2ce9,
              0x5ef50f24, 0xfb121210, 0x948d25b6, 0x961f4894)
  {
    Rounds48(b);
    Words48(b);
    ConstantsTo64();
    hide W, Rounds, K;
    Next(b, 48, 0x05757ceb, 0xbd714038);
    Next(b, 49, 0xf11bfaa8, 0x6e5c390c);
    Next(b, 50, 0x7a0508a1, 0x52f1ccf7);
    Next(b, 51, 0x886e7a22, 0x49231c1e);
    Next(b, 52, 0x101fd28f, 0x529e7d00);
    Next(b, 53, 0xf5702fdb, 0x9f4787c3);
    Next(b, 54, 0x3ec45cdb, 0xe50e1b4f);
    Next(b, 55, 0x38cc9913, 0x54cb266b);
    Next(b, 56, 0xfcd1887b, 0x9b5e906c);
    Next(b, 57, 0xc062d46f, 0x7e44008e);
    Next(b, 58, 0xffb70472, 0x6d83bfc6);
    Next(b, 59, 0xb6ae8fff, 0xb21bad3d);
    Next(b, 60, 0xb85e2ce9, 0x961f4894);
    Next(b, 61, 0x04d24d6c, 0x948d25b6);
    Next(b, 62, 0xd39a2165, 0xfb121210);
    Next(b, 63, 0x506e3058, 0x5ef50f24);
  }

  lemma CompressAbc(b: seq<byte>)
    requires OfAbc(b)
    ensures Compress(H0, b)
         == Hash(0xba7816bf, 0x8f01cfea, 0x414140de, 0x5dae2223,
              0xb00361a3, 0x96177a9c, 0xb410ff61, 0xf20015ad)
  {
    Rounds64(b);
    hide Rounds, OfAbc;
  }

  lemma OneBlock(s: Hash, b: seq<byte>)
    requires |b| == 64
    ensures Blocks(s, b) == Compress(s, b)
  {
    hide Compress;
    assert b[..0] == [] && b[0..] == b;
    assert Blocks(s, b[..0]) == s;
  }

  lemma BytesOut()

    ensures BE32(0xba7816bf) == [0xba, 0x78, 0x16, 0xbf]
    ensures BE32(0x8f01cfea) == [0x8f, 0x01, 0xcf, 0xea]
    ensures BE32(0x414140de) == [0x41, 0x41, 0x40, 0xde]
    ensures BE32(0x5dae2223) == [0x5d, 0xae, 0x22, 0x23]
    ensures BE32(0xb00361a3) == [0xb0, 0x03, 0x61, 0xa3]
    ensures BE32(0x96177a9c) == [0x96, 0x17, 0x7a, 0x9c]
    ensures BE32(0xb410ff61) == [0xb4, 0x10, 0xff, 0x61]
    ensures BE32(0xf20015ad) == [0xf2, 0x00, 0x15, 0xad]
  {
  }

  /** The digest. */
  lemma DigestOfAbc()
    ensures Sha256(ABC)
      == [0xba, 0x78, 0x16, 0xbf] + [0x8f, 0x01, 0xcf, 0xea] + [0x41, 0x41, 0x40, 0xde] + [0x5d, 0xae, 0x22, 0x23]
       + [0xb0, 0x03, 0x61, 0xa3] + [0x96, 0x17, 0x7a, 0x9c] + [0xb4, 0x10, 0xff, 0x61] + [0xf2, 0x00, 0x15, 0xad]
  {
    BlockOfAbc();
    CompressAbc(Pad(ABC));
    OneBlock(H0, Pad(ABC));
    DigestBytes(Blocks(H0, Pad(ABC)));
    BytesOut();
    hide Pad, Compress, Digest, BE32, Blocks, OfAbc;
  }
}
