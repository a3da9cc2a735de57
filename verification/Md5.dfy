/** 3pt/md5/md5.c: MD5 of a stream of pieces. */
module Md5 {
  import opened Bytes
  import opened Padding
  import opened Words
  import S = Md5Spec

  // The macros

  lemma OptimizedF(x: bv32, y: bv32, z: bv32)
    ensures z ^ (x & (y ^ z)) == S.F(x, y, z)
  {
  }

  lemma OptimizedG(x: bv32, y: bv32, z: bv32)
    ensures y ^ (z & (x ^ y)) == S.G(x, y, z)
  {
  }

  function F(x: bv32, y: bv32, z: bv32): (r: bv32)
    ensures r == S.F(x, y, z)
  {
    OptimizedF(x, y, z);
    hide S.F;
    z ^ (x & (y ^ z))
  }

  function G(x: bv32, y: bv32, z: bv32): (r: bv32)
    ensures r == S.G(x, y, z)
  {
    OptimizedG(x, y, z);
    hide S.G;
    y ^ (z & (x ^ y))
  }

  function H(x: bv32, y: bv32, z: bv32): (r: bv32)
    ensures r == S.H(x, y, z)
  {
    x ^ y ^ z
  }

  function I(x: bv32, y: bv32, z: bv32): (r: bv32)
    ensures r == S.I(x, y, z)
  {
    y ^ (x | !z)
  }

  predicate IsShift(s: nat)
  {
    s in {7, 12, 17, 22, 5, 9, 14, 20, 4, 11, 16, 23, 6, 10, 15, 21}
  }

  function Cycle(v: bv32, s: nat): bv32
    requires s < 32
  {
    (v << s) | (v >> (32 - s))
  }

  lemma CycleIsRotation(v: bv32)
    ensures Cycle(v, 7) == S.Rotate(v, 7) && Cycle(v, 12) == S.Rotate(v, 12)
    ensures Cycle(v, 17) == S.Rotate(v, 17) && Cycle(v, 22) == S.Rotate(v, 22)
    ensures Cycle(v, 5) == S.Rotate(v, 5) && Cycle(v, 9) == S.Rotate(v, 9)
    ensures Cycle(v, 14) == S.Rotate(v, 14) && Cycle(v, 20) == S.Rotate(v, 20)
    ensures Cycle(v, 4) == S.Rotate(v, 4) && Cycle(v, 11) == S.Rotate(v, 11)
    ensures Cycle(v, 16) == S.Rotate(v, 16) && Cycle(v, 23) == S.Rotate(v, 23)
    ensures Cycle(v, 6) == S.Rotate(v, 6) && Cycle(v, 10) == S.Rotate(v, 10)
    ensures Cycle(v, 15) == S.Rotate(v, 15) && Cycle(v, 21) == S.Rotate(v, 21)
  {
  }

  lemma StepIsTheStandards(f: bv32, a: bv32, b: bv32, x: bv32, t: bv32, s: nat)
    requires IsShift(s)
    ensures Add(Cycle(Add(a, Add(Add(f, x), t)), s), b) == S.NewA(a, b, f, x, t, s)
  {
    hide Add, Cycle, S.Rotate;
    var v := Add(a, Add(Add(f, x), t));
    AddAssoc(a, Add(f, x), t);
    AddAssoc(a, f, x);
    CycleIsRotation(v);
    AddCommutes(Cycle(v, s), b);
  }

  /** `STEP`, with the value of its function `f`. */
  function Step(f: bv32, a: bv32, b: bv32, x: bv32, t: bv32, s: nat): (r: bv32)
    requires IsShift(s)
    ensures r == S.NewA(a, b, f, x, t, s)
  {
    var v := Add(a, Add(Add(f, x), t));
    StepIsTheStandards(f, a, b, x, t, s);
    Add(Cycle(v, s), b)
  }

  method Round1A(block: seq<byte>, r: S.Regs, ghost start: S.Regs) returns (s: S.Regs)
    requires |block| == 64 && r == S.Ops(start, block, 0)
    ensures s == S.Ops(start, block, 4)
  {
    hide Add, Cycle, FromLE32, S.Rotate, S.NewA, S.X, S.Ops, S.F, S.G, S.H, S.I, F, G, H, I, Step;
    hide S.T, S.Index, S.Shift;
    S.ConstantsTo16();
    S.PlacesTo16();
    var a, b, c, d := r.a, r.b, r.c, r.d;
    a := Step(F(b, c, d), a, b, S.X(block, 0), 0xd76aa478, 7);
    d := Step(F(a, b, c), d, a, S.X(block, 1), 0xe8c7b756, 12);
    c := Step(F(d, a, b), c, d, S.X(block, 2), 0x242070db, 17);
    b := Step(F(c, d, a), b, c, S.X(block, 3), 0xc1bdceee, 22);
    S.Four(start, block, 0);
    return S.Regs(a, b, c, d);
  }

  method Round1B(block: seq<byte>, r: S.Regs, ghost start: S.Regs) returns (s: S.Regs)
    requires |block| == 64 && r == S.Ops(start, block, 4)
    ensures s == S.Ops(start, block, 8)
  {
    hide Add, Cycle, FromLE32, S.Rotate, S.NewA, S.X, S.Ops, S.F, S.G, S.H, S.I, F, G, H, I, Step;
    hide S.T, S.Index, S.Shift;
    S.ConstantsTo16();
    S.PlacesTo16();
    var a, b, c, d := r.a, r.b, r.c, r.d;
    a := Step(F(b, c, d), a, b, S.X(block, 4), 0xf57c0faf, 7);
    d := Step(F(a, b, c), d, a, S.X(block, 5), 0x4787c62a, 12);
    c := Step(F(d, a, b), c, d, S.X(block, 6), 0xa8304613, 17);
    b := Step(F(c, d, a), b, c, S.X(block, 7), 0xfd469501, 22);
    S.Four(start, block, 4);
    return S.Regs(a, b, c, d);
  }

  method Round1C(block: seq<byte>, r: S.Regs, ghost start: S.Regs) returns (s: S.Regs)
    requires |block| == 64 && r == S.Ops(start, block, 8)
    ensures s == S.Ops(start, block, 12)
  {
    hide Add, Cycle, FromLE32, S.Rotate, S.NewA, S.X, S.Ops, S.F, S.G, S.H, S.I, F, G, H, I, Step;
    hide S.T, S.Index, S.Shift;
    S.ConstantsTo16();
    S.PlacesTo16();
    var a, b, c, d := r.a, r.b, r.c, r.d;
    a := Step(F(b, c, d), a, b, S.X(block, 8), 0x698098d8, 7);
    d := Step(F(a, b, c), d, a, S.X(block, 9), 0x8b44f7af, 12);
    c := Step(F(d, a, b), c, d, S.X(block, 10), 0xffff5bb1, 17);
    b := Step(F(c, d, a), b, c, S.X(block, 11), 0x895cd7be, 22);
    S.Four(start, block, 8);
    return S.Regs(a, b, c, d);
  }

  method Round1D(block: seq<byte>, r: S.Regs, ghost start: S.Regs) returns (s: S.Regs)
    requires |block| == 64 && r == S.Ops(start, block, 12)
    ensures s == S.Ops(start, block, 16)
  {
    hide Add, Cycle, FromLE32, S.Rotate, S.NewA, S.X, S.Ops, S.F, S.G, S.H, S.I, F, G, H, I, Step;
    hide S.T, S.Index, S.Shift;
    S.ConstantsTo16();
    S.PlacesTo16();
    var a, b, c, d := r.a, r.b, r.c, r.d;
    a := Step(F(b, c, d), a, b, S.X(block, 12), 0x6b901122, 7);
    d := Step(F(a, b, c), d, a, S.X(block, 13), 0xfd987193, 12);
    c := Step(F(d, a, b), c, d, S.X(block, 14), 0xa679438e, 17);
    b := Step(F(c, d, a), b, c, S.X(block, 15), 0x49b40821, 22);
    S.Four(start, block, 12);
    return S.Regs(a, b, c, d);
  }

  method Round2A(block: seq<byte>, r: S.Regs, ghost start: S.Regs) returns (s: S.Regs)
    requires |block| == 64 && r == S.Ops(start, block, 16)
    ensures s == S.Ops(start, block, 20)
  {
    hide Add, Cycle, FromLE32, S.Rotate, S.NewA, S.X, S.Ops, S.F, S.G, S.H, S.I, F, G, H, I, Step;
    hide S.T, S.Index, S.Shift;
    S.ConstantsTo32();
    S.PlacesTo32();
    var a, b, c, d := r.a, r.b, r.c, r.d;
    a := Step(G(b, c, d), a, b, S.X(block, 1), 0xf61e2562, 5);
    d := Step(G(a, b, c), d, a, S.X(block, 6), 0xc040b340, 9);
    c := Step(G(d, a, b), c, d, S.X(block, 11), 0x265e5a51, 14);
    b := Step(G(c, d, a), b, c, S.X(block, 0), 0xe9b6c7aa, 20);
    S.Four(start, block, 16);
    return S.Regs(a, b, c, d);
  }

  method Round2B(block: seq<byte>, r: S.Regs, ghost start: S.Regs) returns (s: S.Regs)
    requires |block| == 64 && r == S.Ops(start, block, 20)
    ensures s == S.Ops(start, block, 24)
  {
    hide Add, Cycle, FromLE32, S.Rotate, S.NewA, S.X, S.Ops, S.F, S.G, S.H, S.I, F, G, H, I, Step;
    hide S.T, S.Index, S.Shift;
    S.ConstantsTo32();
    S.PlacesTo32();
    var a, b, c, d := r.a, r.b, r.c, r.d;
    a := Step(G(b, c, d), a, b, S.X(block, 5), 0xd62f105d, 5);
    d := Step(G(a, b, c), d, a, S.X(block, 10), 0x02441453, 9);
    c := Step(G(d, a, b), c, d, S.X(block, 15), 0xd8a1e681, 14);
    b := Step(G(c, d, a), b, c, S.X(block, 4), 0xe7d3fbc8, 20);
    S.Four(start, block, 20);
    return S.Regs(a, b, c, d);
  }

  method Round2C(block: seq<byte>, r: S.Regs, ghost start: S.Regs) returns (s: S.Regs)
    requires |block| == 64 && r == S.Ops(start, block, 24)
    ensures s == S.Ops(start, block, 28)
  {
    hide Add, Cycle, FromLE32, S.Rotate, S.NewA, S.X, S.Ops, S.F, S.G, S.H, S.I, F, G, H, I, Step;
    hide S.T, S.Index, S.Shift;
    S.ConstantsTo32();
    S.PlacesTo32();
    var a, b, c, d := r.a, r.b, r.c, r.d;
    a := Step(G(b, c, d), a, b, S.X(block, 9), 0x21e1cde6, 5);
    d := Step(G(a, b, c), d, a, S.X(block, 14), 0xc33707d6, 9);
    c := Step(G(d, a, b), c, d, S.X(block, 3), 0xf4d50d87, 14);
    b := Step(G(c, d, a), b, c, S.X(block, 8), 0x455a14ed, 20);
    S.Four(start, block, 24);
    return S.Regs(a, b, c, d);
  }

  method Round2D(block: seq<byte>, r: S.Regs, ghost start: S.Regs) returns (s: S.Regs)
    requires |block| == 64 && r == S.Ops(start, block, 28)
    ensures s == S.Ops(start, block, 32)
  {
    hide Add, Cycle, FromLE32, S.Rotate, S.NewA, S.X, S.Ops, S.F, S.G, S.H, S.I, F, G, H, I, Step;
    hide S.T, S.Index, S.Shift;
    S.ConstantsTo32();
    S.PlacesTo32();
    var a, b, c, d := r.a, r.b, r.c, r.d;
    a := Step(G(b, c, d), a, b, S.X(block, 13), 0xa9e3e905, 5);
    d := Step(G(a, b, c), d, a, S.X(block, 2), 0xfcefa3f8, 9);
    c := Step(G(d, a, b), c, d, S.X(block, 7), 0x676f02d9, 14);
    b := Step(G(c, d, a), b, c, S.X(block, 12), 0x8d2a4c8a, 20);
    S.Four(start, block, 28);
    return S.Regs(a, b, c, d);
  }

  method Round3A(block: seq<byte>, r: S.Regs, ghost start: S.Regs) returns (s: S.Regs)
    requires |block| == 64 && r == S.Ops(start, block, 32)
    ensures s == S.Ops(start, block, 36)
  {
    hide Add, Cycle, FromLE32, S.Rotate, S.NewA, S.X, S.Ops, S.F, S.G, S.H, S.I, F, G, H, I, Step;
    hide S.T, S.Index, S.Shift;
    S.ConstantsTo48();
    S.PlacesTo48();
    var a, b, c, d := r.a, r.b, r.c, r.d;
    a := Step(H(b, c, d), a, b, S.X(block, 5), 0xfffa3942, 4);
    d := Step(H(a, b, c), d, a, S.X(block, 8), 0x8771f681, 11);
    c := Step(H(d, a, b), c, d, S.X(block, 11), 0x6d9d6122, 16);
    b := Step(H(c, d, a), b, c, S.X(block, 14), 0xfde5380c, 23);
    S.Four(start, block, 32);
    return S.Regs(a, b, c, d);
  }

  method Round3B(block: seq<byte>, r: S.Regs, ghost start: S.Regs) returns (s: S.Regs)
    requires |block| == 64 && r == S.Ops(start, block, 36)
    ensures s == S.Ops(start, block, 40)
  {
    hide Add, Cycle, FromLE32, S.Rotate, S.NewA, S.X, S.Ops, S.F, S.G, S.H, S.I, F, G, H, I, Step;
    hide S.T, S.Index, S.Shift;
    S.ConstantsTo48();
    S.PlacesTo48();
    var a, b, c, d := r.a, r.b, r.c, r.d;
    a := Step(H(b, c, d), a, b, S.X(block, 1), 0xa4beea44, 4);
    d := Step(H(a, b, c), d, a, S.X(block, 4), 0x4bdecfa9, 11);
    c := Step(H(d, a, b), c, d, S.X(block, 7), 0xf6bb4b60, 16);
    b := Step(H(c, d, a), b, c, S.X(block, 10), 0xbebfbc70, 23);
    S.Four(start, block, 36);
    return S.Regs(a, b, c, d);
  }

  method Round3C(block: seq<byte>, r: S.Regs, ghost start: S.Regs) returns (s: S.Regs)
    requires |block| == 64 && r == S.Ops(start, block, 40)
    ensures s == S.Ops(start, block, 44)
  {
    hide Add, Cycle, FromLE32, S.Rotate, S.NewA, S.X, S.Ops, S.F, S.G, S.H, S.I, F, G, H, I, Step;
    hide S.T, S.Index, S.Shift;
    S.ConstantsTo48();
    S.PlacesTo48();
    var a, b, c, d := r.a, r.b, r.c, r.d;
    a := Step(H(b, c, d), a, b, S.X(block, 13), 0x289b7ec6, 4);
    d := Step(H(a, b, c), d, a, S.X(block, 0), 0xeaa127fa, 11);
    c := Step(H(d, a, b), c, d, S.X(block, 3), 0xd4ef3085, 16);
    b := Step(H(c, d, a), b, c, S.X(block, 6), 0x04881d05, 23);
    S.Four(start, block, 40);
    return S.Regs(a, b, c, d);
  }

  method Round3D(block: seq<byte>, r: S.Regs, ghost start: S.Regs) returns (s: S.Regs)
    requires |block| == 64 && r == S.Ops(start, block, 44)
    ensures s == S.Ops(start, block, 48)
  {
    hide Add, Cycle, FromLE32, S.Rotate, S.NewA, S.X, S.Ops, S.F, S.G, S.H, S.I, F, G, H, I, Step;
    hide S.T, S.Index, S.Shift;
    S.ConstantsTo48();
    S.PlacesTo48();
    var a, b, c, d := r.a, r.b, r.c, r.d;
    a := Step(H(b, c, d), a, b, S.X(block, 9), 0xd9d4d039, 4);
    d := Step(H(a, b, c), d, a, S.X(block, 12), 0xe6db99e5, 11);
    c := Step(H(d, a, b), c, d, S.X(block, 15), 0x1fa27cf8, 16);
    b := Step(H(c, d, a), b, c, S.X(block, 2), 0xc4ac5665, 23);
    S.Four(start, block, 44);
    return S.Regs(a, b, c, d);
  }

  method Round4A(block: seq<byte>, r: S.Regs, ghost start: S.Regs) returns (s: S.Regs)
    requires |block| == 64 && r == S.Ops(start, block, 48)
    ensures s == S.Ops(start, block, 52)
  {
    hide Add, Cycle, FromLE32, S.Rotate, S.NewA, S.X, S.Ops, S.F, S.G, S.H, S.I, F, G, H, I, Step;
    hide S.T, S.Index, S.Shift;
    S.ConstantsTo64();
    S.PlacesTo64();
    var a, b, c, d := r.a, r.b, r.c, r.d;
    a := Step(I(b, c, d), a, b, S.X(block, 0), 0xf4292244, 6);
    d := Step(I(a, b, c), d, a, S.X(block, 7), 0x432aff97, 10);
    c := Step(I(d, a, b), c, d, S.X(block, 14), 0xab9423a7, 15);
    b := Step(I(c, d, a), b, c, S.X(block, 5), 0xfc93a039, 21);
    S.Four(start, block, 48);
    return S.Regs(a, b, c, d);
  }

  method Round4B(block: seq<byte>, r: S.Regs, ghost start: S.Regs) returns (s: S.Regs)
    requires |block| == 64 && r == S.Ops(start, block, 52)
    ensures s == S.Ops(start, block, 56)
  {
    hide Add, Cycle, FromLE32, S.Rotate, S.NewA, S.X, S.Ops, S.F, S.G, S.H, S.I, F, G, H, I, Step;
    hide S.T, S.Index, S.Shift;
    S.ConstantsTo64();
    S.PlacesTo64();
    var a, b, c, d := r.a, r.b, r.c, r.d;
    a := Step(I(b, c, d), a, b, S.X(block, 12), 0x655b59c3, 6);
    d := Step(I(a, b, c), d, a, S.X(block, 3), 0x8f0ccc92, 10);
    c := Step(I(d, a, b), c, d, S.X(block, 10), 0xffeff47d, 15);
    b := Step(I(c, d, a), b, c, S.X(block, 1), 0x85845dd1, 21);
    S.Four(start, block, 52);
    return S.Regs(a, b, c, d);
  }

  method Round4C(block: seq<byte>, r: S.Regs, ghost start: S.Regs) returns (s: S.Regs)
    requires |block| == 64 && r == S.Ops(start, block, 56)
    ensures s == S.Ops(start, block, 60)
  {
    hide Add, Cycle, FromLE32, S.Rotate, S.NewA, S.X, S.Ops, S.F, S.G, S.H, S.I, F, G, H, I, Step;
    hide S.T, S.Index, S.Shift;
    S.ConstantsTo64();
    S.PlacesTo64();
    var a, b, c, d := r.a, r.b, r.c, r.d;
    a := Step(I(b, c, d), a, b, S.X(block, 8), 0x6fa87e4f, 6);
    d := Step(I(a, b, c), d, a, S.X(block, 15), 0xfe2ce6e0, 10);
    c := Step(I(d, a, b), c, d, S.X(block, 6), 0xa3014314, 15);
    b := Step(I(c, d, a), b, c, S.X(block, 13), 0x4e0811a1, 21);
    S.Four(start, block, 56);
    return S.Regs(a, b, c, d);
  }

  method Round4D(block: seq<byte>, r: S.Regs, ghost start: S.Regs) returns (s: S.Regs)
    requires |block| == 64 && r == S.Ops(start, block, 60)
    ensures s == S.Ops(start, block, 64)
  {
    hide Add, Cycle, FromLE32, S.Rotate, S.NewA, S.X, S.Ops, S.F, S.G, S.H, S.I, F, G, H, I, Step;
    hide S.T, S.Index, S.Shift;
    S.ConstantsTo64();
    S.PlacesTo64();
    var a, b, c, d := r.a, r.b, r.c, r.d;
    a := Step(I(b, c, d), a, b, S.X(block, 4), 0xf7537e82, 6);
    d := Step(I(a, b, c), d, a, S.X(block, 11), 0xbd3af235, 10);
    c := Step(I(d, a, b), c, d, S.X(block, 2), 0x2ad7d2bb, 15);
    b := Step(I(c, d, a), b, c, S.X(block, 9), 0xeb86d391, 21);
    S.Four(start, block, 60);
    return S.Regs(a, b, c, d);
  }

  method AllRounds(block: seq<byte>, r: S.Regs) returns (s: S.Regs)
    requires |block| == 64
    ensures s == S.Ops(r, block, 64)
  {
    assert r == S.Ops(r, block, 0);
    hide S.Ops;
    s := Round1A(block, r, r);
    s := Round1B(block, s, r);
    s := Round1C(block, s, r);
    s := Round1D(block, s, r);
    s := Round2A(block, s, r);
    s := Round2B(block, s, r);
    s := Round2C(block, s, r);
    s := Round2D(block, s, r);
    s := Round3A(block, s, r);
    s := Round3B(block, s, r);
    s := Round3C(block, s, r);
    s := Round3D(block, s, r);
    s := Round4A(block, s, r);
    s := Round4B(block, s, r);
    s := Round4C(block, s, r);
    s := Round4D(block, s, r);
  }

  /** The loop of `ngx_md5_body`; `size` counts down to zero. */
  method Body(start: S.Regs, data: seq<byte>) returns (r: S.Regs)
    requires |data| > 0 && |data| % 64 == 0
    ensures r == S.Blocks(start, data)
  {
    hide S.Ops, Add;
    r := start;
    var p, size := 0, |data|;
    while true
      invariant p + size == |data| && p % 64 == 0 && size > 0
      invariant r == S.Blocks(start, data[..p])
      decreases size
    {
      var saved := r;
      r := AllRounds(data[p..p + 64], r);
      r := S.Regs(Add(r.a, saved.a), Add(r.b, saved.b), Add(r.c, saved.c), Add(r.d, saved.d));
      assert data[..p + 64][..p] == data[..p] && data[..p + 64][p..] == data[p..p + 64];
      p := p + 64;
      size := size - 64;
      if size == 0 {
        break;
      }
    }
    assert data[..p] == data;
  }

  lemma Advance(msg: seq<byte>, done: nat, data: seq<byte>)
    requires done % 64 == 0 && |data| % 64 == 0
    requires done + |data| <= |msg| && data == msg[done..done + |data|]
    ensures (done + |data|) % 64 == 0
    ensures S.Blocks(S.Blocks(S.INIT, msg[..done]), data) == S.Blocks(S.INIT, msg[..done + |data|])
  {
    hide S.Blocks;
    S.BlocksConcat(S.INIT, msg[..done], data);
    assert msg[..done] + data == msg[..done + |data|];
  }

  /** The rest of the padded message, as the code lays it out: the bytes left over, and behind
      them the padding, in one block or in two. */
  function Tail(left: seq<byte>, len: seq<byte>): (t: seq<byte>)
    requires |left| < 64 && |len| == 8
    ensures |t| % 64 == 0
  {
    var used := |left| + 1;
    if 64 - used < 8 then (left + [0x80] + Zeros(64 - used)) + (Zeros(56) + len)
    else left + [0x80] + Zeros(56 - used) + len
  }

  lemma TailIsTheStandards(n: nat, left: seq<byte>, len: seq<byte>)
    requires |left| == n % 64 && |len| == 8
    ensures Tail(left, len) == left + Filler(n) + len
  {
    hide Zeros;
    var used := |left| + 1;
    if 64 - used < 8 {
      assert ZeroCount(n) == 64 - used + 56;
      assert Zeros(ZeroCount(n)) == Zeros(64 - used) + Zeros(56);
    } else {
      assert ZeroCount(n) == 56 - used;
    }
  }

  lemma PaddingIsTheStandards(m: seq<byte>, done: nat)
    requires done == |m| - |m| % 64
    ensures S.Pad(m) == m[..done] + Tail(m[done..], LE64(ToBits(U64(|m|))))
  {
    hide LE64, U64, ToBits, Filler, Tail;
    U64Times8(|m|);
    var len := LE64(U64(8 * |m|));
    TailIsTheStandards(|m|, m[done..], len);
    SplitFront(m, done, Filler(|m|), len);
  }

  /** `ngx_md5_t`; `msg` is the concatenation of the pieces so far. */
  class Ctx {
    var bytes: bv64
    var regs: S.Regs
    const buffer: array<byte>
    ghost var msg: seq<byte>

    /** `done` bytes of the message have gone into the registers. */
    ghost predicate Digested(done: nat)
      reads this`regs, this`msg
    {
      && done <= |msg| && done % 64 == 0
      && regs == S.Blocks(S.INIT, msg[..done])
    }

    /** The message is what is digested, then the buffer, then `rest`. */
    ghost predicate Stage(used: nat, rest: seq<byte>)
      reads this`regs, this`msg, buffer
    {
      && buffer.Length == 64 && used < 64 && used + |rest| <= |msg|
      && var done := |msg| - |rest| - used;
      && Digested(done) && buffer[..used] == msg[done..done + used] && rest == msg[done + used..]
    }

    ghost predicate Valid()
      reads this, buffer
    {
      bytes == U64(|msg|) && Stage(|msg| % 64, [])
    }

    lemma LeftOver(used: nat)
      requires Stage(used, [])
      ensures used == |msg| % 64
    {
      hide S.Blocks;
    }

    /** `ngx_md5_init` */
    constructor ()
      ensures Valid() && msg == [] && fresh(buffer)
    {
      regs := S.Regs(0x67452301, 0xefcdab89, 0x98badcfe, 0x10325476);
      bytes, buffer, msg := 0, new byte[64], [];
    }

    /** `ngx_md5_body` on the bytes of the message behind the digested ones. */
    method Digest(data: seq<byte>, ghost done: nat)
      requires Digested(done) && |data| > 0 && |data| % 64 == 0
      requires done + |data| <= |msg| && data == msg[done..done + |data|]
      modifies this`regs
      ensures Digested(done + |data|)
    {
      hide S.Blocks;
      Advance(msg, done, data);
      regs := Body(regs, data);
    }

    ghost method Accept(used: nat, data: seq<byte>)
      requires Stage(used, [])
      modifies this`msg
      ensures msg == old(msg) + data && Stage(used, data)
    {
      hide S.Blocks;
      ghost var done := |msg| - used;
      assert (msg + data)[..done] == msg[..done];
      assert (msg + data)[done..done + used] == msg[done..];
      msg := msg + data;
    }

    /** `ngx_md5_update`, first part: keep an incomplete block in the buffer ... */
    method Keep(data: seq<byte>, used: nat)
      requires Stage(used, data) && used + |data| < 64
      modifies buffer
      ensures Stage(used + |data|, [])
    {
      hide Ctx.Digested;
      ghost var done := |msg| - |data| - used;
      MemCopy(buffer, used, data);
      assert buffer[..used + |data|] == msg[done..done + used] + data;
    }

    /** ... or complete it. */
    method TopUp(data: seq<byte>, used: nat) returns (rest: seq<byte>)
      requires Stage(used, data) && used + |data| >= 64
      modifies this`regs, buffer
      ensures Stage(0, rest)
    {
      hide Ctx.Digested;
      ghost var done := |msg| - |data| - used;
      var free := 64 - used;
      MemCopy(buffer, used, data[..free]);
      assert buffer[..] == msg[done..done + used] + data[..free];
      assert buffer[..] == msg[done..done + 64];
      Digest(buffer[..], done);
      rest := data[free..];
    }

    /** `ngx_md5_update`, second part: complete blocks in place ... */
    method Complete(data: seq<byte>) returns (rest: seq<byte>)
      requires Stage(0, data) && |data| >= 64
      modifies this`regs
      ensures Stage(0, rest) && |rest| < 64
    {
      hide Ctx.Digested;
      var n := |data| - |data| % 64;
      Digest(data[..n], |msg| - |data|);
      rest := data[n..];
    }

    /** ... and the buffer keeps what is left. */
    method Bulk(data: seq<byte>) returns (used: nat)
      requires Stage(0, data)
      modifies this`regs, buffer
      ensures Stage(used, [])
    {
      hide Ctx.Stage;
      var rest := data;
      if |rest| >= 64 {
        rest := Complete(rest);
      }
      Keep(rest, 0);
      used := |rest|;
    }

    /** `ngx_md5_update` behind the count: keep an incomplete block, or go on with complete ones. */
    method Absorb(data: seq<byte>, used: nat)
      requires Stage(used, data)
      modifies this`regs, buffer
      ensures Stage(|msg| % 64, [])
    {
      hide Ctx.Stage;
      var rest := data;
      var left := used;
      if used != 0 && |data| < 64 - used {
        Keep(data, used);
        left := used + |data|;
      } else {
        if used != 0 {
          rest := TopUp(rest, used);
        }
        left := Bulk(rest);
      }
      LeftOver(left);
    }

    /** `ngx_md5_update` */
    method Update(data: seq<byte>)
      requires Valid()
      modifies this`bytes, this`regs, this`msg, buffer
      ensures Valid() && msg == old(msg) + data
    {
      hide U64, Plus, Low6, Ctx.Stage;
      Low6IsModulo(|msg|);
      U64Add(|msg|, |data|);
      var used := Low6(bytes);
      Accept(used, data);
      bytes := Plus(bytes, U64(|data|));
      Absorb(data, used);
    }

    /** `ngx_md5_final`, first part: the padding, and a block digested if the length does not fit. */
    method PutPadding(start: nat, ghost len: seq<byte>)
      requires buffer.Length == 64 && start < 64 && |len| == 8
      modifies this`regs, buffer
      ensures S.Blocks(regs, buffer[..56] + len)
           == S.Blocks(old(regs), Tail(old(buffer[..start]), len))
    {
      hide S.Blocks, Zeros;
      ghost var left := buffer[..start];
      var used := start;
      buffer[used] := 0x80;
      used := used + 1;
      assert buffer[..used] == left + [0x80];
      var free := 64 - used;
      if free < 8 {
        MemCopy(buffer, used, Zeros(free));
        assert buffer[..] == left + [0x80] + Zeros(free);
        S.BlocksConcat(regs, buffer[..], Zeros(56) + len);
        regs := Body(regs, buffer[..]);
        used, free := 0, 64;
      }
      MemCopy(buffer, used, Zeros(free - 8));
      assert buffer[..56] == (if used == 0 then [] else left + [0x80]) + Zeros(free - 8);
      assert used == 0 ==> buffer[..56] == Zeros(56);
    }

    /** ... then the length, and the last block. */
    method PutLength(ghost goal: seq<byte>)
      requires buffer.Length == 64 && goal == buffer[..56] + LE64(ToBits(bytes))
      modifies this`bytes, this`regs, buffer
      ensures regs == S.Blocks(old(regs), goal)
    {
      hide S.Blocks, LE64, ToBits;
      bytes := ToBits(bytes);
      MemCopy(buffer, 56, LE64(bytes));
      assert buffer[..] == goal;
      regs := Body(regs, buffer[..]);
    }

    method Clear()
      requires buffer.Length == 64
      modifies this`bytes, this`regs, buffer
      ensures bytes == 0 && regs == S.Regs(0, 0, 0, 0) && buffer[..] == Zeros(64)
    {
      bytes, regs := 0, S.Regs(0, 0, 0, 0);
      MemCopy(buffer, 0, Zeros(64));
    }

    /** `ngx_md5_final` */
    method Final() returns (result: seq<byte>)
      requires Valid()
      modifies this`bytes, this`regs, buffer
      ensures result == S.Md5(msg)
      ensures bytes == 0 && regs == S.Regs(0, 0, 0, 0) && buffer[..] == Zeros(64)
    {
      hide S.Blocks, LE32, LE64, ToBits, U64, Low6, Zeros, S.Pad, Tail;
      ghost var done := |msg| - |msg| % 64;
      ghost var len := LE64(ToBits(bytes));
      Low6IsModulo(|msg|);
      S.PadLength(msg);
      PaddingIsTheStandards(msg, done);
      S.BlocksConcat(S.INIT, msg[..done], Tail(msg[done..], len));
      assert buffer[..Low6(bytes)] == msg[done..];
      PutPadding(Low6(bytes), len);
      PutLength(buffer[..56] + len);
      result := LE32(regs.a) + LE32(regs.b) + LE32(regs.c) + LE32(regs.d);
      Clear();
    }
  }

  /** A digest computed piece by piece, whatever the pieces are, is the digest of the whole message. */
  method HashPieces(pieces: seq<seq<byte>>) returns (result: seq<byte>)
    ensures result == S.Md5(Concat(pieces))
  {
    hide Ctx.Valid, S.Md5;
    var ctx := new Ctx();
    for i := 0 to |pieces|
      invariant ctx.Valid() && ctx.msg == Concat(pieces[..i])
      invariant fresh(ctx) && fresh(ctx.buffer)
    {
      ctx.Update(pieces[i]);
      assert pieces[..i + 1][..i] == pieces[..i];
    }
    assert pieces[..|pieces|] == pieces;
    result := ctx.Final();
  }
}
