/** Machine words: counts modulo 2^64, and their bytes. */
module Words {
  import opened Bytes

  /** Addition and the shift that turns bytes into bits, on unsigned 64-bit numbers. */
  function Plus(x: bv64, y: bv64): bv64 { x + y }

  function ToBits(x: bv64): bv64 { x << 3 }

  /** A count as an unsigned 64-bit number, that is, modulo 2^64. */
  function U64(n: nat): bv64
  {
    if n == 0 then 0 else Plus(U64(n - 1), 1)
  }

  lemma PlusAssoc(x: bv64, y: bv64, z: bv64)
    ensures Plus(Plus(x, y), z) == Plus(x, Plus(y, z))
    ensures Plus(x, 0) == x
  {
  }

  lemma {:induction false} U64Add(a: nat, b: nat)
    ensures U64(a + b) == Plus(U64(a), U64(b))
    decreases b
  {
    hide Plus;
    PlusAssoc(U64(a), U64(if b > 0 then b - 1 else 0), 1);
    if b > 0 {
      U64Add(a, b - 1);
    }
  }

  lemma U64Of8()
    ensures U64(8) == 8
  {
    assert U64(2) == 2 && U64(4) == 4 && U64(6) == 6;
  }

  lemma U64Of24()
    ensures U64(24) == 24
  {
    U64Of8();
    U64Add(8, 8);
    U64Add(16, 8);
  }

  lemma ToBitsStep(x: bv64)
    ensures ToBits(Plus(x, 1)) == Plus(ToBits(x), 8)
  {
  }

  lemma {:induction false} U64Times8(n: nat)
    ensures U64(8 * n) == ToBits(U64(n))
  {
    if n > 0 {
      U64Times8(n - 1);
      U64Add(8 * (n - 1), 8);
      U64Of8();
      ToBitsStep(U64(n - 1));
      hide Plus, ToBits;
    } else {
      assert ToBits(0) == 0;
    }
  }

  function Six(x: bv64): bv6 { (x & 0x3f) as bv6 }

  /** `x & 0x3f` */
  function Low6(x: bv64): (r: nat)
    ensures r < 64
  {
    Six(x) as nat
  }

  lemma SixStep(x: bv64)
    ensures Six(Plus(x, 1)) == Six(x) + 1
  {
  }

  lemma NextOfSix(y: bv6)
    ensures (y + 1) as nat == if y == 63 then 0 else y as nat + 1
  {
  }

  lemma NextModulo(n: nat)
    ensures (n + 1) % 64 == if n % 64 == 63 then 0 else n % 64 + 1
  {
  }

  lemma NextIsModulo(y: bv6, n: nat)
    requires y as nat == n % 64
    ensures (y + 1) as nat == (n + 1) % 64
  {
    NextOfSix(y);
    NextModulo(n);
  }

  lemma {:induction false} Low6IsModulo(n: nat)
    ensures Low6(U64(n)) == n % 64
  {
    if n == 0 {
      assert Six(0) == 0;
    } else {
      hide Six, Plus;
      Low6IsModulo(n - 1);
      SixStep(U64(n - 1));
      NextIsModulo(Six(U64(n - 1)), n - 1);
    }
  }

  /** Addition modulo 2^32. */
  function Add(x: bv32, y: bv32): bv32 { x + y }

  lemma AddAssoc(x: bv32, y: bv32, z: bv32)
    ensures Add(Add(x, y), z) == Add(x, Add(y, z))
    ensures Add(x, 0) == x
  {
  }

  lemma AddCommutes(x: bv32, y: bv32)
    ensures Add(x, y) == Add(y, x)
  {
  }

  function Byte32(x: bv32): byte { (x & 0xff) as byte }

  function Byte64(x: bv64): byte { (x & 0xff) as byte }

  /** A 32-bit word in memory, least significant byte first, and the other way round. */
  function LE32(x: bv32): (s: seq<byte>)
    ensures |s| == 4
  {
    [Byte32(x), Byte32(x >> 8), Byte32(x >> 16), Byte32(x >> 24)]
  }

  function BE32(x: bv32): (s: seq<byte>)
    ensures |s| == 4
  {
    [Byte32(x >> 24), Byte32(x >> 16), Byte32(x >> 8), Byte32(x)]
  }

  function BE64(x: bv64): (s: seq<byte>)
    ensures |s| == 8
  {
    [Byte64(x >> 56), Byte64(x >> 48), Byte64(x >> 40), Byte64(x >> 32),
     Byte64(x >> 24), Byte64(x >> 16), Byte64(x >> 8), Byte64(x)]
  }

  function LE64(x: bv64): (s: seq<byte>)
    ensures |s| == 8
  {
    [Byte64(x), Byte64(x >> 8), Byte64(x >> 16), Byte64(x >> 24),
     Byte64(x >> 32), Byte64(x >> 40), Byte64(x >> 48), Byte64(x >> 56)]
  }

  function FromLE32(s: seq<byte>, i: nat): bv32
    requires i + 4 <= |s|
  {
    (s[i] as bv32) | ((s[i + 1] as bv32) << 8) | ((s[i + 2] as bv32) << 16) | ((s[i + 3] as bv32) << 24)
  }

  function FromBE32(s: seq<byte>, i: nat): bv32
    requires i + 4 <= |s|
  {
    ((s[i] as bv32) << 24) | ((s[i + 1] as bv32) << 16) | ((s[i + 2] as bv32) << 8) | (s[i + 3] as bv32)
  }

  /** The `SWAP` macro. */
  function Swap(n: bv32): bv32
  {
    (n << 24) | ((n & 0xff00) << 8) | ((n >> 8) & 0xff00) | (n >> 24)
  }

  lemma SwapStores(x: bv32)
    ensures LE32(Swap(x)) == BE32(x)
  {
  }

  lemma SwapBytes(a: byte, b: byte, c: byte, d: byte)
    ensures Swap((a as bv32) | ((b as bv32) << 8) | ((c as bv32) << 16) | ((d as bv32) << 24))
         == ((a as bv32) << 24) | ((b as bv32) << 16) | ((c as bv32) << 8) | (d as bv32)
  {
  }

  lemma SwapLoads(s: seq<byte>, i: nat)
    requires i + 4 <= |s|
    ensures Swap(FromLE32(s, i)) == FromBE32(s, i)
  {
    SwapBytes(s[i], s[i + 1], s[i + 2], s[i + 3]);
  }

  function Low32(x: bv64): bv32 { (x & 0xffff_ffff) as bv32 }

  function High32(x: bv64): bv32 { (x >> 32) as bv32 }

  /** Eight times a 64-bit count, computed on its halves. */
  function BitsLow(t: bv64): bv32 { Low32(t) << 3 }

  function BitsHigh(t: bv64): bv32 { (High32(t) << 3) | (Low32(t) >> 29) }

  lemma HalvesOf(x: bv64)
    ensures BE32(High32(x)) + BE32(Low32(x)) == BE64(x)
  {
  }

  lemma BytesOfHalves(x: bv64)
    ensures ((High32(x) as bv64) << 32) | (Low32(x) as bv64) == x
    ensures Byte32(Low32(x)) == Byte64(x) && Byte32(Low32(x) >> 8) == Byte64(x >> 8)
    ensures Byte32(Low32(x) >> 16) == Byte64(x >> 16) && Byte32(Low32(x) >> 24) == Byte64(x >> 24)
    ensures Byte32(High32(x)) == Byte64(x >> 32) && Byte32(High32(x) >> 8) == Byte64(x >> 40)
    ensures Byte32(High32(x) >> 16) == Byte64(x >> 48) && Byte32(High32(x) >> 24) == Byte64(x >> 56)
  {
  }

  /** The halves make up the number, and its bytes. */
  lemma HalvesInMemory(x: bv64)
    ensures ((High32(x) as bv64) << 32) | (Low32(x) as bv64) == x
    ensures LE32(Low32(x)) + LE32(High32(x)) == LE64(x)
  {
    BytesOfHalves(x);
    hide Byte32, Byte64, Low32, High32;
  }

  /** Words are read back as they have been stored. */
  lemma WordsRoundTrip(x: bv32)
    ensures FromBE32(BE32(x), 0) == x && FromLE32(LE32(x), 0) == x
  {
  }

  lemma TimesEightOnHalves(t: bv64)
    ensures BE32(BitsHigh(t)) + BE32(BitsLow(t)) == BE64(ToBits(t))
  {
    assert (High32(t) << 3) | (Low32(t) >> 29) == High32(t << 3);
    assert Low32(t) << 3 == Low32(t << 3);
    HalvesOf(t << 3);
  }
}
