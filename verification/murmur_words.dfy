/** Words of MurmurHash3: little-endian reads, wrapping arithmetic, final mixers, and the 64-bit product
that vector code assembles from 32-bit partial products. Words are numbers; bit operations go through bit
vectors. */
module MurmurWords {
  import opened Bytes
  import opened Division

  const HALF: nat := 0x1_0000_0000
  const WHOLE: nat := 0x1_0000_0000_0000_0000

  type Word32 = x: nat | x < 0x1_0000_0000
  type Word64 = x: nat | x < 0x1_0000_0000_0000_0000

  // ----- little-endian reads -----

  function Or(x: bv64, y: bv64): bv64 { x | y }
  function Shl8(x: bv64): bv64 { x << 8 }
  function Shl16(x: bv64): bv64 { x << 16 }
  function Shl32(x: bv64): bv64 { x << 32 }
  function Shl48(x: bv64): bv64 { x << 48 }
  function Widen(b: byte): bv64 { b as bv64 }

  function ReadU16(s: seq<byte>, at: nat): bv64
    requires at + 2 <= |s|
  {
    Or(Widen(s[at]), Shl8(Widen(s[at + 1])))
  }

  function ReadU32(s: seq<byte>, at: nat): bv64
    requires at + 4 <= |s|
  {
    Or(ReadU16(s, at), Shl16(ReadU16(s, at + 2)))
  }

  function ReadU64(s: seq<byte>, at: nat): bv64
    requires at + 8 <= |s|
  {
    Or(ReadU32(s, at), Shl32(ReadU32(s, at + 4)))
  }

  /** Up to eight bytes, assembled from the widest loads that stay inside them. */
  function ReadPartialU64(s: seq<byte>): bv64
    requires |s| <= 8
  {
    if |s| == 0 then 0
    else if |s| == 1 then Widen(s[0])
    else if |s| == 2 then ReadU16(s, 0)
    else if |s| == 3 then Or(ReadU16(s, 0), Shl16(Widen(s[2])))
    else if |s| == 4 then ReadU32(s, 0)
    else if |s| == 5 then Or(ReadU32(s, 0), Shl32(Widen(s[4])))
    else if |s| == 6 then Or(ReadU32(s, 0), Shl32(ReadU16(s, 4)))
    else if |s| == 7 then Or(Or(ReadU32(s, 0), Shl32(ReadU16(s, 4))), Shl48(Widen(s[6])))
    else ReadU64(s, 0)
  }

  /** The reference: each further byte counts 256 times as much. */
  function LittleEndian(s: seq<byte>): bv64
    requires |s| <= 8
  {
    if s == [] then 0 else Or(Widen(s[0]), Shl8(LittleEndian(s[1..])))
  }

  lemma Shl8Or(x: bv64, y: bv64)
    ensures Shl8(Or(x, y)) == Or(Shl8(x), Shl8(y))
  {
  }

  lemma Shl16Or(x: bv64, y: bv64)
    ensures Shl16(Or(x, y)) == Or(Shl16(x), Shl16(y))
  {
  }

  lemma Shl32Or(x: bv64, y: bv64)
    ensures Shl32(Or(x, y)) == Or(Shl32(x), Shl32(y))
  {
  }

  lemma Shl8Twice(x: bv64)
    ensures Shl8(Shl8(x)) == Shl16(x)
  {
  }

  lemma Shl16Twice(x: bv64)
    ensures Shl16(Shl16(x)) == Shl32(x)
  {
  }

  lemma Shl16And32(x: bv64)
    ensures Shl32(Shl16(x)) == Shl48(x)
  {
  }

  lemma ShiftedNothing()
    ensures Shl8(0) == 0 && Shl16(0) == 0 && Shl32(0) == 0
  {
  }

  lemma OrAssociates(x: bv64, y: bv64, z: bv64)
    ensures Or(x, Or(y, z)) == Or(Or(x, y), z)
  {
  }

  lemma OrNothing(x: bv64)
    ensures Or(x, 0) == x
  {
  }

  /** The first two bytes of a number. */
  lemma LittleEndianTwo(s: seq<byte>)
    requires 2 <= |s| <= 8
    ensures LittleEndian(s) == Or(ReadU16(s, 0), Shl16(LittleEndian(s[2..])))
  {
    hide Or, Shl8, Shl16, Shl32, Shl48, Widen, LittleEndian;
    var rest := LittleEndian(s[2..]);
    assert s[1..][1..] == s[2..];
    LittleEndianStep(s);
    LittleEndianStep(s[1..]);
    Shl8Or(Widen(s[1]), Shl8(rest));
    Shl8Twice(rest);
    OrAssociates(Widen(s[0]), Shl8(Widen(s[1])), Shl16(rest));
  }

  lemma LittleEndianStep(s: seq<byte>)
    requires 0 < |s| <= 8
    ensures LittleEndian(s) == Or(Widen(s[0]), Shl8(LittleEndian(s[1..])))
  {
    hide Or, Shl8, Shl16, Shl32, Shl48, Widen;
  }

  lemma LittleEndianNothing()
    ensures LittleEndian([]) == 0
  {
  }

  /** The first four bytes. */
  lemma LittleEndianFour(s: seq<byte>)
    requires 4 <= |s| <= 8
    ensures LittleEndian(s) == Or(ReadU32(s, 0), Shl32(LittleEndian(s[4..])))
  {
    hide Or, Shl8, Shl16, Shl32, Shl48, Widen, LittleEndian;
    var rest := LittleEndian(s[4..]);
    assert s[2..][2..] == s[4..];
    LittleEndianTwo(s);
    LittleEndianTwo(s[2..]);
    assert ReadU16(s[2..], 0) == ReadU16(s, 2);
    Shl16Or(ReadU16(s, 2), Shl16(rest));
    Shl16Twice(rest);
    OrAssociates(ReadU16(s, 0), Shl16(ReadU16(s, 2)), Shl32(rest));
  }

  lemma LittleEndianOne(s: seq<byte>)
    requires |s| == 1
    ensures LittleEndian(s) == Widen(s[0])
  {
    hide Or, Shl8, Shl16, Shl32, Shl48, Widen, LittleEndian;
    LittleEndianStep(s);
    assert s[1..] == [];
    LittleEndianNothing();
    ShiftedNothing();
    OrNothing(Widen(s[0]));
  }

  /** Up to four bytes. */
  lemma LittleEndianShort(s: seq<byte>)
    requires |s| <= 4
    ensures ReadPartialU64(s) == LittleEndian(s)
  {
    hide Or, Shl8, Shl16, Shl32, Shl48, Widen, LittleEndian;
    LittleEndianNothing();
    ShiftedNothing();
    if |s| == 0 {
      assert s == [];
    } else if |s| == 1 {
      LittleEndianOne(s);
    } else if |s| < 4 {
      LittleEndianTwo(s);
      OrNothing(ReadU16(s, 0));
      if |s| == 3 {
        LittleEndianOne(s[2..]);
      } else {
        assert s[2..] == [];
      }
    } else {
      LittleEndianFour(s);
      assert s[4..] == [];
      OrNothing(ReadU32(s, 0));
    }
  }

  /** The widest-load read is the little-endian value, for every length. */
  lemma PartialIsLittleEndian(s: seq<byte>)
    requires |s| <= 8
    ensures ReadPartialU64(s) == LittleEndian(s)
  {
    hide Or, Shl8, Shl16, Shl32, Shl48, Widen, LittleEndian;
    if |s| <= 4 {
      LittleEndianShort(s);
    } else {
      var t := s[4..];
      LittleEndianFour(s);
      LittleEndianShort(t);
      hide ReadU16;
      if |t| == 2 || |t| == 3 {
        SameU16(s, t);
      }
      if |t| == 3 {
        Shl32Or(ReadU16(t, 0), Shl16(Widen(t[2])));
        Shl16And32(Widen(t[2]));
        OrAssociates(ReadU32(s, 0), Shl32(ReadU16(t, 0)), Shl48(Widen(t[2])));
      }
      if |t| == 4 {
        SameU32(s, t);
      }
    }
  }

  lemma SameU16(s: seq<byte>, t: seq<byte>)
    requires |s| >= 6 && t == s[4..]
    ensures ReadU16(t, 0) == ReadU16(s, 4)
  {
    hide Or, Shl8, Shl16, Shl32, Shl48, Widen;
  }

  lemma SameU32(s: seq<byte>, t: seq<byte>)
    requires |s| >= 8 && t == s[4..]
    ensures ReadU32(t, 0) == ReadU32(s, 4)
  {
    hide Or, Shl8, Shl16, Shl32, Shl48, Widen;
  }

  // ----- wrapping arithmetic and bit operations -----

  function Plus(x: Word64, y: Word64): Word64 { (x + y) % WHOLE }
  function Times(x: Word64, y: Word64): Word64 { (x * y) % WHOLE }
  function Bits(x: Word64): bv64 { x as bv64 }
  function Number(b: bv64): Word64 { b as nat }

  function Xor(x: Word64, y: Word64): Word64 { Number(Bits(x) ^ Bits(y)) }
  function Shift33(x: Word64): Word64 { Number(Bits(x) >> 33) }
  function Rotate27(x: Word64): Word64 { Number(Bits(x).RotateLeft(27)) }
  function Rotate31(x: Word64): Word64 { Number(Bits(x).RotateLeft(31)) }
  function Rotate33(x: Word64): Word64 { Number(Bits(x).RotateLeft(33)) }

  function Plus32(x: Word32, y: Word32): Word32 { (x + y) % HALF }
  function Times32(x: Word32, y: Word32): Word32 { (x * y) % HALF }
  function Bits32(x: Word32): bv32 { x as bv32 }
  function Number32(b: bv32): Word32 { b as nat }

  function Xor32(x: Word32, y: Word32): Word32 { Number32(Bits32(x) ^ Bits32(y)) }
  function Shift13(x: Word32): Word32 { Number32(Bits32(x) >> 13) }
  function Shift16(x: Word32): Word32 { Number32(Bits32(x) >> 16) }
  function Rotate13(x: Word32): Word32 { Number32(Bits32(x).RotateLeft(13)) }
  function Rotate15(x: Word32): Word32 { Number32(Bits32(x).RotateLeft(15)) }
  function Rotate17(x: Word32): Word32 { Number32(Bits32(x).RotateLeft(17)) }
  function Rotate19(x: Word32): Word32 { Number32(Bits32(x).RotateLeft(19)) }

  function Fmix32(h: Word32): Word32 {
    var h1 := Times32(Xor32(h, Shift16(h)), 0x85eb_ca6b);
    var h2 := Times32(Xor32(h1, Shift13(h1)), 0xc2b2_ae35);
    Xor32(h2, Shift16(h2))
  }

  function Fmix64(h: Word64): Word64 {
    var h1 := Times(Xor(h, Shift33(h)), 0xff51_afd7_ed55_8ccd);
    var h2 := Times(Xor(h1, Shift33(h1)), 0xc4ce_b9fe_1a85_ec53);
    Xor(h2, Shift33(h2))
  }

  // Vector rotations: two shifts and an or.

  function ShiftRotate31(x: Word64): Word64 { Number((Bits(x) << 31) | (Bits(x) >> 33)) }
  function ShiftRotate33(x: Word64): Word64 { Number((Bits(x) << 33) | (Bits(x) >> 31)) }

  lemma ShiftRotates31(b: bv64)
    ensures (b << 31) | (b >> 33) == b.RotateLeft(31)
  {
  }

  lemma ShiftRotates33(b: bv64)
    ensures (b << 33) | (b >> 31) == b.RotateLeft(33)
  {
  }

  lemma ShiftsRotate(x: Word64)
    ensures ShiftRotate31(x) == Rotate31(x) && ShiftRotate33(x) == Rotate33(x)
  {
    hide Bits, Number;
    ShiftRotates31(Bits(x));
    ShiftRotates33(Bits(x));
  }

  /** The rotations of the 32-bit variants, by lane. */
  function LaneRotate32(lane: nat, x: Word32): Word32
    requires lane < 4
  {
    var b := Bits32(x);
    Number32(if lane == 0 then b.RotateLeft(15) else if lane == 1 then b.RotateLeft(16)
             else if lane == 2 then b.RotateLeft(17) else b.RotateLeft(18))
  }

  function LaneShiftRotate32(lane: nat, x: Word32): Word32
    requires lane < 4
  {
    var b := Bits32(x);
    Number32(if lane == 0 then (b << 15) | (b >> 17) else if lane == 1 then (b << 16) | (b >> 16)
             else if lane == 2 then (b << 17) | (b >> 15) else (b << 18) | (b >> 14))
  }

  lemma ShiftRotates15(b: bv32)
    ensures (b << 15) | (b >> 17) == b.RotateLeft(15)
  {
  }

  lemma ShiftRotates16(b: bv32)
    ensures (b << 16) | (b >> 16) == b.RotateLeft(16)
  {
  }

  lemma ShiftRotates17(b: bv32)
    ensures (b << 17) | (b >> 15) == b.RotateLeft(17)
  {
  }

  lemma ShiftRotates18(b: bv32)
    ensures (b << 18) | (b >> 14) == b.RotateLeft(18)
  {
  }

  lemma LaneShiftsRotate32(lane: nat, x: Word32)
    requires lane < 4
    ensures LaneShiftRotate32(lane, x) == LaneRotate32(lane, x)
  {
    hide Bits32, Number32;
    var b := Bits32(x);
    ShiftRotates15(b);
    ShiftRotates16(b);
    ShiftRotates17(b);
    ShiftRotates18(b);
  }

  // ----- products of 64-bit lanes -----

  function Low(x: Word64): Word64 { x % HALF }
  function High(x: Word64): Word64 { x / HALF }

  /** A lane shifted left by 32 bits. */
  function Up(x: Word64): Word64 { (x * HALF) % WHOLE }

  /** A lane of the 32-bit multiply: the full product of the low halves. */
  function MulEpu32(a: Word64, b: Word64): Word64 {
    HalvesFit(Low(a), Low(b));
    Low(a) * Low(b)
  }

  lemma HalvesFit(x: nat, y: nat)
    requires x < HALF && y < HALF
    ensures x * y < WHOLE
  {
    MulAtMost(x, HALF - 1, y);
  }

  /** The product assembled from partial products; the highest one falls out of the lane. */
  function MulloEpi64(a: Word64, b: Word64): Word64 {
    Plus(MulEpu32(a, b), Up(Plus(MulEpu32(High(a), b), MulEpu32(a, High(b)))))
  }

  lemma ModSame(x: nat, q: nat, m: nat)
    requires m > 0
    ensures (x + q * m) % m == x % m
  {
    assert x == x / m * m + x % m;
    assert x + q * m == (x / m + q) * m + x % m;
    QuotientUnique(x + q * m, m, x / m + q, x % m);
  }

  /** Schoolbook multiplication of two halves each. */
  lemma Schoolbook(ah: nat, al: nat, bh: nat, bl: nat)
    ensures (ah * HALF + al) * (bh * HALF + bl) == (al * bl + (ah * bl + al * bh) * HALF) + (ah * bh) * WHOLE
  {
    assert (ah * HALF + al) * (bh * HALF + bl) == (ah * HALF) * (bh * HALF + bl) + al * (bh * HALF + bl);
    assert (ah * HALF) * (bh * HALF + bl) == (ah * bh) * WHOLE + (ah * bl) * HALF;
    assert al * (bh * HALF + bl) == (al * bh) * HALF + al * bl;
  }

  /** Scaling a remainder by 2^32. */
  lemma UpOfMod(x: nat)
    ensures ((x % WHOLE) * HALF) % WHOLE == (x * HALF) % WHOLE
  {
    var q := x / WHOLE;
    assert x == x % WHOLE + q * WHOLE;
    assert x * HALF == (x % WHOLE) * HALF + (q * HALF) * WHOLE;
    ModSame((x % WHOLE) * HALF, q * HALF, WHOLE);
  }

  lemma PlusOfMod(x: nat, y: nat)
    ensures (x + y % WHOLE) % WHOLE == (x + y) % WHOLE
  {
  }

  lemma HighLow(a: Word64)
    ensures a == High(a) * HALF + Low(a) && Low(High(a)) == High(a)
  {
  }

  lemma MulloParts(a: Word64, b: Word64, low: nat, cross: nat)
    requires low == Low(a) * Low(b) && cross == High(a) * Low(b) + Low(a) * High(b)
    ensures MulloEpi64(a, b) == (low + ((cross % WHOLE) * HALF) % WHOLE) % WHOLE
  {
    HighLow(a);
    HighLow(b);
    hide Low, High;
  }

  lemma ProductParts(a: nat, b: nat, ah: nat, al: nat, bh: nat, bl: nat)
    requires a == ah * HALF + al && b == bh * HALF + bl
    ensures a * b == al * bl + (ah * bl + al * bh) * HALF + (ah * bh) * WHOLE
  {
    Schoolbook(ah, al, bh, bl);
  }

  /** The partial-product multiply is multiplication modulo 2^64. */
  lemma MulloIsProduct(a: Word64, b: Word64)
    ensures MulloEpi64(a, b) == Times(a, b)
  {
    HighLow(a);
    HighLow(b);
    hide Low, High, MulloEpi64;
    var ah: nat, al: nat, bh: nat, bl: nat := High(a), Low(a), High(b), Low(b);
    var low: nat, cross: nat, high: nat := al * bl, ah * bl + al * bh, ah * bh;
    MulloParts(a, b, low, cross);
    ProductParts(a, b, ah, al, bh, bl);
    Assembled(low, cross, high);
  }

  lemma Assembled(low: nat, cross: nat, high: nat)
    ensures (low + ((cross % WHOLE) * HALF) % WHOLE) % WHOLE == (low + cross * HALF + high * WHOLE) % WHOLE
  {
    UpOfMod(cross);
    PlusOfMod(low, cross * HALF);
    ModSame(low + cross * HALF, high, WHOLE);
  }

  // ----- 32-bit words -----

  function Or32(x: bv32, y: bv32): bv32 { x | y }

  /** A byte at place `k` of a 32-bit word. */
  function Byte32(b: byte, k: nat): bv32
    requires k < 4
  {
    var w := b as bv32;
    if k == 0 then w else if k == 1 then w << 8 else if k == 2 then w << 16 else w << 24
  }

  /** The bytes of word `i` among the first `n` bytes of `s`; missing ones are zero. */
  function PartialWord(s: seq<byte>, n: nat, i: nat): bv32
    requires n <= |s|
    decreases n
  {
    if n <= 4 * i then 0
    else if n > 4 * i + 4 then PartialWord(s, 4 * i + 4, i)
    else Or32(PartialWord(s, n - 1, i), Byte32(s[n - 1], n - 1 - 4 * i))
  }

  /** A whole little-endian word. */
  function ReadWord32(s: seq<byte>, at: nat): Word32
    requires at + 4 <= |s|
  {
    Number32(Or32(Or32(Or32(Byte32(s[at], 0), Byte32(s[at + 1], 1)), Byte32(s[at + 2], 2)), Byte32(s[at + 3], 3)))
  }

  lemma PartialWordStep(s: seq<byte>, n: nat, i: nat)
    requires n <= |s|
    ensures n <= 4 * i ==> PartialWord(s, n, i) == 0
    ensures n > 4 * i + 4 ==> PartialWord(s, n, i) == PartialWord(s, 4 * i + 4, i)
    ensures 4 * i < n <= 4 * i + 4 ==>
              PartialWord(s, n, i) == Or32(PartialWord(s, n - 1, i), Byte32(s[n - 1], n - 1 - 4 * i))
  {
    hide Or32, Byte32;
  }

  lemma ReadWord32InSlice(s: seq<byte>, at: nat, n: nat, k: nat)
    requires at + n <= |s| && k + 4 <= n
    ensures ReadWord32(s[at..at + n], k) == ReadWord32(s, at + k)
  {
    hide Or32, Byte32, Number32;
    var t := s[at..at + n];
    forall i | k <= i < k + 4 ensures t[i] == s[at + i] {
    }
  }

  /** Adding wrapped lengths wraps the sum. */
  lemma LengthWraps32(m: nat, n: nat)
    ensures Plus32(m % HALF, n % HALF) == (m + n) % HALF
  {
  }

  lemma LengthWraps64(m: nat, n: nat)
    ensures Plus(m % WHOLE, n % WHOLE) == (m + n) % WHOLE
  {
  }
}
