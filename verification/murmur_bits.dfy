/** How the operations of MurmurHash3 on words are undone: exclusive or by itself, rotations by rotations back,
addends and odd factors by their inverses. Also how single operations on literals come out. Operations on bit vectors
have names here, so that proofs about numbers need not look into them. */
module MurmurBits {
  import opened Division
  import opened MurmurWords

  // ----- 64-bit words are bit vectors -----

  function XorBits(a: bv64, b: bv64): bv64 { a ^ b }
  function Down33(a: bv64): bv64 { a >> 33 }
  function Left27(a: bv64): bv64 { a.RotateLeft(27) }
  function Left31(a: bv64): bv64 { a.RotateLeft(31) }
  function Left33(a: bv64): bv64 { a.RotateLeft(33) }
  function Right27(a: bv64): bv64 { a.RotateRight(27) }
  function Right31(a: bv64): bv64 { a.RotateRight(31) }
  function Right33(a: bv64): bv64 { a.RotateRight(33) }

  lemma BitsOfNumber(a: bv64)
    ensures Bits(Number(a)) == a
  {
  }

  function Doubled(a: bv64): bv64 { a << 1 }
  function DoubledAndOne(a: bv64): bv64 { (a << 1) | 1 }

  lemma NumberOfDoubled(a: bv64)
    requires Number(a) < 0x8000_0000_0000_0000
    ensures Number(Doubled(a)) == 2 * Number(a)
  {
  }

  lemma NumberOfDoubledAndOne(a: bv64)
    requires Number(a) < 0x8000_0000_0000_0000
    ensures Number(DoubledAndOne(a)) == 2 * Number(a) + 1
  {
  }

  lemma NumberOfZero()
    ensures Number(0) == 0
  {
  }

  /** The bit vector of a number, digit by digit. */
  function Vector(x: nat): (a: bv64)
    requires x < 0x1_0000_0000_0000_0000
    ensures Number(a) == x
  {
    hide Number, Doubled, DoubledAndOne;
    if x == 0 then
      NumberOfZero();
      0
    else if x % 2 == 0 then
      NumberOfDoubled(Vector(x / 2));
      Doubled(Vector(x / 2))
    else
      NumberOfDoubledAndOne(Vector(x / 2));
      DoubledAndOne(Vector(x / 2))
  }

  lemma NumberOfBits(x: Word64)
    ensures Number(Bits(x)) == x
  {
    hide Bits, Number;
    BitsOfNumber(Vector(x));
  }

  lemma XorIs(x: Word64, y: Word64)
    ensures Xor(x, y) == Number(XorBits(Bits(x), Bits(y)))
  {
    hide Bits, Number;
  }

  lemma RotationsAre(x: Word64)
    ensures Rotate27(x) == Number(Left27(Bits(x)))
    ensures Rotate31(x) == Number(Left31(Bits(x)))
    ensures Rotate33(x) == Number(Left33(Bits(x)))
  {
    hide Bits, Number;
  }

  lemma ShiftsAre(x: Word64)
    ensures Shift33(x) == Number(Down33(Bits(x)))
  {
    hide Bits, Number;
  }

  // ----- single 64-bit operations on literals -----

  lemma XorOf(a: bv64, b: bv64, c: bv64)
    requires XorBits(a, b) == c
    ensures Xor(Number(a), Number(b)) == Number(c)
  {
    hide Bits, Number, Xor, XorBits;
    XorIs(Number(a), Number(b));
    BitsOfNumber(a);
    BitsOfNumber(b);
  }

  lemma ShiftsOf(a: bv64)
    ensures Shift33(Number(a)) == Number(Down33(a))
  {
    hide *;
    ShiftsAre(Number(a));
    BitsOfNumber(a);
  }

  lemma RotationsOf(a: bv64)
    ensures Rotate27(Number(a)) == Number(Left27(a))
    ensures Rotate31(Number(a)) == Number(Left31(a))
    ensures Rotate33(Number(a)) == Number(Left33(a))
  {
    hide *;
    RotationsAre(Number(a));
    BitsOfNumber(a);
  }

  // ----- 64-bit operations undone -----

  lemma XorUndone(x: Word64, y: Word64)
    ensures Xor(Xor(x, y), y) == x && Xor(Xor(x, y), x) == y
  {
    hide *;
    var a, b := Bits(x), Bits(y);
    XorBitsUndone(a, b);
    NumberOfBits(x);
    NumberOfBits(y);
    XorOf(a, b, XorBits(a, b));
    XorOf(XorBits(a, b), b, a);
    XorOf(XorBits(a, b), a, b);
  }

  lemma XorBitsUndone(a: bv64, b: bv64)
    ensures XorBits(XorBits(a, b), b) == a && XorBits(XorBits(a, b), a) == b
  {
  }

  function RotateBack27(x: Word64): Word64 { Number(Right27(Bits(x))) }
  function RotateBack31(x: Word64): Word64 { Number(Right31(Bits(x))) }
  function RotateBack33(x: Word64): Word64 { Number(Right33(Bits(x))) }

  lemma RotationsUndone(x: Word64)
    ensures RotateBack27(Rotate27(x)) == x
    ensures RotateBack31(Rotate31(x)) == x
    ensures RotateBack33(Rotate33(x)) == x
  {
    hide Bits, Number, Rotate27, Rotate31, Rotate33, Left27, Left31, Left33, Right27, Right31, Right33;
    var a := Bits(x);
    RotationsAre(x);
    BitsUnturned(a);
    NumberOfBits(x);
    BitsOfNumber(Left27(a));
    BitsOfNumber(Left31(a));
    BitsOfNumber(Left33(a));
  }

  lemma BitsUnturned(a: bv64)
    ensures Right27(Left27(a)) == a
    ensures Right31(Left31(a)) == a
    ensures Right33(Left33(a)) == a
  {
  }

  function Minus(x: Word64, y: Word64): Word64 { (x - y) % WHOLE }

  lemma PlusUndone(x: Word64, y: Word64)
    ensures Minus(Plus(x, y), y) == x && Minus(Plus(x, y), x) == y
  {
  }

  /** A factor is undone by its inverse. */
  lemma FactorUndone(x: Word64, c: Word64, d: Word64)
    requires c * d % WHOLE == 1
    ensures Times(Times(x, c), d) == x
  {
    FactorsBack(x, c, d, WHOLE, x * c / WHOLE, c * d / WHOLE, Times(x, c));
  }

  // ----- 32-bit words are bit vectors -----

  function XorBits32(a: bv32, b: bv32): bv32 { a ^ b }
  function Down13(a: bv32): bv32 { a >> 13 }
  function Down16(a: bv32): bv32 { a >> 16 }
  function Down26(a: bv32): bv32 { a >> 26 }
  function Left32By13(a: bv32): bv32 { a.RotateLeft(13) }
  function Left32By15(a: bv32): bv32 { a.RotateLeft(15) }
  function Left32By16(a: bv32): bv32 { a.RotateLeft(16) }
  function Left32By17(a: bv32): bv32 { a.RotateLeft(17) }
  function Left32By18(a: bv32): bv32 { a.RotateLeft(18) }
  function Left32By19(a: bv32): bv32 { a.RotateLeft(19) }
  function Right32By13(a: bv32): bv32 { a.RotateRight(13) }
  function Right32By15(a: bv32): bv32 { a.RotateRight(15) }
  function Right32By16(a: bv32): bv32 { a.RotateRight(16) }
  function Right32By17(a: bv32): bv32 { a.RotateRight(17) }
  function Right32By18(a: bv32): bv32 { a.RotateRight(18) }
  function Right32By19(a: bv32): bv32 { a.RotateRight(19) }

  lemma BitsOfNumber32(a: bv32)
    ensures Bits32(Number32(a)) == a
  {
  }

  function Doubled32(a: bv32): bv32 { a << 1 }
  function DoubledAndOne32(a: bv32): bv32 { (a << 1) | 1 }

  lemma NumberOfDoubled32(a: bv32)
    requires Number32(a) < 0x8000_0000
    ensures Number32(Doubled32(a)) == 2 * Number32(a)
  {
  }

  lemma NumberOfDoubledAndOne32(a: bv32)
    requires Number32(a) < 0x8000_0000
    ensures Number32(DoubledAndOne32(a)) == 2 * Number32(a) + 1
  {
  }

  lemma NumberOfZero32()
    ensures Number32(0) == 0
  {
  }

  /** The bit vector of a number, digit by digit. */
  function Vector32(x: nat): (a: bv32)
    requires x < 0x1_0000_0000
    ensures Number32(a) == x
  {
    hide Number32, Doubled32, DoubledAndOne32;
    if x == 0 then
      NumberOfZero32();
      0
    else if x % 2 == 0 then
      NumberOfDoubled32(Vector32(x / 2));
      Doubled32(Vector32(x / 2))
    else
      NumberOfDoubledAndOne32(Vector32(x / 2));
      DoubledAndOne32(Vector32(x / 2))
  }

  lemma NumberOfBits32(x: Word32)
    ensures Number32(Bits32(x)) == x
  {
    hide Bits32, Number32;
    BitsOfNumber32(Vector32(x));
  }

  lemma XorIs32(x: Word32, y: Word32)
    ensures Xor32(x, y) == Number32(XorBits32(Bits32(x), Bits32(y)))
  {
    hide Bits32, Number32;
  }

  lemma RotationsAre32(x: Word32)
    ensures Rotate13(x) == Number32(Left32By13(Bits32(x)))
    ensures Rotate15(x) == Number32(Left32By15(Bits32(x)))
    ensures Rotate17(x) == Number32(Left32By17(Bits32(x)))
    ensures Rotate19(x) == Number32(Left32By19(Bits32(x)))
    ensures LaneRotate32(0, x) == Number32(Left32By15(Bits32(x)))
    ensures LaneRotate32(1, x) == Number32(Left32By16(Bits32(x)))
    ensures LaneRotate32(2, x) == Number32(Left32By17(Bits32(x)))
    ensures LaneRotate32(3, x) == Number32(Left32By18(Bits32(x)))
  {
    hide Bits32, Number32;
  }

  lemma ShiftsAre32(x: Word32)
    ensures Shift13(x) == Number32(Down13(Bits32(x)))
    ensures Shift16(x) == Number32(Down16(Bits32(x)))
  {
    hide Bits32, Number32;
  }

  // ----- single 32-bit operations on literals -----

  lemma XorOf32(a: bv32, b: bv32, c: bv32)
    requires XorBits32(a, b) == c
    ensures Xor32(Number32(a), Number32(b)) == Number32(c)
  {
    hide Bits32, Number32, Xor32, XorBits32;
    XorIs32(Number32(a), Number32(b));
    BitsOfNumber32(a);
    BitsOfNumber32(b);
  }

  lemma ShiftsOf32(a: bv32)
    ensures Shift13(Number32(a)) == Number32(Down13(a))
    ensures Shift16(Number32(a)) == Number32(Down16(a))
  {
    hide *;
    ShiftsAre32(Number32(a));
    BitsOfNumber32(a);
  }

  lemma RotationsOf32(a: bv32)
    ensures Rotate13(Number32(a)) == Number32(Left32By13(a))
    ensures Rotate15(Number32(a)) == Number32(Left32By15(a))
    ensures Rotate17(Number32(a)) == Number32(Left32By17(a))
    ensures Rotate19(Number32(a)) == Number32(Left32By19(a))
    ensures LaneRotate32(0, Number32(a)) == Number32(Left32By15(a))
    ensures LaneRotate32(1, Number32(a)) == Number32(Left32By16(a))
    ensures LaneRotate32(2, Number32(a)) == Number32(Left32By17(a))
    ensures LaneRotate32(3, Number32(a)) == Number32(Left32By18(a))
  {
    hide *;
    RotationsAre32(Number32(a));
    BitsOfNumber32(a);
  }

  // ----- 32-bit operations undone -----

  lemma XorUndone32(x: Word32, y: Word32)
    ensures Xor32(Xor32(x, y), y) == x && Xor32(Xor32(x, y), x) == y
  {
    hide *;
    var a, b := Bits32(x), Bits32(y);
    XorBitsUndone32(a, b);
    NumberOfBits32(x);
    NumberOfBits32(y);
    XorOf32(a, b, XorBits32(a, b));
    XorOf32(XorBits32(a, b), b, a);
    XorOf32(XorBits32(a, b), a, b);
  }

  lemma XorBitsUndone32(a: bv32, b: bv32)
    ensures XorBits32(XorBits32(a, b), b) == a && XorBits32(XorBits32(a, b), a) == b
  {
  }

  function RotateBack32By13(x: Word32): Word32 { Number32(Right32By13(Bits32(x))) }
  function RotateBack32By15(x: Word32): Word32 { Number32(Right32By15(Bits32(x))) }
  function RotateBack32By16(x: Word32): Word32 { Number32(Right32By16(Bits32(x))) }
  function RotateBack32By17(x: Word32): Word32 { Number32(Right32By17(Bits32(x))) }
  function RotateBack32By18(x: Word32): Word32 { Number32(Right32By18(Bits32(x))) }
  function RotateBack32By19(x: Word32): Word32 { Number32(Right32By19(Bits32(x))) }

  lemma RotationsUndone32(x: Word32)
    ensures RotateBack32By13(Rotate13(x)) == x
    ensures RotateBack32By15(Rotate15(x)) == x
    ensures RotateBack32By17(Rotate17(x)) == x
    ensures RotateBack32By19(Rotate19(x)) == x
    ensures RotateBack32By15(LaneRotate32(0, x)) == x
    ensures RotateBack32By16(LaneRotate32(1, x)) == x
    ensures RotateBack32By17(LaneRotate32(2, x)) == x
    ensures RotateBack32By18(LaneRotate32(3, x)) == x
  {
    hide Bits32, Number32, Rotate13, Rotate15, Rotate17, Rotate19, LaneRotate32, Left32By13, Left32By15, Left32By16,
         Left32By17, Left32By18, Left32By19, Right32By13, Right32By15, Right32By16, Right32By17, Right32By18,
         Right32By19;
    var a := Bits32(x);
    RotationsAre32(x);
    BitsUnturned32(a);
    NumberOfBits32(x);
    BitsOfNumber32(Left32By13(a));
    BitsOfNumber32(Left32By15(a));
    BitsOfNumber32(Left32By16(a));
    BitsOfNumber32(Left32By17(a));
    BitsOfNumber32(Left32By18(a));
    BitsOfNumber32(Left32By19(a));
  }

  lemma BitsUnturned32(a: bv32)
    ensures Right32By13(Left32By13(a)) == a
    ensures Right32By15(Left32By15(a)) == a
    ensures Right32By16(Left32By16(a)) == a
    ensures Right32By17(Left32By17(a)) == a
    ensures Right32By18(Left32By18(a)) == a
    ensures Right32By19(Left32By19(a)) == a
  {
  }

  function Minus32(x: Word32, y: Word32): Word32 { (x - y) % HALF }

  lemma PlusUndone32(x: Word32, y: Word32)
    ensures Minus32(Plus32(x, y), y) == x && Minus32(Plus32(x, y), x) == y
  {
  }

  /** A factor is undone by its inverse. */
  lemma FactorUndone32(x: Word32, c: Word32, d: Word32)
    requires c * d % HALF == 1
    ensures Times32(Times32(x, c), d) == x
  {
    FactorsBack(x, c, d, HALF, x * c / HALF, c * d / HALF, Times32(x, c));
  }

  lemma FactorsBack(x: nat, c: nat, d: nat, w: nat, k: nat, q: nat, r: nat)
    requires x < w && x * c == k * w + r && c * d == q * w + 1
    ensures r * d % w == x
  {
    Expanded(x, c, d, k, w, r);
    FactorsOut(x, c * d, q, k * d, w);
  }

  lemma Expanded(x: nat, c: nat, d: nat, k: nat, w: nat, r: nat)
    requires x * c == k * w + r
    ensures r * d == x * (c * d) - (k * d) * w
  {
    assert (x * c) * d == (k * w) * d + r * d;
  }

  /** A product with a factor that is one more than a multiple of `w`. */
  lemma FactorsOut(x: nat, f: nat, q: nat, k: nat, w: nat)
    requires w > x && f == q * w + 1 && x * f >= k * w
    ensures (x * f - k * w) % w == x
  {
    assert x * f == (x * q) * w + x;
    var m := x * q - k;
    assert x * f - k * w == m * w + x;
    assert m >= 0;
    QuotientUnique(m * w + x, w, m, x);
  }
}
