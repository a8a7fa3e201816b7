/** What the 32-bit words of both x86 variants go through: the final mixer is undone by an inverse, and reading loses
no byte. */
module MurmurWordLaws {
  import opened Bytes
  import opened MurmurWords
  import opened MurmurBits

  // ----- the final mixer -----

  lemma Down13Xor(a: bv32, b: bv32)
    ensures Down13(XorBits32(a, b)) == XorBits32(Down13(a), Down13(b))
  {
  }

  lemma Down16Xor(a: bv32, b: bv32)
    ensures Down16(XorBits32(a, b)) == XorBits32(Down16(a), Down16(b))
  {
  }

  lemma Down26Xor(a: bv32, b: bv32)
    ensures Down26(XorBits32(a, b)) == XorBits32(Down26(a), Down26(b))
  {
  }

  lemma DownTwice(a: bv32)
    ensures Down16(Down16(a)) == 0
    ensures Down13(Down13(a)) == Down26(a)
    ensures Down26(Down13(a)) == 0
  {
  }

  lemma XorNothing(a: bv32)
    ensures XorBits32(a, 0) == a
  {
  }

  lemma XorCancels(a: bv32, b: bv32, c: bv32)
    ensures XorBits32(XorBits32(a, b), XorBits32(b, c)) == XorBits32(a, c)
  {
  }

  /** Exclusive or with itself shifted by half the width undoes itself. */
  lemma XorShift16Undone(x: Word32)
    ensures var y := Xor32(x, Shift16(x)); Xor32(y, Shift16(y)) == x
  {
    hide *;
    var a := Bits32(x);
    var high := Down16(a);
    var b := XorBits32(a, high);
    Down16Xor(a, high);
    DownTwice(a);
    XorNothing(high);
    XorBitsUndone32(a, high);
    NumberOfBits32(x);
    ShiftsOf32(a);
    XorOf32(a, high, b);
    ShiftsOf32(b);
    XorOf32(b, high, a);
  }

  function Shift26(x: Word32): Word32 { Number32(Down26(Bits32(x))) }

  lemma Shift26Of(a: bv32)
    ensures Shift26(Number32(a)) == Number32(Down26(a))
  {
    hide Bits32, Number32, Down26;
    BitsOfNumber32(a);
  }

  /** A shift by less than half the width takes a second one to undo. */
  lemma XorShift13Undone(x: Word32)
    ensures var y := Xor32(x, Shift13(x)); Xor32(Xor32(y, Shift13(y)), Shift26(y)) == x
  {
    hide *;
    var a := Bits32(x);
    var high, higher := Down13(a), Down26(a);
    var b := XorBits32(a, high);
    Down13Xor(a, high);
    Down26Xor(a, high);
    DownTwice(a);
    XorNothing(higher);
    XorCancels(a, high, higher);
    XorBitsUndone32(a, higher);
    NumberOfBits32(x);
    ShiftsOf32(a);
    XorOf32(a, high, b);
    ShiftsOf32(b);
    Shift26Of(b);
    XorOf32(b, XorBits32(high, higher), XorBits32(a, higher));
    XorOf32(XorBits32(a, higher), higher, a);
  }

  function Unmix32(h: Word32): Word32 {
    var h2 := Times32(Xor32(h, Shift16(h)), 0x7ed1_b41d);
    var h1 := Times32(Xor32(Xor32(h2, Shift13(h2)), Shift26(h2)), 0xa5cb_9243);
    Xor32(h1, Shift16(h1))
  }

  lemma Fmix32Undone(h: Word32)
    ensures Unmix32(Fmix32(h)) == h
  {
    hide Times32, Xor32, Shift13, Shift16, Shift26;
    var x := Xor32(h, Shift16(h));
    var h1 := Times32(x, 0x85eb_ca6b);
    var y := Xor32(h1, Shift13(h1));
    XorShift16Undone(h);
    FactorUndone32(x, 0x85eb_ca6b, 0xa5cb_9243);
    XorShift13Undone(h1);
    FactorUndone32(y, 0xc2b2_ae35, 0x7ed1_b41d);
    XorShift16Undone(Times32(y, 0xc2b2_ae35));
  }

  function Unscale32(addend: Word32, h: Word32): Word32 {
    Times32(Minus32(h, addend), 0xcccc_cccd)
  }

  lemma ScaleUndone32(addend: Word32, h: Word32)
    ensures Unscale32(addend, Plus32(Times32(h, 5), addend)) == h
  {
    hide Times32, Plus32, Minus32;
    PlusUndone32(Times32(h, 5), addend);
    FactorUndone32(h, 5, 0xcccc_cccd);
  }

  lemma XorTells32(x: Word32, y: Word32, z: Word32)
    ensures Xor32(x, y) == Xor32(x, z) ==> y == z
    ensures Xor32(y, x) == Xor32(z, x) ==> y == z
  {
    hide *;
    XorUndone32(x, y);
    XorUndone32(x, z);
    XorUndone32(y, x);
    XorUndone32(z, x);
  }

  // ----- reads -----

  /** A number below the bytes from the `n`-th on. */
  predicate Below32(n: nat, x: bv32) {
    (n == 0 ==> x == 0) && (n == 1 ==> x <= 0xff) && (n == 2 ==> x <= 0xffff) && (n == 3 ==> x <= 0xff_ffff)
  }

  lemma Placed0(x: bv32, y: bv32, a: byte, b: byte)
    requires x == 0 == y
    ensures Or32(x, Byte32(a, 0)) <= 0xff
    ensures Or32(x, Byte32(a, 0)) == Or32(y, Byte32(b, 0)) ==> x == y && a == b
  {
  }

  lemma Placed1(x: bv32, y: bv32, a: byte, b: byte)
    requires x <= 0xff && y <= 0xff
    ensures Or32(x, Byte32(a, 1)) <= 0xffff
    ensures Or32(x, Byte32(a, 1)) == Or32(y, Byte32(b, 1)) ==> x == y && a == b
  {
  }

  lemma Placed2(x: bv32, y: bv32, a: byte, b: byte)
    requires x <= 0xffff && y <= 0xffff
    ensures Or32(x, Byte32(a, 2)) <= 0xff_ffff
    ensures Or32(x, Byte32(a, 2)) == Or32(y, Byte32(b, 2)) ==> x == y && a == b
  {
  }

  lemma Placed3(x: bv32, y: bv32, a: byte, b: byte)
    requires x <= 0xff_ffff && y <= 0xff_ffff
    ensures Or32(x, Byte32(a, 3)) == Or32(y, Byte32(b, 3)) ==> x == y && a == b
  {
  }

  lemma PlacedByte(n: nat, x: bv32, y: bv32, a: byte, b: byte)
    requires n < 4 && Below32(n, x) && Below32(n, y)
    ensures Below32(n + 1, Or32(x, Byte32(a, n)))
    ensures Or32(x, Byte32(a, n)) == Or32(y, Byte32(b, n)) ==> x == y && a == b
  {
    hide Or32, Byte32;
    if n == 0 {
      Placed0(x, y, a, b);
    } else if n == 1 {
      Placed1(x, y, a, b);
    } else if n == 2 {
      Placed2(x, y, a, b);
    } else {
      Placed3(x, y, a, b);
    }
  }

  lemma {:induction false} PartialWordBelow(s: seq<byte>, n: nat, i: nat)
    requires n <= |s| && n <= 4 * i + 4
    ensures Below32(if n <= 4 * i then 0 else n - 4 * i, PartialWord(s, n, i))
    decreases n
  {
    hide Or32, Byte32, Below32, PartialWord;
    PartialWordStep(s, n, i);
    if n <= 4 * i {
      BelowZero();
    } else {
      PartialWordBelow(s, n - 1, i);
      PlacedByte(n - 1 - 4 * i, PartialWord(s, n - 1, i), PartialWord(s, n - 1, i), s[n - 1], s[n - 1]);
    }
  }

  lemma BelowZero()
    ensures Below32(0, 0)
  {
  }

  /** A word tells its bytes. */
  lemma {:induction false} PartialWordTells(s: seq<byte>, u: seq<byte>, n: nat, i: nat)
    requires 4 * i <= n <= |s| && n <= |u| && n <= 4 * i + 4 && PartialWord(s, n, i) == PartialWord(u, n, i)
    ensures s[4 * i..n] == u[4 * i..n]
    decreases n
  {
    hide Or32, Byte32, Below32, PartialWord;
    if n > 4 * i {
      PartialWordStep(s, n, i);
      PartialWordStep(u, n, i);
      PartialWordBelow(s, n - 1, i);
      PartialWordBelow(u, n - 1, i);
      PlacedByte(n - 1 - 4 * i, PartialWord(s, n - 1, i), PartialWord(u, n - 1, i), s[n - 1], u[n - 1]);
      PartialWordTells(s, u, n - 1, i);
      assert s[4 * i..n] == s[4 * i..n - 1] + [s[n - 1]] && u[4 * i..n] == u[4 * i..n - 1] + [u[n - 1]];
    }
  }

  /** A whole word is read as the word of its four bytes. */
  lemma ReadWord32IsPartial(s: seq<byte>, i: nat)
    requires 4 * i + 4 <= |s|
    ensures ReadWord32(s, 4 * i) == Number32(PartialWord(s, 4 * i + 4, i))
  {
    hide Or32, Byte32, Number32, PartialWord;
    PartialWordStep(s, 4 * i, i);
    PartialWordStep(s, 4 * i + 1, i);
    PartialWordStep(s, 4 * i + 2, i);
    PartialWordStep(s, 4 * i + 3, i);
    PartialWordStep(s, 4 * i + 4, i);
    OrZero(Byte32(s[4 * i], 0));
  }

  lemma OrZero(x: bv32)
    ensures Or32(0, x) == x
  {
  }

  lemma NumberTells(x: bv32, y: bv32)
    requires Number32(x) == Number32(y)
    ensures x == y
  {
    hide *;
    BitsOfNumber32(x);
    BitsOfNumber32(y);
  }

  lemma ReadWord32Tells(s: seq<byte>, u: seq<byte>, i: nat)
    requires 4 * i + 4 <= |s| == |u| && ReadWord32(s, 4 * i) == ReadWord32(u, 4 * i)
    ensures s[4 * i..4 * i + 4] == u[4 * i..4 * i + 4]
  {
    hide Number32, PartialWord, ReadWord32;
    ReadWord32IsPartial(s, i);
    ReadWord32IsPartial(u, i);
    NumberTells(PartialWord(s, 4 * i + 4, i), PartialWord(u, 4 * i + 4, i));
    PartialWordTells(s, u, 4 * i + 4, i);
  }
}
