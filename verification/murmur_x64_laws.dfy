/** What the steps of MurmurHash3 x64 128-bit lose: nothing. Every step is undone by an inverse written out here, so a
digest tells any two messages apart that have the same length and differ within one block. Also some known digests. */
module MurmurX64Laws {
  import opened Bytes
  import opened MurmurWords
  import opened MurmurBits
  import opened MurmurBlocks
  import opened MurmurX64

  // ----- inverses -----

  function Unpremix1(v: Word64): Word64 {
    Times(RotateBack31(Times(v, 0xa81e_14ed_d9de_2c7f)), 0xa984_09e8_82ce_4d7d)
  }

  function Unpremix2(v: Word64): Word64 {
    Times(RotateBack33(Times(v, 0xa984_09e8_82ce_4d7d)), 0xa81e_14ed_d9de_2c7f)
  }

  lemma PremixUndone(v: Word64)
    ensures Unpremix1(Premix1(v)) == v && Unpremix2(Premix2(v)) == v
  {
    hide Times, RotateBack31, RotateBack33, Rotate31, Rotate33;
    var w1, w2 := Times(v, 0x87c3_7b91_1142_53d5), Times(v, 0x4cf5_ad43_2745_937f);
    FactorUndone(v, 0x87c3_7b91_1142_53d5, 0xa984_09e8_82ce_4d7d);
    FactorUndone(v, 0x4cf5_ad43_2745_937f, 0xa81e_14ed_d9de_2c7f);
    RotationsUndone(w1);
    RotationsUndone(w2);
    FactorUndone(Rotate31(w1), 0x4cf5_ad43_2745_937f, 0xa81e_14ed_d9de_2c7f);
    FactorUndone(Rotate33(w2), 0x87c3_7b91_1142_53d5, 0xa984_09e8_82ce_4d7d);
  }

  lemma Down33Xor(a: bv64, b: bv64)
    ensures Down33(XorBits(a, b)) == XorBits(Down33(a), Down33(b))
  {
  }

  lemma DownTwice(a: bv64)
    ensures Down33(Down33(a)) == 0
  {
  }

  lemma XorNothing(a: bv64)
    ensures XorBits(a, 0) == a
  {
  }

  /** Exclusive or with itself shifted by more than half the width undoes itself. */
  lemma XorShiftUndone(x: Word64)
    ensures var y := Xor(x, Shift33(x)); Xor(y, Shift33(y)) == x
  {
    hide *;
    var a := Bits(x);
    var high := Down33(a);
    var b := XorBits(a, high);
    Down33Xor(a, high);
    DownTwice(a);
    XorNothing(high);
    XorBitsUndone(a, high);
    NumberOfBits(x);
    ShiftsOf(a);
    XorOf(a, high, b);
    ShiftsOf(b);
    XorOf(b, high, a);
  }

  function Unmix64(h: Word64): Word64 {
    var h2 := Times(Xor(h, Shift33(h)), 0x9cb4_b2f8_1293_37db);
    var h1 := Times(Xor(h2, Shift33(h2)), 0x4f74_430c_22a5_4005);
    Xor(h1, Shift33(h1))
  }

  lemma Fmix64Undone(h: Word64)
    ensures Unmix64(Fmix64(h)) == h
  {
    hide Times, Xor, Shift33;
    var x := Xor(h, Shift33(h));
    var h1 := Times(x, 0xff51_afd7_ed55_8ccd);
    var y := Xor(h1, Shift33(h1));
    XorShiftUndone(h);
    FactorUndone(x, 0xff51_afd7_ed55_8ccd, 0x4f74_430c_22a5_4005);
    XorShiftUndone(h1);
    FactorUndone(y, 0xc4ce_b9fe_1a85_ec53, 0x9cb4_b2f8_1293_37db);
    XorShiftUndone(Times(y, 0xc4ce_b9fe_1a85_ec53));
  }

  function Unscale(addend: Word64, h: Word64): Word64 {
    Times(Minus(h, addend), 0xcccc_cccc_cccc_cccd)
  }

  lemma ScaleUndone(addend: Word64, h: Word64)
    ensures Unscale(addend, ScaleHash(addend, h)) == h
  {
    hide Times, Plus, Minus;
    PlusUndone(Times(h, 5), addend);
    FactorUndone(h, 5, 0xcccc_cccc_cccc_cccd);
  }

  /** The state before two premixed words went in. */
  function StateBefore(after: Hashes, block1: Word64, block2: Word64): Hashes {
    var h2 := Xor(RotateBack31(Minus(Unscale(0x3849_5ab5, after.h2), after.h1)), block2);
    Hashes(Xor(RotateBack27(Minus(Unscale(0x52dc_e729, after.h1), h2)), block1), h2)
  }

  /** The premixed words that lead from one state to another. */
  function WordsBetween(before: Hashes, after: Hashes): (Word64, Word64) {
    (Xor(RotateBack27(Minus(Unscale(0x52dc_e729, after.h1), before.h2)), before.h1),
     Xor(RotateBack31(Minus(Unscale(0x3849_5ab5, after.h2), after.h1)), before.h2))
  }

  lemma MixUndone(h: Hashes, block1: Word64, block2: Word64)
    ensures StateBefore(MixHashes(h, block1, block2), block1, block2) == h
    ensures WordsBetween(h, MixHashes(h, block1, block2)) == (block1, block2)
  {
    hide Xor, Plus, Minus, ScaleHash, Unscale, Rotate27, Rotate31, RotateBack27, RotateBack31;
    var x1, x2 := Xor(h.h1, block1), Xor(h.h2, block2);
    var s1 := Plus(Rotate27(x1), h.h2);
    var h1 := ScaleHash(0x52dc_e729, s1);
    var s2 := Plus(Rotate31(x2), h1);
    XorUndone(h.h1, block1);
    XorUndone(h.h2, block2);
    RotationsUndone(x1);
    RotationsUndone(x2);
    PlusUndone(Rotate27(x1), h.h2);
    PlusUndone(Rotate31(x2), h1);
    ScaleUndone(0x52dc_e729, s1);
    ScaleUndone(0x3849_5ab5, s2);
  }

  /** The state that a digest was made of. */
  function Unfinalized(d: Hashes, length: Word64): Hashes {
    var f2 := Minus(d.h2, d.h1);
    var f1 := Minus(d.h1, f2);
    var s1, s2 := Unmix64(f1), Unmix64(f2);
    var x2 := Minus(s2, s1);
    Hashes(Xor(Minus(s1, x2), length), Xor(x2, length))
  }

  lemma FinalizeUndone(h: Hashes, length: Word64)
    ensures Unfinalized(Finalize(h, length), length) == h
  {
    hide Xor, Plus, Minus, Fmix64, Unmix64;
    var x1, x2 := Xor(h.h1, length), Xor(h.h2, length);
    var s1 := Plus(x1, x2);
    var s2 := Plus(x2, s1);
    var f1, f2 := Fmix64(s1), Fmix64(s2);
    var d1 := Plus(f1, f2);
    PlusUndone(f2, d1);
    PlusUndone(f1, f2);
    Fmix64Undone(s1);
    Fmix64Undone(s2);
    PlusUndone(x2, s1);
    PlusUndone(x1, x2);
    XorUndone(h.h1, length);
    XorUndone(h.h2, length);
  }

  // ----- what the reads lose: nothing -----

  lemma FirstByte(a: byte, b: byte, x: bv64, y: bv64)
    requires Short(x) && Short(y) && Or(Widen(a), Shl8(x)) == Or(Widen(b), Shl8(y))
    ensures a == b && x == y
  {
  }

  /** No more than seven bytes. */
  predicate Short(x: bv64) {
    x <= 0x00ff_ffff_ffff_ffff
  }

  /** A number below the bytes from the `n`-th on. */
  predicate Below(n: nat, x: bv64) {
    && (n == 0 ==> x == 0) && (n == 1 ==> x <= 0xff) && (n == 2 ==> x <= 0xffff)
    && (n == 3 ==> x <= 0xff_ffff) && (n == 4 ==> x <= 0xffff_ffff) && (n == 5 ==> x <= 0xff_ffff_ffff)
    && (n == 6 ==> x <= 0xffff_ffff_ffff) && (n == 7 ==> x <= 0xff_ffff_ffff_ffff)
  }

  lemma BelowStep(n: nat, a: byte, x: bv64)
    requires n < 8 && Below(n, x)
    ensures Below(n + 1, Or(Widen(a), Shl8(x))) && (n < 8 ==> Short(x))
  {
  }

  lemma {:induction false} LittleEndianBelow(s: seq<byte>)
    requires |s| <= 8
    ensures Below(|s|, LittleEndian(s))
  {
    hide Or, Shl8, Widen, Below, LittleEndian;
    if s == [] {
      BelowZero();
      LittleEndianNothing();
    } else {
      LittleEndianBelow(s[1..]);
      BelowStep(|s| - 1, s[0], LittleEndian(s[1..]));
      LittleEndianStep(s);
    }
  }

  lemma BelowZero()
    ensures Below(0, 0)
  {
  }

  lemma {:induction false} LittleEndianTells(s: seq<byte>, u: seq<byte>)
    requires |s| == |u| <= 8 && LittleEndian(s) == LittleEndian(u)
    ensures s == u
  {
    hide Or, Shl8, Widen, Below, Short, LittleEndian;
    if s != [] {
      LittleEndianStep(s);
      LittleEndianStep(u);
      LittleEndianBelow(s[1..]);
      LittleEndianBelow(u[1..]);
      BelowStep(|s| - 1, s[0], LittleEndian(s[1..]));
      BelowStep(|u| - 1, u[0], LittleEndian(u[1..]));
      FirstByte(s[0], u[0], LittleEndian(s[1..]), LittleEndian(u[1..]));
      LittleEndianTells(s[1..], u[1..]);
      assert s == [s[0]] + s[1..] && u == [u[0]] + u[1..];
    }
  }

  lemma TailWordTells(s: seq<byte>, u: seq<byte>)
    requires |s| == |u| <= 8 && TailWord(s) == TailWord(u)
    ensures s == u
  {
    hide Bits, Number, LittleEndian;
    BitsOfNumber(LittleEndian(s));
    BitsOfNumber(LittleEndian(u));
    LittleEndianTells(s, u);
  }

  lemma ReadWordIsTailWord(s: seq<byte>, at: nat)
    requires at + 8 <= |s|
    ensures ReadWord(s, at) == TailWord(s[at..at + 8])
  {
    hide Number, LittleEndian, ReadU64;
    var w := s[at..at + 8];
    PartialIsLittleEndian(w);
    ReadInSlice(s, at, 8, 0);
    WholeWord(w);
  }

  lemma WholeWord(w: seq<byte>)
    requires |w| == 8
    ensures ReadPartialU64(w) == ReadU64(w, 0)
  {
    hide ReadU64, ReadU32, ReadU16, Or, Shl16, Shl32, Shl48, Widen;
  }

  // ----- digests tell messages apart -----

  lemma StepTellsStates(s: Hashes, t: Hashes, b: seq<byte>)
    requires |b| == 16 && Step(s, b) == Step(t, b)
    ensures s == t
  {
    hide MixHashes, Premix1, Premix2, ReadWord, StateBefore;
    var w1, w2 := Premix1(ReadWord(b, 0)), Premix2(ReadWord(b, 8));
    MixUndone(s, w1, w2);
    MixUndone(t, w1, w2);
  }

  lemma StepTellsBlocks(s: Hashes, b: seq<byte>, c: seq<byte>)
    requires |b| == |c| == 16 && Step(s, b) == Step(s, c)
    ensures b == c
  {
    hide MixHashes, Premix1, Premix2, Unpremix1, Unpremix2, ReadWord, TailWord, WordsBetween;
    MixUndone(s, Premix1(ReadWord(b, 0)), Premix2(ReadWord(b, 8)));
    MixUndone(s, Premix1(ReadWord(c, 0)), Premix2(ReadWord(c, 8)));
    PremixUndone(ReadWord(b, 0));
    PremixUndone(ReadWord(b, 8));
    PremixUndone(ReadWord(c, 0));
    PremixUndone(ReadWord(c, 8));
    WordsTell(b, c);
  }

  lemma WordsTell(b: seq<byte>, c: seq<byte>)
    requires |b| == |c| == 16 && ReadWord(b, 0) == ReadWord(c, 0) && ReadWord(b, 8) == ReadWord(c, 8)
    ensures b == c
  {
    hide ReadWord, TailWord;
    ReadWordIsTailWord(b, 0);
    ReadWordIsTailWord(b, 8);
    ReadWordIsTailWord(c, 0);
    ReadWordIsTailWord(c, 8);
    TailWordTells(b[0..8], c[0..8]);
    TailWordTells(b[8..16], c[8..16]);
    assert b == b[0..8] + b[8..16] && c == c[0..8] + c[8..16];
  }

  lemma StepTells()
    ensures TellsStates(Step, 16) && TellsBlocks(Step, 16)
  {
    hide Step;
    forall s: Hashes, t: Hashes, b: seq<byte> | |b| == 16 && Step(s, b) == Step(t, b) ensures s == t {
      StepTellsStates(s, t, b);
    }
    forall s: Hashes, b: seq<byte>, c: seq<byte> | |b| == |c| == 16 && Step(s, b) == Step(s, c) ensures b == c {
      StepTellsBlocks(s, b, c);
    }
  }

  lemma XorTells(x: Word64, y: Word64, z: Word64)
    ensures Xor(x, y) == Xor(x, z) ==> y == z
    ensures Xor(y, x) == Xor(z, x) ==> y == z
  {
    hide *;
    XorUndone(x, y);
    XorUndone(x, z);
    XorUndone(y, x);
    XorUndone(z, x);
  }

  lemma FinalizeTells(g: Hashes, h: Hashes, length: Word64)
    requires Finalize(g, length) == Finalize(h, length)
    ensures g == h
  {
    hide *;
    FinalizeUndone(g, length);
    FinalizeUndone(h, length);
  }

  lemma FinishTellsStates(tail: seq<byte>, g: Hashes, h: Hashes, length: Word64)
    requires |tail| < 16 && FinishTail(tail, g, length) == FinishTail(tail, h, length)
    ensures g == h
  {
    hide Xor, Premix1, Premix2, TailWord, Finalize;
    var head := if |tail| < 8 then tail else tail[..8];
    var w1 := Premix1(TailWord(head));
    var w2 := if |tail| > 8 then Premix2(TailWord(tail[8..])) else 0;
    var g', h' := Mixed(tail, g, w1, w2), Mixed(tail, h, w1, w2);
    FinalizeTells(g', h', length);
    XorTells(w1, g.h1, h.h1);
    XorTells(w2, g.h2, h.h2);
  }

  function Mixed(tail: seq<byte>, h: Hashes, word1: Word64, word2: Word64): Hashes {
    Hashes(if tail != [] then Xor(h.h1, word1) else h.h1, if |tail| > 8 then Xor(h.h2, word2) else h.h2)
  }

  lemma FinishTellsTails(s: seq<byte>, u: seq<byte>, h: Hashes, length: Word64)
    requires |s| == |u| < 16 && FinishTail(s, h, length) == FinishTail(u, h, length)
    ensures s == u
  {
    hide Xor, Premix1, Premix2, Unpremix1, Unpremix2, TailWord, Finalize;
    var s1, u1 := if |s| < 8 then s else s[..8], if |u| < 8 then u else u[..8];
    var s2, u2 := if |s| > 8 then s[8..] else [], if |u| > 8 then u[8..] else [];
    var x1, y1, x2, y2 := TailWord(s1), TailWord(u1), TailWord(s2), TailWord(u2);
    FinalizeTells(Mixed(s, h, Premix1(x1), Premix2(x2)), Mixed(u, h, Premix1(y1), Premix2(y2)), length);
    XorTells(h.h1, Premix1(x1), Premix1(y1));
    XorTells(h.h2, Premix2(x2), Premix2(y2));
    PremixUndone(x1);
    PremixUndone(y1);
    PremixUndone(x2);
    PremixUndone(y2);
    if s != [] {
      TailWordTells(s1, u1);
    }
    if |s| > 8 {
      TailWordTells(s2, u2);
    }
    assert s == s1 + s2 && u == u1 + u2;
  }

  /** Two different messages of one length that agree outside one block of sixteen bytes have different digests. */
  lemma DigestTellsBlocks(seed: Word32, m: seq<byte>, n: seq<byte>, at: nat)
    requires at % 16 == 0 && DifferAt(m, n, at, 16) && Digest(seed, m) == Digest(seed, n)
    ensures m == n
  {
    hide Split, DifferAt, Fold, FinishTail, Step;
    var start := Hashes(seed, seed);
    var (b, s) := Split(m, 16);
    var (c, u) := Split(n, 16);
    SplitDiffers(m, n, at, 16);
    SameLength(m, n, at, 16);
    StepTells();
    if at + 16 <= |b| {
      FinishTellsStates(s, Body(start, b), Body(start, c), |m| % 0x1_0000_0000_0000_0000);
      FoldTellsBlocks(Step, 16, start, b, c, at);
    } else {
      FinishTellsTails(s, u, Body(start, b), |m| % 0x1_0000_0000_0000_0000);
    }
  }

  /** A message has different digests for different seeds. */
  lemma DigestTellsSeeds(seed: Word32, other: Word32, m: seq<byte>)
    requires Digest(seed, m) == Digest(other, m)
    ensures seed == other
  {
    hide Split, Fold, FinishTail, Step;
    var (b, s) := Split(m, 16);
    StepTells();
    FinishTellsStates(s, Body(Hashes(seed, seed), b), Body(Hashes(other, other), b), |m| % 0x1_0000_0000_0000_0000);
    FoldTellsStates(Step, 16, Hashes(seed, seed), Hashes(other, other), b);
  }

  // ----- known digests -----

  lemma PremixOfThree()
    ensures Premix1(0x0003_0201) == 0x9315_3457_2852_fcc3
  {
    hide Bits, Xor, Shift33, Rotate27, Rotate31, Rotate33;
    assert Times(0x0003_0201, 0x87c3_7b91_1142_53d5) == 0x816d_d17a_9168_fdd5;
    RotationsOf(0x816d_d17a_9168_fdd5);
    assert Rotate31(0x816d_d17a_9168_fdd5) == 0x48b4_7eea_c0b6_e8bd;
    assert Times(0x48b4_7eea_c0b6_e8bd, 0x4cf5_ad43_2745_937f) == 0x9315_3457_2852_fcc3;
  }

  lemma FmixOfThree()
    ensures Fmix64(0x9315_3457_2852_fcc3) == 0xeb7a_339d_e002_d4ed
    ensures Fmix64(0x9315_3457_2852_fcc6) == 0x2eea_0b51_2e10_62bc
  {
    hide Bits, Xor, Shift33, Rotate27, Rotate31, Rotate33;
    ShiftsOf(0x9315_3457_2852_fcc3);
    assert Shift33(0x9315_3457_2852_fcc3) == 0x498a_9a2b;
    XorOf(0x9315_3457_2852_fcc3, 0x498a_9a2b, 0x9315_3457_61d8_66e8);
    assert Times(0x9315_3457_61d8_66e8, 0xff51_afd7_ed55_8ccd) == 0x69b2_8c72_a599_47c8;
    ShiftsOf(0x69b2_8c72_a599_47c8);
    assert Shift33(0x69b2_8c72_a599_47c8) == 0x34d9_4639;
    XorOf(0x69b2_8c72_a599_47c8, 0x34d9_4639, 0x69b2_8c72_9140_01f1);
    assert Times(0x69b2_8c72_9140_01f1, 0xc4ce_b9fe_1a85_ec53) == 0xeb7a_339d_95bf_cd23;
    ShiftsOf(0xeb7a_339d_95bf_cd23);
    assert Shift33(0xeb7a_339d_95bf_cd23) == 0x75bd_19ce;
    XorOf(0xeb7a_339d_95bf_cd23, 0x75bd_19ce, 0xeb7a_339d_e002_d4ed);
    ShiftsOf(0x9315_3457_2852_fcc6);
    assert Shift33(0x9315_3457_2852_fcc6) == 0x498a_9a2b;
    XorOf(0x9315_3457_2852_fcc6, 0x498a_9a2b, 0x9315_3457_61d8_66ed);
    assert Times(0x9315_3457_61d8_66ed, 0xff51_afd7_ed55_8ccd) == 0x664a_fbaa_4845_07c9;
    ShiftsOf(0x664a_fbaa_4845_07c9);
    assert Shift33(0x664a_fbaa_4845_07c9) == 0x3325_7dd5;
    XorOf(0x664a_fbaa_4845_07c9, 0x3325_7dd5, 0x664a_fbaa_7b60_7a1c);
    assert Times(0x664a_fbaa_7b60_7a1c, 0xc4ce_b9fe_1a85_ec53) == 0x2eea_0b51_3965_6714;
    ShiftsOf(0x2eea_0b51_3965_6714);
    assert Shift33(0x2eea_0b51_3965_6714) == 0x1775_05a8;
    XorOf(0x2eea_0b51_3965_6714, 0x1775_05a8, 0x2eea_0b51_2e10_62bc);
  }

  lemma PremixedBlock()
    ensures Premix1(0x0706_0504_0302_0100) == 0xdf62_d7cb_eab5_358e
    ensures Premix2(0x0f0e_0d0c_0b0a_0908) == 0xc541_f873_a7ae_c42d
  {
    hide Bits, Xor, Shift33, Rotate27, Rotate31, Rotate33;
    assert Times(0x0706_0504_0302_0100, 0x87c3_7b91_1142_53d5) == 0xc87b_f2e5_68fd_d500;
    RotationsOf(0xc87b_f2e5_68fd_d500);
    assert Rotate31(0xc87b_f2e5_68fd_d500) == 0xb47e_ea80_643d_f972;
    assert Times(0xb47e_ea80_643d_f972, 0x4cf5_ad43_2745_937f) == 0xdf62_d7cb_eab5_358e;
    assert Times(0x0f0e_0d0c_0b0a_0908, 0x4cf5_ad43_2745_937f) == 0x93c6_a97c_e452_12f8;
    RotationsOf(0x93c6_a97c_e452_12f8);
    assert Rotate33(0x93c6_a97c_e452_12f8) == 0xc8a4_25f1_278d_52f9;
    assert Times(0xc8a4_25f1_278d_52f9, 0x87c3_7b91_1142_53d5) == 0xc541_f873_a7ae_c42d;
  }

  lemma MixedBlock()
    ensures Rotate27(Xor(0xfeed_beef, 0xdf62_d7cb_eab5_358e)) == 0x58a2_c45b_0efb_16be
    ensures Rotate31(Xor(0xfeed_beef, 0xc541_f873_a7ae_c42d)) == 0xaca1_bd61_62a0_fc39
  {
    hide Bits, Xor, Shift33, Rotate27, Rotate31, Rotate33;
    XorOf(0xfeed_beef, 0xdf62_d7cb_eab5_358e, 0xdf62_d7cb_1458_8b61);
    RotationsOf(0xdf62_d7cb_1458_8b61);
    assert Rotate27(0xdf62_d7cb_1458_8b61) == 0x58a2_c45b_0efb_16be;
    XorOf(0xfeed_beef, 0xc541_f873_a7ae_c42d, 0xc541_f873_5943_7ac2);
    RotationsOf(0xc541_f873_5943_7ac2);
    assert Rotate31(0xc541_f873_5943_7ac2) == 0xaca1_bd61_62a0_fc39;
  }

  lemma PremixedTail()
    ensures Premix1(0x1716_1514_1312_1110) == 0x25b7_2389_0927_2722
    ensures Premix2(0x001e_1d1c_1b1a_1918) == 0xf5b3_4b0f_c690_4ebd
  {
    hide Bits, Xor, Shift33, Rotate27, Rotate31, Rotate33;
    assert Times(0x1716_1514_1312_1110, 0x87c3_7b91_1142_53d5) == 0x0d44_83bd_2fb0_6250;
    RotationsOf(0x0d44_83bd_2fb0_6250);
    assert Rotate31(0x0d44_83bd_2fb0_6250) == 0x97d8_3128_06a2_41de;
    assert Times(0x97d8_3128_06a2_41de, 0x4cf5_ad43_2745_937f) == 0x25b7_2389_0927_2722;
    assert Times(0x001e_1d1c_1b1a_1918, 0x4cf5_ad43_2745_937f) == 0x591d_a5a4_d9d3_3ae8;
    RotationsOf(0x591d_a5a4_d9d3_3ae8);
    assert Rotate33(0x591d_a5a4_d9d3_3ae8) == 0xb3a6_75d0_b23b_4b49;
    assert Times(0xb3a6_75d0_b23b_4b49, 0x87c3_7b91_1142_53d5) == 0xf5b3_4b0f_c690_4ebd;
  }

  lemma FmixOfCounting()
    ensures Fmix64(0x9159_8b2f_6b3a_1bdd) == 0x4d1c_e056_1013_858c
    ensures Fmix64(0x8418_2019_4526_0303) == 0x0588_72e2_6399_8fd3
  {
    hide Bits, Xor, Shift33, Rotate27, Rotate31, Rotate33;
    ShiftsOf(0x9159_8b2f_6b3a_1bdd);
    assert Shift33(0x9159_8b2f_6b3a_1bdd) == 0x48ac_c597;
    XorOf(0x9159_8b2f_6b3a_1bdd, 0x48ac_c597, 0x9159_8b2f_2396_de4a);
    assert Times(0x9159_8b2f_2396_de4a, 0xff51_afd7_ed55_8ccd) == 0x487e_ff3e_51f2_7942;
    ShiftsOf(0x487e_ff3e_51f2_7942);
    assert Shift33(0x487e_ff3e_51f2_7942) == 0x243f_7f9f;
    XorOf(0x487e_ff3e_51f2_7942, 0x243f_7f9f, 0x487e_ff3e_75cd_06dd);
    assert Times(0x487e_ff3e_75cd_06dd, 0xc4ce_b9fe_1a85_ec53) == 0x4d1c_e056_369d_f5a7;
    ShiftsOf(0x4d1c_e056_369d_f5a7);
    assert Shift33(0x4d1c_e056_369d_f5a7) == 0x268e_702b;
    XorOf(0x4d1c_e056_369d_f5a7, 0x268e_702b, 0x4d1c_e056_1013_858c);
    ShiftsOf(0x8418_2019_4526_0303);
    assert Shift33(0x8418_2019_4526_0303) == 0x420c_100c;
    XorOf(0x8418_2019_4526_0303, 0x420c_100c, 0x8418_2019_072a_130f);
    assert Times(0x8418_2019_072a_130f, 0xff51_afd7_ed55_8ccd) == 0x8cec_fb2b_f618_7703;
    ShiftsOf(0x8cec_fb2b_f618_7703);
    assert Shift33(0x8cec_fb2b_f618_7703) == 0x4676_7d95;
    XorOf(0x8cec_fb2b_f618_7703, 0x4676_7d95, 0x8cec_fb2b_b06e_0a96);
    assert Times(0x8cec_fb2b_b06e_0a96, 0xc4ce_b9fe_1a85_ec53) == 0x0588_72e2_615d_b6a2;
    ShiftsOf(0x0588_72e2_615d_b6a2);
    assert Shift33(0x0588_72e2_615d_b6a2) == 0x02c4_3971;
    XorOf(0x0588_72e2_615d_b6a2, 0x02c4_3971, 0x0588_72e2_6399_8fd3);
  }

  // The bytes from 0 to 30: a block and the two words of a tail.

  const BLOCK: seq<byte> := [0, 1, 2, 3, 4, 5, 6, 7, 8, 9, 10, 11, 12, 13, 14, 15]
  const HEAD: seq<byte> := [16, 17, 18, 19, 20, 21, 22, 23]
  const REST: seq<byte> := [24, 25, 26, 27, 28, 29, 30]

  lemma ThreeTailWord()
    ensures TailWord([1, 2, 3]) == 0x3_0201
  {
    hide LittleEndian;
    PartialIsLittleEndian([1, 2, 3]);
  }

  lemma WordsOfBlock()
    ensures TailWord([0, 1, 2, 3, 4, 5, 6, 7]) == 0x0706_0504_0302_0100
    ensures TailWord([8, 9, 10, 11, 12, 13, 14, 15]) == 0x0f0e_0d0c_0b0a_0908
  {
    hide LittleEndian;
    PartialIsLittleEndian([0, 1, 2, 3, 4, 5, 6, 7]);
    PartialIsLittleEndian([8, 9, 10, 11, 12, 13, 14, 15]);
  }

  lemma WordsOfTail()
    ensures TailWord(HEAD) == 0x1716_1514_1312_1110 && TailWord(REST) == 0x1e_1d1c_1b1a_1918
  {
    hide LittleEndian;
    PartialIsLittleEndian(HEAD);
    PartialIsLittleEndian(REST);
  }

  lemma BlockIsRead()
    ensures ReadWord(BLOCK, 0) == 0x0706_0504_0302_0100 && ReadWord(BLOCK, 8) == 0x0f0e_0d0c_0b0a_0908
  {
    hide ReadWord, TailWord;
    ReadWordIsTailWord(BLOCK, 0);
    ReadWordIsTailWord(BLOCK, 8);
    WordsOfBlock();
    assert BLOCK[0..8] == [0, 1, 2, 3, 4, 5, 6, 7] && BLOCK[8..16] == [8, 9, 10, 11, 12, 13, 14, 15];
  }

  /** The digest of the bytes 1, 2, 3 is the published one. */
  lemma DigestOfThree()
    ensures Digest(0, [1, 2, 3]) == Hashes(1_901_714_139_111_438_249, 5_282_241_052_699_499_109)
  {
    hide Split, Fold, Step, Premix1, Fmix64, TailWord, Xor, Bits;
    var m: seq<byte> := [1, 2, 3];
    SplitAt(m, 16);
    BodyNothing(Hashes(0, 0), []);
    ThreeTailWord();
    PremixOfThree();
    XorOf(0x0, 0x9315_3457_2852_fcc3, 0x9315_3457_2852_fcc3);
    XorOf(0x9315_3457_2852_fcc3, 0x3, 0x9315_3457_2852_fcc0);
    XorOf(0x0, 0x3, 0x3);
    assert Plus(0x9315_3457_2852_fcc0, 0x3) == 0x9315_3457_2852_fcc3;
    assert Plus(0x3, 0x9315_3457_2852_fcc3) == 0x9315_3457_2852_fcc6;
    FmixOfThree();
    assert Plus(0xeb7a_339d_e002_d4ed, 0x2eea_0b51_2e10_62bc) == 0x1a64_3eef_0e13_37a9;
    assert Plus(0x2eea_0b51_2e10_62bc, 0x1a64_3eef_0e13_37a9) == 0x494e_4a40_3c23_9a65;
  }

  lemma CountingParts()
    ensures var tail := HEAD + REST;
            Split(BLOCK + HEAD + REST, 16) == (BLOCK, tail) && tail[..8] == HEAD && tail[8..] == REST
  {
    hide Split;
    var m := BLOCK + HEAD + REST;
    SplitAt(m, 16);
    assert m[..16] == BLOCK && m[16..] == HEAD + REST;
  }

  lemma BodyOfBlock(h: Hashes)
    ensures Body(h, BLOCK) == Step(h, BLOCK)
  {
    hide Fold, Step;
    BodyStep(h, BLOCK);
    BodyNothing(Step(h, BLOCK), []);
    assert BLOCK[..16] == BLOCK && BLOCK[16..] == [];
  }

  /** A digest that takes a block and both words of a tail. */
  lemma DigestOfCounting()
    ensures Digest(0xfeed_beef, BLOCK + HEAD + REST) == Hashes(0x52a5_5338_73ad_155f, 0x582d_c61a_d746_a532)
  {
    hide Split, Fold, Premix1, Premix2, Rotate27, Rotate31, Fmix64, TailWord, ReadWord, Xor, Bits;
    CountingParts();
    BodyOfBlock(Hashes(0xfeed_beef, 0xfeed_beef));
    BlockIsRead();
    WordsOfTail();
    PremixedBlock();
    MixedBlock();
    assert Plus(0x58a2_c45b_0efb_16be, 0xfeed_beef) == 0x58a2_c45c_0de8_d5ad;
    assert Times(0x58a2_c45c_0de8_d5ad, 0x5) == 0xbb2d_d5cc_458c_2c61;
    assert Plus(0xbb2d_d5cc_458c_2c61, 0x52dc_e729) == 0xbb2d_d5cc_9869_138a;
    assert Plus(0xaca1_bd61_62a0_fc39, 0xbb2d_d5cc_9869_138a) == 0x67cf_932d_fb0a_0fc3;
    assert Times(0x67cf_932d_fb0a_0fc3, 0x5) == 0x070d_dfe5_e732_4ecf;
    assert Plus(0x070d_dfe5_e732_4ecf, 0x3849_5ab5) == 0x070d_dfe6_1f7b_a984;
    PremixedTail();
    XorOf(0xbb2d_d5cc_9869_138a, 0x25b7_2389_0927_2722, 0x9e9a_f645_914e_34a8);
    XorOf(0x070d_dfe6_1f7b_a984, 0xf5b3_4b0f_c690_4ebd, 0xf2be_94e9_d9eb_e739);
    XorOf(0x9e9a_f645_914e_34a8, 0x1f, 0x9e9a_f645_914e_34b7);
    XorOf(0xf2be_94e9_d9eb_e739, 0x1f, 0xf2be_94e9_d9eb_e726);
    assert Plus(0x9e9a_f645_914e_34b7, 0xf2be_94e9_d9eb_e726) == 0x9159_8b2f_6b3a_1bdd;
    assert Plus(0xf2be_94e9_d9eb_e726, 0x9159_8b2f_6b3a_1bdd) == 0x8418_2019_4526_0303;
    FmixOfCounting();
    assert Plus(0x4d1c_e056_1013_858c, 0x0588_72e2_6399_8fd3) == 0x52a5_5338_73ad_155f;
    assert Plus(0x0588_72e2_6399_8fd3, 0x52a5_5338_73ad_155f) == 0x582d_c61a_d746_a532;
  }
}
