/** What the steps of MurmurHash3 x86 32-bit lose: nothing. Every step is undone by an inverse written out here, so a
digest tells any two messages apart that have the same length and differ within one block. Also some known digests. */
module MurmurX86ShortLaws {
  import opened Bytes
  import opened MurmurWords
  import opened MurmurBits
  import opened MurmurBlocks
  import opened MurmurWordLaws
  import opened MurmurX86Short

  // ----- inverses -----

  function Unpremix(v: Word32): Word32 {
    Times32(RotateBack32By15(Times32(v, 0x56ed_309b)), 0xdee1_3bb1)
  }

  lemma PremixUndone(v: Word32)
    ensures Unpremix(Premix(v)) == v
  {
    hide Times32, RotateBack32By15, Rotate15;
    var w := Times32(v, 0xcc9e_2d51);
    FactorUndone32(v, 0xcc9e_2d51, 0xdee1_3bb1);
    RotationsUndone32(w);
    FactorUndone32(Rotate15(w), 0x1b87_3593, 0x56ed_309b);
  }

  /** The state before a premixed word went in, and the word that leads from one state to another. */
  function StateBefore(after: Word32, block: Word32): Word32 {
    Xor32(RotateBack32By13(Unscale32(0xe654_6b64, after)), block)
  }

  function WordBetween(before: Word32, after: Word32): Word32 {
    Xor32(RotateBack32By13(Unscale32(0xe654_6b64, after)), before)
  }

  lemma MixUndone(h: Word32, block: Word32)
    ensures StateBefore(MixHash(h, block), block) == h && WordBetween(h, MixHash(h, block)) == block
  {
    hide Times32, Plus32, Xor32, Rotate13, RotateBack32By13, Unscale32;
    var x := Xor32(h, block);
    XorUndone32(h, block);
    RotationsUndone32(x);
    ScaleUndone32(0xe654_6b64, Rotate13(x));
  }

  // ----- digests tell messages apart -----

  lemma StepTellsStates(s: Word32, t: Word32, b: seq<byte>)
    requires |b| == 4 && Step(s, b) == Step(t, b)
    ensures s == t
  {
    hide MixHash, Premix, ReadWord32, StateBefore, WordBetween;
    MixUndone(s, Premix(ReadWord32(b, 0)));
    MixUndone(t, Premix(ReadWord32(b, 0)));
  }

  lemma StepTellsBlocks(s: Word32, b: seq<byte>, c: seq<byte>)
    requires |b| == |c| == 4 && Step(s, b) == Step(s, c)
    ensures b == c
  {
    hide MixHash, Premix, Unpremix, ReadWord32, StateBefore, WordBetween;
    MixUndone(s, Premix(ReadWord32(b, 0)));
    MixUndone(s, Premix(ReadWord32(c, 0)));
    PremixUndone(ReadWord32(b, 0));
    PremixUndone(ReadWord32(c, 0));
    ReadWord32Tells(b, c, 0);
    assert b == b[0..4] && c == c[0..4];
  }

  lemma StepTells()
    ensures TellsStates(Step, 4) && TellsBlocks(Step, 4)
  {
    hide Step;
    forall s: Word32, t: Word32, b: seq<byte> | |b| == 4 && Step(s, b) == Step(t, b) ensures s == t {
      StepTellsStates(s, t, b);
    }
    forall s: Word32, b: seq<byte>, c: seq<byte> | |b| == |c| == 4 && Step(s, b) == Step(s, c) ensures b == c {
      StepTellsBlocks(s, b, c);
    }
  }

  lemma Fmix32Tells(g: Word32, h: Word32)
    requires Fmix32(g) == Fmix32(h)
    ensures g == h
  {
    hide *;
    Fmix32Undone(g);
    Fmix32Undone(h);
  }

  lemma FinishTellsStates(tail: seq<byte>, g: Word32, h: Word32, length: Word32)
    requires FinishTail(tail, g, length) == FinishTail(tail, h, length)
    ensures g == h
  {
    hide Xor32, Premix, Fmix32, Number32, PartialWord;
    var w := Premix(Number32(PartialWord(tail, |tail|, 0)));
    var g', h' := if tail == [] then g else Xor32(g, w), if tail == [] then h else Xor32(h, w);
    Fmix32Tells(Xor32(g', length), Xor32(h', length));
    XorTells32(length, g', h');
    XorTells32(w, g, h);
  }

  lemma FinishTellsTails(s: seq<byte>, u: seq<byte>, h: Word32, length: Word32)
    requires |s| == |u| < 4 && FinishTail(s, h, length) == FinishTail(u, h, length)
    ensures s == u
  {
    hide Xor32, Premix, Unpremix, Fmix32, Number32, PartialWord;
    if s != [] {
      var x, y := Number32(PartialWord(s, |s|, 0)), Number32(PartialWord(u, |u|, 0));
      Fmix32Tells(Xor32(Xor32(h, Premix(x)), length), Xor32(Xor32(h, Premix(y)), length));
      XorTells32(length, Xor32(h, Premix(x)), Xor32(h, Premix(y)));
      XorTells32(h, Premix(x), Premix(y));
      PremixUndone(x);
      PremixUndone(y);
      NumberTells(PartialWord(s, |s|, 0), PartialWord(u, |u|, 0));
      PartialWordTells(s, u, |s|, 0);
      assert s == s[0..|s|] && u == u[0..|u|];
    }
  }

  /** Two different messages of one length that agree outside one block of four bytes have different digests. */
  lemma DigestTellsBlocks(seed: Word32, m: seq<byte>, n: seq<byte>, at: nat)
    requires at % 4 == 0 && DifferAt(m, n, at, 4) && Digest(seed, m) == Digest(seed, n)
    ensures m == n
  {
    hide Split, DifferAt, Fold, FinishTail, Step;
    var (b, s) := Split(m, 4);
    var (c, u) := Split(n, 4);
    SplitDiffers(m, n, at, 4);
    SameLength(m, n, at, 4);
    StepTells();
    if at + 4 <= |b| {
      FinishTellsStates(s, Body(seed, b), Body(seed, c), |m| % 0x1_0000_0000);
      FoldTellsBlocks(Step, 4, seed, b, c, at);
    } else {
      FinishTellsTails(s, u, Body(seed, b), |m| % 0x1_0000_0000);
    }
  }

  /** A message has different digests for different seeds. */
  lemma DigestTellsSeeds(seed: Word32, other: Word32, m: seq<byte>)
    requires Digest(seed, m) == Digest(other, m)
    ensures seed == other
  {
    hide Split, Fold, FinishTail, Step;
    var (b, s) := Split(m, 4);
    StepTells();
    FinishTellsStates(s, Body(seed, b), Body(other, b), |m| % 0x1_0000_0000);
    FoldTellsStates(Step, 4, seed, other, b);
  }

  // ----- known digests -----

  lemma PremixedHello()
    ensures Premix(0x6c6c_6568) == 0xa0ae_7465 && Premix(0x6f) == 0x73bc_d07e
  {
    hide Bits32, Xor32, Shift13, Shift16, Rotate13, Rotate15, Rotate17, Rotate19, LaneRotate32;
    assert Times32(0x6c6c_6568, 0xcc9e_2d51) == 0xd24f_5de8;
    RotationsOf32(0xd24f_5de8);
    assert Rotate15(0xd24f_5de8) == 0xaef4_6927;
    assert Times32(0xaef4_6927, 0x1b87_3593) == 0xa0ae_7465;
    assert Times32(0x6f, 0xcc9e_2d51) == 0xb895_a61f;
    RotationsOf32(0xb895_a61f);
    assert Rotate15(0xb895_a61f) == 0xd30f_dc4a;
    assert Times32(0xd30f_dc4a, 0x1b87_3593) == 0x73bc_d07e;
  }

  lemma MixedHello()
    ensures MixHash(0, 0xa0ae_7465) == 0xef13_efcd
  {
    hide Bits32, Xor32, Shift13, Shift16, Rotate13, Rotate15, Rotate17, Rotate19, LaneRotate32;
    XorOf32(0x0, 0xa0ae_7465, 0xa0ae_7465);
    RotationsOf32(0xa0ae_7465);
    assert Rotate13(0xa0ae_7465) == 0xce8c_b415;
    assert Times32(0xce8c_b415, 0x5) == 0x08bf_8469;
    assert Plus32(0x08bf_8469, 0xe654_6b64) == 0xef13_efcd;
  }

  lemma FmixOfHello()
    ensures Fmix32(0x9caf_3fb6) == 0x248b_fa47
  {
    hide Bits32, Xor32, Shift13, Shift16, Rotate13, Rotate15, Rotate17, Rotate19, LaneRotate32;
    ShiftsOf32(0x9caf_3fb6);
    assert Shift16(0x9caf_3fb6) == 0x9caf;
    XorOf32(0x9caf_3fb6, 0x9caf, 0x9caf_a319);
    assert Times32(0x9caf_a319, 0x85eb_ca6b) == 0xc90d_e573;
    ShiftsOf32(0xc90d_e573);
    assert Shift13(0xc90d_e573) == 0x0006_486f;
    XorOf32(0xc90d_e573, 0x0006_486f, 0xc90b_ad1c);
    assert Times32(0xc90b_ad1c, 0xc2b2_ae35) == 0x248b_decc;
    ShiftsOf32(0x248b_decc);
    assert Shift16(0x248b_decc) == 0x248b;
    XorOf32(0x248b_decc, 0x248b, 0x248b_fa47);
  }

  lemma WordsOfHello()
    ensures ReadWord32([104, 101, 108, 108], 0) == 0x6c6c_6568
    ensures Number32(PartialWord([111], 1, 0)) == 0x6f
  {
  }

  /** The published digest of "hello", which takes a block and a tail. */
  lemma DigestOfHello()
    ensures Digest(0, [104, 101, 108, 108, 111]) == 0x248b_fa47
  {
    hide Split, Fold, Premix, MixHash, Fmix32, ReadWord32, PartialWord, Xor32, Bits32;
    var m: seq<byte> := [104, 101, 108, 108, 111];
    SplitAt(m, 4);
    assert m[..4] == [104, 101, 108, 108] && m[4..] == [111];
    BodyStep(0, m[..4]);
    BodyNothing(Step(0, m[..4]), []);
    assert m[..4][..4] == m[..4] && m[..4][4..] == [];
    WordsOfHello();
    PremixedHello();
    MixedHello();
    XorOf32(0xef13_efcd, 0x73bc_d07e, 0x9caf_3fb3);
    XorOf32(0x9caf_3fb3, 0x5, 0x9caf_3fb6);
    FmixOfHello();
  }

  lemma PremixedThree()
    ensures Premix(0x0003_0201) == 0x041e_542f
  {
    hide Bits32, Xor32, Shift13, Shift16, Rotate13, Rotate15, Rotate17, Rotate19, LaneRotate32;
    assert Times32(0x0003_0201, 0xcc9e_2d51) == 0x90eb_cf51;
    RotationsOf32(0x90eb_cf51);
    assert Rotate15(0x90eb_cf51) == 0xe7a8_c875;
    assert Times32(0xe7a8_c875, 0x1b87_3593) == 0x041e_542f;
  }

  lemma FmixOfThree()
    ensures Fmix32(0x041e_542c) == 0x80d1_d204
  {
    hide Bits32, Xor32, Shift13, Shift16, Rotate13, Rotate15, Rotate17, Rotate19, LaneRotate32;
    ShiftsOf32(0x041e_542c);
    assert Shift16(0x041e_542c) == 0x41e;
    XorOf32(0x041e_542c, 0x41e, 0x041e_5032);
    assert Times32(0x041e_5032, 0x85eb_ca6b) == 0x3bd8_f8e6;
    ShiftsOf32(0x3bd8_f8e6);
    assert Shift13(0x3bd8_f8e6) == 0x0001_dec7;
    XorOf32(0x3bd8_f8e6, 0x0001_dec7, 0x3bd9_2621);
    assert Times32(0x3bd9_2621, 0xc2b2_ae35) == 0x80d1_52d5;
    ShiftsOf32(0x80d1_52d5);
    assert Shift16(0x80d1_52d5) == 0x80d1;
    XorOf32(0x80d1_52d5, 0x80d1, 0x80d1_d204);
  }

  lemma WordOfThree()
    ensures Number32(PartialWord([1, 2, 3], 3, 0)) == 0x0003_0201
  {
  }

  /** The published digest of the bytes 1, 2, 3, which takes a tail only. */
  lemma DigestOfThree()
    ensures Digest(0, [1, 2, 3]) == 2_161_234_436
  {
    hide Split, Fold, Step, Premix, Fmix32, PartialWord, Xor32, Bits32;
    var m: seq<byte> := [1, 2, 3];
    SplitAt(m, 4);
    BodyNothing(0, []);
    WordOfThree();
    PremixedThree();
    XorOf32(0x0, 0x041e_542f, 0x041e_542f);
    XorOf32(0x041e_542f, 0x3, 0x041e_542c);
    FmixOfThree();
  }
}
