/** What the steps of MurmurHash3 x86 128-bit lose: nothing. Every step is undone by an inverse written out here, so a
digest tells any two messages apart that have the same length and differ within one block. Also some known digests. */
module MurmurX86Laws {
  import opened Bytes
  import opened MurmurWords
  import opened MurmurBits
  import opened MurmurBlocks
  import opened MurmurWordLaws
  import opened MurmurX86

  // ----- inverses -----

  function RotateBack(lane: nat, x: Word32): Word32 {
    if lane == 0 then RotateBack32By15(x) else if lane == 1 then RotateBack32By16(x)
    else if lane == 2 then RotateBack32By17(x) else RotateBack32By18(x)
  }

  function Unpremix(lane: nat, v: Word32): Word32 {
    if lane == 0 then Times32(RotateBack(0, Times32(v, 0xdf13_0eb9)), 0x89c9_5413)
    else if lane == 1 then Times32(RotateBack(1, Times32(v, 0x7478_62ed)), 0xdf13_0eb9)
    else if lane == 2 then Times32(RotateBack(2, Times32(v, 0x58d6_4a9b)), 0x7478_62ed)
    else Times32(RotateBack(3, Times32(v, 0x89c9_5413)), 0x58d6_4a9b)
  }

  lemma LaneUndone(lane: nat, v: Word32, c: Word32, c': Word32, d: Word32, d': Word32)
    requires lane < 4 && c * c' % 0x1_0000_0000 == 1 && d * d' % 0x1_0000_0000 == 1
    ensures Times32(RotateBack(lane, Times32(Times32(LaneRotate32(lane, Times32(v, c)), d), d')), c') == v
  {
    hide Times32, RotateBack32By15, RotateBack32By16, RotateBack32By17, RotateBack32By18, LaneRotate32;
    var w := Times32(v, c);
    FactorUndone32(v, c, c');
    RotationsUndone32(w);
    FactorUndone32(LaneRotate32(lane, w), d, d');
  }

  lemma PremixUndone(lane: nat, v: Word32)
    requires lane < 4
    ensures Unpremix(lane, Premix(lane, v)) == v
  {
    hide Times32, RotateBack, LaneRotate32;
    LaneUndone(0, v, 0x239b_961b, 0x89c9_5413, 0xab0e_9789, 0xdf13_0eb9);
    LaneUndone(1, v, 0xab0e_9789, 0xdf13_0eb9, 0x38b3_4ae5, 0x7478_62ed);
    LaneUndone(2, v, 0x38b3_4ae5, 0x7478_62ed, 0xa1e3_8b93, 0x58d6_4a9b);
    LaneUndone(3, v, 0xa1e3_8b93, 0x58d6_4a9b, 0x239b_961b, 0x89c9_5413);
  }

  /** What a lane held when it had met its word and turned, from what it became and the lane that was added. */
  function Unmixed(addend: Word32, after: Word32, added: Word32): Word32 {
    Minus32(Unscale32(addend, after), added)
  }

  lemma LaneMixUndone(addend: Word32, turned: Word32, added: Word32)
    ensures Unmixed(addend, ScaleHash(addend, Plus32(turned, added)), added) == turned
  {
    hide Times32, Plus32, Minus32, Unscale32;
    ScaleUndone32(addend, Plus32(turned, added));
    PlusUndone32(turned, added);
  }

  /** The state before four premixed words went in. */
  function StateBefore(after: Hashes, b1: Word32, b2: Word32, b3: Word32, b4: Word32): Hashes {
    var h4 := Xor32(RotateBack32By13(Unmixed(0x32ac_3b17, after.h4, after.h1)), b4);
    var h3 := Xor32(RotateBack32By15(Unmixed(0x96cd_1c35, after.h3, h4)), b3);
    var h2 := Xor32(RotateBack32By17(Unmixed(0x0bca_a747, after.h2, h3)), b2);
    Hashes(Xor32(RotateBack32By19(Unmixed(0x561c_cd1b, after.h1, h2)), b1), h2, h3, h4)
  }

  /** The premixed words that lead from one state to another. */
  function WordsBetween(before: Hashes, after: Hashes): (Word32, Word32, Word32, Word32) {
    (Xor32(RotateBack32By19(Unmixed(0x561c_cd1b, after.h1, before.h2)), before.h1),
     Xor32(RotateBack32By17(Unmixed(0x0bca_a747, after.h2, before.h3)), before.h2),
     Xor32(RotateBack32By15(Unmixed(0x96cd_1c35, after.h3, before.h4)), before.h3),
     Xor32(RotateBack32By13(Unmixed(0x32ac_3b17, after.h4, after.h1)), before.h4))
  }

  lemma MixUndone(h: Hashes, b1: Word32, b2: Word32, b3: Word32, b4: Word32)
    ensures StateBefore(MixHashes(h, b1, b2, b3, b4), b1, b2, b3, b4) == h
    ensures WordsBetween(h, MixHashes(h, b1, b2, b3, b4)) == (b1, b2, b3, b4)
  {
    hide Xor32, Plus32, ScaleHash, Unmixed, Rotate19, Rotate17, Rotate15, Rotate13, RotateBack32By19, RotateBack32By17,
         RotateBack32By15, RotateBack32By13;
    var x1, x2, x3, x4 := Xor32(h.h1, b1), Xor32(h.h2, b2), Xor32(h.h3, b3), Xor32(h.h4, b4);
    var after := MixHashes(h, b1, b2, b3, b4);
    XorUndone32(h.h1, b1);
    XorUndone32(h.h2, b2);
    XorUndone32(h.h3, b3);
    XorUndone32(h.h4, b4);
    RotationsUndone32(x1);
    RotationsUndone32(x2);
    RotationsUndone32(x3);
    RotationsUndone32(x4);
    LaneMixUndone(0x561c_cd1b, Rotate19(x1), h.h2);
    LaneMixUndone(0x0bca_a747, Rotate17(x2), h.h3);
    LaneMixUndone(0x96cd_1c35, Rotate15(x3), h.h4);
    LaneMixUndone(0x32ac_3b17, Rotate13(x4), after.h1);
  }

  function Unspread(h: Hashes): Hashes {
    var h2, h3, h4 := Minus32(h.h2, h.h1), Minus32(h.h3, h.h1), Minus32(h.h4, h.h1);
    Hashes(Minus32(Minus32(Minus32(h.h1, h4), h3), h2), h2, h3, h4)
  }

  lemma SpreadUndone(h: Hashes)
    ensures Unspread(Spread(h)) == h
  {
    hide Plus32, Minus32;
    var s := Spread(h).h1;
    PlusUndone32(h.h2, s);
    PlusUndone32(h.h3, s);
    PlusUndone32(h.h4, s);
    PlusUndone32(Plus32(Plus32(h.h1, h.h2), h.h3), h.h4);
    PlusUndone32(Plus32(h.h1, h.h2), h.h3);
    PlusUndone32(h.h1, h.h2);
  }

  /** The state that a digest was made of. */
  function Unfinalized(d: Hashes, length: Word32): Hashes {
    var f := Unspread(d);
    var s := Unspread(Hashes(Unmix32(f.h1), Unmix32(f.h2), Unmix32(f.h3), Unmix32(f.h4)));
    Hashes(Xor32(s.h1, length), Xor32(s.h2, length), Xor32(s.h3, length), Xor32(s.h4, length))
  }

  lemma FinalizeUndone(h: Hashes, length: Word32)
    ensures Unfinalized(Finalize(h, length), length) == h
  {
    hide Xor32, Spread, Unspread, Fmix32, Unmix32;
    var x := Hashes(Xor32(h.h1, length), Xor32(h.h2, length), Xor32(h.h3, length), Xor32(h.h4, length));
    var s := Spread(x);
    SpreadUndone(x);
    SpreadUndone(Hashes(Fmix32(s.h1), Fmix32(s.h2), Fmix32(s.h3), Fmix32(s.h4)));
    Fmix32Undone(s.h1);
    Fmix32Undone(s.h2);
    Fmix32Undone(s.h3);
    Fmix32Undone(s.h4);
    XorUndone32(h.h1, length);
    XorUndone32(h.h2, length);
    XorUndone32(h.h3, length);
    XorUndone32(h.h4, length);
  }

  // ----- digests tell messages apart -----

  lemma StepTellsStates(s: Hashes, t: Hashes, b: seq<byte>)
    requires |b| == 16 && Step(s, b) == Step(t, b)
    ensures s == t
  {
    hide MixHashes, BlockWords, StateBefore, WordsBetween;
    var w := BlockWords(b);
    FourWords(b);
    MixUndone(s, w[0], w[1], w[2], w[3]);
    MixUndone(t, w[0], w[1], w[2], w[3]);
  }

  lemma FourWords(b: seq<byte>)
    requires |b| == 16
    ensures BlockWords(b) == [Premix(0, ReadWord32(b, 4 * 0)), Premix(1, ReadWord32(b, 4 * 1)),
                              Premix(2, ReadWord32(b, 4 * 2)), Premix(3, ReadWord32(b, 4 * 3))]
  {
    hide Premix, ReadWord32;
  }

  lemma StepTellsBlocks(s: Hashes, b: seq<byte>, c: seq<byte>)
    requires |b| == |c| == 16 && Step(s, b) == Step(s, c)
    ensures b == c
  {
    hide MixHashes, Premix, ReadWord32, BlockWords, StateBefore, WordsBetween;
    var v, w := BlockWords(b), BlockWords(c);
    FourWords(b);
    FourWords(c);
    MixUndone(s, v[0], v[1], v[2], v[3]);
    MixUndone(s, w[0], w[1], w[2], w[3]);
    forall i: nat | i < 4 ensures b[4 * i..4 * i + 4] == c[4 * i..4 * i + 4] {
      assert v[i] == w[i];
      WordTells(b, c, i);
    }
    FourParts(b);
    FourParts(c);
  }

  lemma FourParts(b: seq<byte>)
    requires |b| == 16
    ensures b == b[4 * 0..4 * 0 + 4] + b[4 * 1..4 * 1 + 4] + b[4 * 2..4 * 2 + 4] + b[4 * 3..4 * 3 + 4]
  {
  }

  lemma WordTells(b: seq<byte>, c: seq<byte>, i: nat)
    requires i < 4 && |b| == |c| == 16 && Premix(i, ReadWord32(b, 4 * i)) == Premix(i, ReadWord32(c, 4 * i))
    ensures b[4 * i..4 * i + 4] == c[4 * i..4 * i + 4]
  {
    hide Premix, Unpremix, ReadWord32;
    PremixUndone(i, ReadWord32(b, 4 * i));
    PremixUndone(i, ReadWord32(c, 4 * i));
    ReadWord32Tells(b, c, i);
  }

  lemma StepTells()
    ensures TellsStates(Step, 16) && TellsBlocks(Step, 16)
  {
    hide Step;
    forall s: Hashes, t: Hashes, b: seq<byte> | |b| == 16 && Step(s, b) == Step(t, b) ensures s == t {
      StepTellsStates(s, t, b);
    }
    forall s: Hashes, b: seq<byte>, c: seq<byte> | |b| == |c| == 16 && Step(s, b) == Step(s, c) ensures b == c {
      StepTellsBlocks(s, b, c);
    }
  }

  lemma FinalizeTells(g: Hashes, h: Hashes, length: Word32)
    requires Finalize(g, length) == Finalize(h, length)
    ensures g == h
  {
    hide *;
    FinalizeUndone(g, length);
    FinalizeUndone(h, length);
  }

  lemma TailLaneTellsStates(tail: seq<byte>, lane: nat, g: Word32, h: Word32)
    requires lane < 4 && TailLane(tail, lane, g) == TailLane(tail, lane, h)
    ensures g == h
  {
    hide Xor32, Premix, TailWord;
    XorTells32(Premix(lane, TailWord(tail, lane)), g, h);
  }

  lemma FinishTellsStates(tail: seq<byte>, g: Hashes, h: Hashes, length: Word32)
    requires FinishTail(tail, g, length) == FinishTail(tail, h, length)
    ensures g == h
  {
    hide TailLane, Finalize;
    FinalizeTells(Met(tail, g), Met(tail, h), length);
    TailLaneTellsStates(tail, 0, g.h1, h.h1);
    TailLaneTellsStates(tail, 1, g.h2, h.h2);
    TailLaneTellsStates(tail, 2, g.h3, h.h3);
    TailLaneTellsStates(tail, 3, g.h4, h.h4);
  }

  /** The lanes when they have met the tail. */
  function Met(tail: seq<byte>, h: Hashes): Hashes {
    Hashes(TailLane(tail, 0, h.h1), TailLane(tail, 1, h.h2), TailLane(tail, 2, h.h3), TailLane(tail, 3, h.h4))
  }

  /** The part of a tail that a lane meets. */
  function Part(tail: seq<byte>, lane: nat): seq<byte> {
    if |tail| <= 4 * lane then [] else tail[4 * lane..if |tail| < 4 * lane + 4 then |tail| else 4 * lane + 4]
  }

  lemma TailLaneTellsTails(s: seq<byte>, u: seq<byte>, lane: nat, h: Word32)
    requires lane < 4 && |s| == |u| && TailLane(s, lane, h) == TailLane(u, lane, h)
    ensures Part(s, lane) == Part(u, lane)
  {
    hide Xor32, Premix, Unpremix, Number32, PartialWord;
    if |s| > 4 * lane {
      var x, y := TailWord(s, lane), TailWord(u, lane);
      XorTells32(h, Premix(lane, x), Premix(lane, y));
      PremixUndone(lane, x);
      PremixUndone(lane, y);
      NumberTells(PartialWord(s, |s|, lane), PartialWord(u, |u|, lane));
      var n := if |s| < 4 * lane + 4 then |s| else 4 * lane + 4;
      PartialWordStep(s, |s|, lane);
      PartialWordStep(u, |u|, lane);
      PartialWordTells(s, u, n, lane);
    }
  }

  lemma PartsJoin(tail: seq<byte>)
    requires |tail| < 16
    ensures tail == Part(tail, 0) + Part(tail, 1) + Part(tail, 2) + Part(tail, 3)
  {
  }

  lemma FinishTellsTails(s: seq<byte>, u: seq<byte>, h: Hashes, length: Word32)
    requires |s| == |u| < 16 && FinishTail(s, h, length) == FinishTail(u, h, length)
    ensures s == u
  {
    hide TailLane, Finalize, Part;
    FinalizeTells(Met(s, h), Met(u, h), length);
    TailLaneTellsTails(s, u, 0, h.h1);
    TailLaneTellsTails(s, u, 1, h.h2);
    TailLaneTellsTails(s, u, 2, h.h3);
    TailLaneTellsTails(s, u, 3, h.h4);
    PartsJoin(s);
    PartsJoin(u);
  }

  /** Two different messages of one length that agree outside one block of sixteen bytes have different digests. */
  lemma DigestTellsBlocks(seed: Word32, m: seq<byte>, n: seq<byte>, at: nat)
    requires at % 16 == 0 && DifferAt(m, n, at, 16) && Digest(seed, m) == Digest(seed, n)
    ensures m == n
  {
    hide Split, DifferAt, Fold, FinishTail, Step;
    var start := Hashes(seed, seed, seed, seed);
    var (b, s) := Split(m, 16);
    var (c, u) := Split(n, 16);
    SplitDiffers(m, n, at, 16);
    SameLength(m, n, at, 16);
    StepTells();
    if at + 16 <= |b| {
      FinishTellsStates(s, Body(start, b), Body(start, c), |m| % 0x1_0000_0000);
      FoldTellsBlocks(Step, 16, start, b, c, at);
    } else {
      FinishTellsTails(s, u, Body(start, b), |m| % 0x1_0000_0000);
    }
  }

  /** A message has different digests for different seeds. */
  lemma DigestTellsSeeds(seed: Word32, other: Word32, m: seq<byte>)
    requires Digest(seed, m) == Digest(other, m)
    ensures seed == other
  {
    hide Split, Fold, FinishTail, Step;
    var (b, s) := Split(m, 16);
    var g, h := Hashes(seed, seed, seed, seed), Hashes(other, other, other, other);
    StepTells();
    FinishTellsStates(s, Body(g, b), Body(h, b), |m| % 0x1_0000_0000);
    FoldTellsStates(Step, 16, g, h, b);
  }

  // ----- known digests -----

  // The bytes from 0 to 30: a block and the four words of a tail.

  const BLOCK: seq<byte> := [0, 1, 2, 3, 4, 5, 6, 7, 8, 9, 10, 11, 12, 13, 14, 15]
  const TAIL: seq<byte> := [16, 17, 18, 19, 20, 21, 22, 23, 24, 25, 26, 27, 28, 29, 30]

  lemma TailWords(tail: seq<byte>)
    requires |tail| == 15
    ensures TailWord(tail, 0) == ReadWord32(tail, 0) && TailWord(tail, 1) == ReadWord32(tail, 4)
    ensures TailWord(tail, 2) == ReadWord32(tail, 8)
    ensures TailWord(tail, 3) == Number32(Or32(Or32(Or32(0, Byte32(tail[12], 0)), Byte32(tail[13], 1)),
                                               Byte32(tail[14], 2)))
  {
    hide Or32, Byte32, Number32, PartialWord, ReadWord32;
    ReadWord32IsPartial(tail, 0);
    ReadWord32IsPartial(tail, 1);
    ReadWord32IsPartial(tail, 2);
    PartialWordStep(tail, 15, 0);
    PartialWordStep(tail, 15, 1);
    PartialWordStep(tail, 15, 2);
    PartialWordStep(tail, 15, 3);
    PartialWordStep(tail, 14, 3);
    PartialWordStep(tail, 13, 3);
    PartialWordStep(tail, 12, 3);
  }

  lemma PremixOfThree()
    ensures Premix(0, 0x0003_0201) == 0xebfd_dcec
  {
    hide Bits32, Xor32, Rotate13, Rotate15, Rotate17, Rotate19, LaneRotate32;
    assert Times32(0x0003_0201, 0x239b_961b) == 0x1d18_cc1b;
    RotationsOf32(0x1d18_cc1b);
    assert LaneRotate32(0, 0x1d18_cc1b) == 0x660d_8e8c;
    assert Times32(0x660d_8e8c, 0xab0e_9789) == 0xebfd_dcec;
  }

  lemma FmixOfThree()
    ensures Fmix32(0xebfd_dcf8) == 0xb8cb_cceb
    ensures Fmix32(0xebfd_dcfb) == 0xbf11_dd52
  {
    hide Bits32, Xor32, Shift13, Shift16;
    ShiftsOf32(0xebfd_dcf8);
    assert Shift16(0xebfd_dcf8) == 0xebfd;
    XorOf32(0xebfd_dcf8, 0xebfd, 0xebfd_3705);
    assert Times32(0xebfd_3705, 0x85eb_ca6b) == 0x8ad6_f117;
    ShiftsOf32(0x8ad6_f117);
    assert Shift13(0x8ad6_f117) == 0x0004_56b7;
    XorOf32(0x8ad6_f117, 0x0004_56b7, 0x8ad2_a7a0);
    assert Times32(0x8ad2_a7a0, 0xc2b2_ae35) == 0xb8cb_7420;
    ShiftsOf32(0xb8cb_7420);
    assert Shift16(0xb8cb_7420) == 0xb8cb;
    XorOf32(0xb8cb_7420, 0xb8cb, 0xb8cb_cceb);
    ShiftsOf32(0xebfd_dcfb);
    assert Shift16(0xebfd_dcfb) == 0xebfd;
    XorOf32(0xebfd_dcfb, 0xebfd, 0xebfd_3706);
    assert Times32(0xebfd_3706, 0x85eb_ca6b) == 0x10c2_bb82;
    ShiftsOf32(0x10c2_bb82);
    assert Shift13(0x10c2_bb82) == 0x8615;
    XorOf32(0x10c2_bb82, 0x8615, 0x10c2_3d97);
    assert Times32(0x10c2_3d97, 0xc2b2_ae35) == 0xbf11_6243;
    ShiftsOf32(0xbf11_6243);
    assert Shift16(0xbf11_6243) == 0xbf11;
    XorOf32(0xbf11_6243, 0xbf11, 0xbf11_dd52);
  }

  lemma WordOfThree()
    ensures TailWord([1, 2, 3], 0) == 0x0003_0201
  {
    PartialWordStep([1, 2, 3], 1, 0);
    PartialWordStep([1, 2, 3], 2, 0);
    PartialWordStep([1, 2, 3], 3, 0);
  }

  /** The published digest of the bytes 1, 2, 3. */
  lemma DigestOfThree()
    ensures Digest(0, [1, 2, 3]) == Hashes(4_127_286_497, 3_037_938_227, 3_037_938_227, 3_037_938_227)
  {
    hide Split, Fold, Step, Premix, Fmix32, TailWord, Xor32, Bits32;
    var m: seq<byte> := [1, 2, 3];
    SplitAt(m, 16);
    BodyNothing(Hashes(0, 0, 0, 0), []);
    WordOfThree();
    PremixOfThree();
    XorOf32(0x0, 0xebfd_dcec, 0xebfd_dcec);
    XorOf32(0xebfd_dcec, 0x3, 0xebfd_dcef);
    XorOf32(0x0, 0x3, 0x3);
    assert Plus32(0xebfd_dcef, 0x3) == 0xebfd_dcf2;
    assert Plus32(0xebfd_dcf2, 0x3) == 0xebfd_dcf5;
    assert Plus32(0xebfd_dcf5, 0x3) == 0xebfd_dcf8;
    assert Plus32(0x3, 0xebfd_dcf8) == 0xebfd_dcfb;
    FmixOfThree();
    assert Plus32(0xb8cb_cceb, 0xbf11_dd52) == 0x77dd_aa3d;
    assert Plus32(0x77dd_aa3d, 0xbf11_dd52) == 0x36ef_878f;
    assert Plus32(0x36ef_878f, 0xbf11_dd52) == 0xf601_64e1;
    assert Plus32(0xbf11_dd52, 0xf601_64e1) == 0xb513_4233;
  }

  lemma PremixedBlock()
    ensures Premix(0, 0x0302_0100) == 0x906a_cc96
    ensures Premix(1, 0x0706_0504) == 0x7ca7_fc3e
    ensures Premix(2, 0x0b0a_0908) == 0xd827_12d4
    ensures Premix(3, 0x0f0e_0d0c) == 0xc9e1_e1a4
  {
    hide Bits32, Xor32, Rotate13, Rotate15, Rotate17, Rotate19, LaneRotate32;
    assert Times32(0x0302_0100, 0x239b_961b) == 0x18cc_1b00;
    RotationsOf32(0x18cc_1b00);
    assert LaneRotate32(0, 0x18cc_1b00) == 0x0d80_0c66;
    assert Times32(0x0d80_0c66, 0xab0e_9789) == 0x906a_cc96;
    assert Times32(0x0706_0504, 0xab0e_9789) == 0x4166_0b24;
    RotationsOf32(0x4166_0b24);
    assert LaneRotate32(1, 0x4166_0b24) == 0x0b24_4166;
    assert Times32(0x0b24_4166, 0x38b3_4ae5) == 0x7ca7_fc3e;
    assert Times32(0x0b0a_0908, 0x38b3_4ae5) == 0xd72e_6428;
    RotationsOf32(0xd72e_6428);
    assert LaneRotate32(2, 0xd72e_6428) == 0xc851_ae5c;
    assert Times32(0xc851_ae5c, 0xa1e3_8b93) == 0xd827_12d4;
    assert Times32(0x0f0e_0d0c, 0xa1e3_8b93) == 0x63cb_01e4;
    RotationsOf32(0x63cb_01e4);
    assert LaneRotate32(3, 0x63cb_01e4) == 0x0791_8f2c;
    assert Times32(0x0791_8f2c, 0x239b_961b) == 0xc9e1_e1a4;
  }

  lemma TurnedBlock()
    ensures Rotate19(Xor32(0xfeed_beef, 0x906a_cc96)) == 0x93cb_743b
    ensures Rotate17(Xor32(0xfeed_beef, 0x7ca7_fc3e)) == 0x85a3_0494
    ensures Rotate15(Xor32(0xfeed_beef, 0xd827_12d4)) == 0x561d_9365
    ensures Rotate13(Xor32(0xfeed_beef, 0xc9e1_e1a4)) == 0x8be9_66e1
  {
    hide Bits32, Xor32, Rotate19, Rotate17, Rotate15, Rotate13, LaneRotate32;
    XorOf32(0xfeed_beef, 0x906a_cc96, 0x6e87_7279);
    RotationsOf32(0x6e87_7279);
    assert Rotate19(0x6e87_7279) == 0x93cb_743b;
    XorOf32(0xfeed_beef, 0x7ca7_fc3e, 0x824a_42d1);
    RotationsOf32(0x824a_42d1);
    assert Rotate17(0x824a_42d1) == 0x85a3_0494;
    XorOf32(0xfeed_beef, 0xd827_12d4, 0x26ca_ac3b);
    RotationsOf32(0x26ca_ac3b);
    assert Rotate15(0x26ca_ac3b) == 0x561d_9365;
    XorOf32(0xfeed_beef, 0xc9e1_e1a4, 0x370c_5f4b);
    RotationsOf32(0x370c_5f4b);
    assert Rotate13(0x370c_5f4b) == 0x8be9_66e1;
  }

  lemma PremixedTail()
    ensures Premix(0, 0x1312_1110) == 0xcdf3_a7a3
    ensures Premix(1, 0x1716_1514) == 0xd459_b2b8
    ensures Premix(2, 0x1b1a_1918) == 0xf4b8_e366
    ensures Premix(3, 0x001e_1d1c) == 0x02e6_8de1
  {
    hide Bits32, Xor32, Rotate13, Rotate15, Rotate17, Rotate19, LaneRotate32;
    assert Times32(0x1312_1110, 0x239b_961b) == 0x1d97_2cb0;
    RotationsOf32(0x1d97_2cb0);
    assert LaneRotate32(0, 0x1d97_2cb0) == 0x9658_0ecb;
    assert Times32(0x9658_0ecb, 0xab0e_9789) == 0xcdf3_a7a3;
    assert Times32(0x1716_1514, 0xab0e_9789) == 0xe458_13b4;
    RotationsOf32(0xe458_13b4);
    assert LaneRotate32(1, 0xe458_13b4) == 0x13b4_e458;
    assert Times32(0x13b4_e458, 0x38b3_4ae5) == 0xd459_b2b8;
    assert Times32(0x1b1a_1918, 0x38b3_4ae5) == 0x9561_6278;
    RotationsOf32(0x9561_6278);
    assert LaneRotate32(2, 0x9561_6278) == 0xc4f1_2ac2;
    assert Times32(0xc4f1_2ac2, 0xa1e3_8b93) == 0xf4b8_e366;
    assert Times32(0x001e_1d1c, 0xa1e3_8b93) == 0xd6ec_eb14;
    RotationsOf32(0xd6ec_eb14);
    assert LaneRotate32(3, 0xd6ec_eb14) == 0xac53_5bb3;
    assert Times32(0xac53_5bb3, 0x239b_961b) == 0x02e6_8de1;
  }

  lemma FmixOfCounting()
    ensures Fmix32(0x1bd6_3e45) == 0x793e_c67a
    ensures Fmix32(0x929e_08b6) == 0xfeaa_06e9
    ensures Fmix32(0xd093_92e5) == 0xb8bc_0ced
    ensures Fmix32(0x0ddd_f228) == 0x6b93_ee3a
  {
    hide Bits32, Xor32, Shift13, Shift16;
    ShiftsOf32(0x1bd6_3e45);
    assert Shift16(0x1bd6_3e45) == 0x1bd6;
    XorOf32(0x1bd6_3e45, 0x1bd6, 0x1bd6_2593);
    assert Times32(0x1bd6_2593, 0x85eb_ca6b) == 0x7918_b271;
    ShiftsOf32(0x7918_b271);
    assert Shift13(0x7918_b271) == 0x0003_c8c5;
    XorOf32(0x7918_b271, 0x0003_c8c5, 0x791b_7ab4);
    assert Times32(0x791b_7ab4, 0xc2b2_ae35) == 0x793e_bf44;
    ShiftsOf32(0x793e_bf44);
    assert Shift16(0x793e_bf44) == 0x793e;
    XorOf32(0x793e_bf44, 0x793e, 0x793e_c67a);
    ShiftsOf32(0x929e_08b6);
    assert Shift16(0x929e_08b6) == 0x929e;
    XorOf32(0x929e_08b6, 0x929e, 0x929e_9a28);
    assert Times32(0x929e_9a28, 0x85eb_ca6b) == 0xb8a5_feb8;
    ShiftsOf32(0xb8a5_feb8);
    assert Shift13(0xb8a5_feb8) == 0x0005_c52f;
    XorOf32(0xb8a5_feb8, 0x0005_c52f, 0xb8a0_3b97);
    assert Times32(0xb8a0_3b97, 0xc2b2_ae35) == 0xfeaa_f843;
    ShiftsOf32(0xfeaa_f843);
    assert Shift16(0xfeaa_f843) == 0xfeaa;
    XorOf32(0xfeaa_f843, 0xfeaa, 0xfeaa_06e9);
    ShiftsOf32(0xd093_92e5);
    assert Shift16(0xd093_92e5) == 0xd093;
    XorOf32(0xd093_92e5, 0xd093, 0xd093_4276);
    assert Times32(0xd093_4276, 0x85eb_ca6b) == 0xb04f_e352;
    ShiftsOf32(0xb04f_e352);
    assert Shift13(0xb04f_e352) == 0x0005_827f;
    XorOf32(0xb04f_e352, 0x0005_827f, 0xb04a_612d);
    assert Times32(0xb04a_612d, 0xc2b2_ae35) == 0xb8bc_b451;
    ShiftsOf32(0xb8bc_b451);
    assert Shift16(0xb8bc_b451) == 0xb8bc;
    XorOf32(0xb8bc_b451, 0xb8bc, 0xb8bc_0ced);
    ShiftsOf32(0x0ddd_f228);
    assert Shift16(0x0ddd_f228) == 0xddd;
    XorOf32(0x0ddd_f228, 0xddd, 0x0ddd_fff5);
    assert Times32(0x0ddd_fff5, 0x85eb_ca6b) == 0x36a8_4d67;
    ShiftsOf32(0x36a8_4d67);
    assert Shift13(0x36a8_4d67) == 0x0001_b542;
    XorOf32(0x36a8_4d67, 0x0001_b542, 0x36a9_f825);
    assert Times32(0x36a9_f825, 0xc2b2_ae35) == 0x6b93_85a9;
    ShiftsOf32(0x6b93_85a9);
    assert Shift16(0x6b93_85a9) == 0x6b93;
    XorOf32(0x6b93_85a9, 0x6b93, 0x6b93_ee3a);
  }

  lemma WordsOfBlock()
    ensures ReadWord32(BLOCK, 0) == 0x0302_0100
    ensures ReadWord32(BLOCK, 4) == 0x0706_0504
    ensures ReadWord32(BLOCK, 8) == 0x0b0a_0908
    ensures ReadWord32(BLOCK, 12) == 0x0f0e_0d0c
  {
  }

  lemma WordsOfTail()
    ensures TailWord(TAIL, 0) == 0x1312_1110
    ensures TailWord(TAIL, 1) == 0x1716_1514
    ensures TailWord(TAIL, 2) == 0x1b1a_1918
    ensures TailWord(TAIL, 3) == 0x001e_1d1c
  {
    TailWords(TAIL);
  }

  lemma MixedBlock()
    ensures Step(Hashes(0xfeed_beef, 0xfeed_beef, 0xfeed_beef, 0xfeed_beef), BLOCK) ==
              Hashes(0x33ba_cced, 0xa29e_78d6, 0x4005_b7d9, 0xf0e1_3e1d)
  {
    hide Premix, ReadWord32, Xor32, Bits32, Rotate19, Rotate17, Rotate15, Rotate13;
    WordsOfBlock();
    PremixedBlock();
    TurnedBlock();
    assert Plus32(0x93cb_743b, 0xfeed_beef) == 0x92b9_332a;
    assert Times32(0x92b9_332a, 0x5) == 0xdd9d_ffd2;
    assert Plus32(0xdd9d_ffd2, 0x561c_cd1b) == 0x33ba_cced;
    assert Plus32(0x85a3_0494, 0xfeed_beef) == 0x8490_c383;
    assert Times32(0x8490_c383, 0x5) == 0x96d3_d18f;
    assert Plus32(0x96d3_d18f, 0x0bca_a747) == 0xa29e_78d6;
    assert Plus32(0x561d_9365, 0xfeed_beef) == 0x550b_5254;
    assert Times32(0x550b_5254, 0x5) == 0xa938_9ba4;
    assert Plus32(0xa938_9ba4, 0x96cd_1c35) == 0x4005_b7d9;
    assert Plus32(0x8be9_66e1, 0x33ba_cced) == 0xbfa4_33ce;
    assert Times32(0xbfa4_33ce, 0x5) == 0xbe35_0306;
    assert Plus32(0xbe35_0306, 0x32ac_3b17) == 0xf0e1_3e1d;
  }

  /** A digest that takes a block and every lane of a tail. */
  lemma DigestOfCounting()
    ensures Digest(0xfeed_beef, BLOCK + TAIL) == Hashes(0x9c38_c88a, 0x9ae2_cf73, 0x54f4_d577, 0x07cc_b6c4)
  {
    hide Split, Fold, MixFour, Premix, Fmix32, TailWord, ReadWord32, Xor32, Bits32;
    var m, start := BLOCK + TAIL, Hashes(0xfeed_beef, 0xfeed_beef, 0xfeed_beef, 0xfeed_beef);
    SplitAt(m, 16);
    assert m[..16] == BLOCK && m[16..] == TAIL;
    BodyStep(start, BLOCK);
    BodyNothing(Step(start, BLOCK), []);
    assert BLOCK[..16] == BLOCK && BLOCK[16..] == [];
    MixedBlock();
    WordsOfTail();
    PremixedTail();
    XorOf32(0x33ba_cced, 0xcdf3_a7a3, 0xfe49_6b4e);
    XorOf32(0xa29e_78d6, 0xd459_b2b8, 0x76c7_ca6e);
    XorOf32(0x4005_b7d9, 0xf4b8_e366, 0xb4bd_54bf);
    XorOf32(0xf0e1_3e1d, 0x02e6_8de1, 0xf207_b3fc);
    XorOf32(0xfe49_6b4e, 0x1f, 0xfe49_6b51);
    XorOf32(0x76c7_ca6e, 0x1f, 0x76c7_ca71);
    XorOf32(0xb4bd_54bf, 0x1f, 0xb4bd_54a0);
    XorOf32(0xf207_b3fc, 0x1f, 0xf207_b3e3);
    assert Plus32(0xfe49_6b51, 0x76c7_ca71) == 0x7511_35c2;
    assert Plus32(0x7511_35c2, 0xb4bd_54a0) == 0x29ce_8a62;
    assert Plus32(0x29ce_8a62, 0xf207_b3e3) == 0x1bd6_3e45;
    assert Plus32(0x76c7_ca71, 0x1bd6_3e45) == 0x929e_08b6;
    assert Plus32(0xb4bd_54a0, 0x1bd6_3e45) == 0xd093_92e5;
    assert Plus32(0xf207_b3e3, 0x1bd6_3e45) == 0x0ddd_f228;
    FmixOfCounting();
    assert Plus32(0x793e_c67a, 0xfeaa_06e9) == 0x77e8_cd63;
    assert Plus32(0x77e8_cd63, 0xb8bc_0ced) == 0x30a4_da50;
    assert Plus32(0x30a4_da50, 0x6b93_ee3a) == 0x9c38_c88a;
    assert Plus32(0xfeaa_06e9, 0x9c38_c88a) == 0x9ae2_cf73;
    assert Plus32(0xb8bc_0ced, 0x9c38_c88a) == 0x54f4_d577;
    assert Plus32(0x6b93_ee3a, 0x9c38_c88a) == 0x07cc_b6c4;
  }
}
