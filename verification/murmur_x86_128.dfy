/** MurmurHash3 x86 128-bit: four 32-bit lanes, with vector bodies that premix in block order or
transposed. */
module MurmurX86 {
  import opened Bytes
  import opened Quantum
  import opened MurmurWords
  import opened MurmurBlocks

  function C1(lane: nat): Word32 {
    if lane == 0 then 0x239b_961b else if lane == 1 then 0xab0e_9789 else if lane == 2 then 0x38b3_4ae5 else 0xa1e3_8b93
  }

  function C2(lane: nat): Word32 {
    if lane == 0 then 0xab0e_9789 else if lane == 1 then 0x38b3_4ae5 else if lane == 2 then 0xa1e3_8b93 else 0x239b_961b
  }

  datatype Hashes = Hashes(h1: Word32, h2: Word32, h3: Word32, h4: Word32)

  /** A block word in its lane, before it meets the state. */
  function Premix(lane: nat, v: Word32): Word32
    requires lane < 4
  {
    Times32(LaneRotate32(lane, Times32(v, C1(lane))), C2(lane))
  }

  function ScaleHash(addend: Word32, h: Word32): Word32 { Plus32(Times32(h, 5), addend) }

  function MixHashes(h: Hashes, b1: Word32, b2: Word32, b3: Word32, b4: Word32): Hashes {
    var h1 := ScaleHash(0x561c_cd1b, Plus32(Rotate19(Xor32(h.h1, b1)), h.h2));
    var h2 := ScaleHash(0x0bca_a747, Plus32(Rotate17(Xor32(h.h2, b2)), h.h3));
    var h3 := ScaleHash(0x96cd_1c35, Plus32(Rotate15(Xor32(h.h3, b3)), h.h4));
    var h4 := ScaleHash(0x32ac_3b17, Plus32(Rotate13(Xor32(h.h4, b4)), h1));
    Hashes(h1, h2, h3, h4)
  }

  /** The premixed words of a block. */
  function BlockWords(b: seq<byte>): seq<Word32> {
    if |b| != 16 then []
    else [Premix(0, ReadWord32(b, 0)), Premix(1, ReadWord32(b, 4)),
          Premix(2, ReadWord32(b, 8)), Premix(3, ReadWord32(b, 12))]
  }

  function MixFour(h: Hashes, w: seq<Word32>): Hashes {
    if |w| != 4 then h else MixHashes(h, w[0], w[1], w[2], w[3])
  }

  /** One block of sixteen bytes. */
  function Step(h: Hashes, block: seq<byte>): Hashes {
    MixFour(h, BlockWords(block))
  }

  function Body(h: Hashes, blocks: seq<byte>): Hashes {
    Fold(Step, 16, h, blocks)
  }

  lemma BodyStep(h: Hashes, blocks: seq<byte>)
    requires |blocks| >= 16
    ensures Body(h, blocks) == Body(Step(h, blocks[..16]), blocks[16..])
  {
    hide Step;
  }

  lemma BodyNothing(h: Hashes, blocks: seq<byte>)
    requires |blocks| < 16
    ensures Body(h, blocks) == h
  {
  }

  lemma BodyConcat(h: Hashes, a: seq<byte>, b: seq<byte>)
    requires |a| % 16 == 0
    ensures Body(h, a + b) == Body(Body(h, a), b)
  {
    FoldConcat(Step, 16, h, a, b);
  }

  lemma BodyContinues(hashes: Hashes, input: seq<byte>, offset: nat, n: nat)
    requires offset % 16 == 0 && offset + n <= |input|
    ensures Body(Body(hashes, input[..offset]), input[offset..offset + n]) == Body(hashes, input[..offset + n])
  {
    hide Body;
    assert input[..offset + n] == input[..offset] + input[offset..offset + n];
    BodyConcat(hashes, input[..offset], input[offset..offset + n]);
  }

  /** The words of the block at an offset. */
  lemma BlockWordsAt(input: seq<byte>, at: nat)
    requires at + 16 <= |input|
    ensures BlockWords(input[at..at + 16])
         == [Premix(0, ReadWord32(input, at)), Premix(1, ReadWord32(input, at + 4)),
             Premix(2, ReadWord32(input, at + 8)), Premix(3, ReadWord32(input, at + 12))]
  {
    hide Premix, ReadWord32;
    ReadWord32InSlice(input, at, 16, 0);
    ReadWord32InSlice(input, at, 16, 4);
    ReadWord32InSlice(input, at, 16, 8);
    ReadWord32InSlice(input, at, 16, 12);
  }

  /** One block continues the fold. */
  lemma BodyBlock(h: Hashes, input: seq<byte>, at: nat)
    requires at + 16 <= |input|
    ensures Body(h, input[at..at + 16]) == MixFour(h, BlockWords(input[at..at + 16]))
  {
    hide BlockWords, MixFour, Body;
    var b := input[at..at + 16];
    BodyStep(h, b);
    assert b[..16] == b && b[16..] == [];
    BodyNothing(Step(h, b), []);
  }

  method MixBodyScalar(input: seq<byte>, offset0: nat, hashes: Hashes) returns (h: Hashes)
    requires offset0 <= |input| && (|input| - offset0) % 16 == 0
    ensures h == Body(hashes, input[offset0..])
  {
    hide Body, MixHashes, Premix, ReadWord32, BlockWords;
    h := hashes;
    var offset := offset0;
    while offset < |input|
      invariant offset0 <= offset <= |input| && (|input| - offset) % 16 == 0
      invariant Body(h, input[offset..]) == Body(hashes, input[offset0..])
    {
      var block1, block2 := Premix(0, ReadWord32(input, offset)), Premix(1, ReadWord32(input, offset + 4));
      var block3, block4 := Premix(2, ReadWord32(input, offset + 8)), Premix(3, ReadWord32(input, offset + 12));
      BlockWordsAt(input, offset);
      BodyStep(h, input[offset..]);
      assert input[offset..][..16] == input[offset..offset + 16] && input[offset..][16..] == input[offset + 16..];
      h := MixHashes(h, block1, block2, block3, block4);
      offset := offset + 16;
    }
    BodyNothing(h, input[offset..]);
  }

  // ----- the 256-bit body -----

  /** A lane of a vector premix: the rotation is two variable shifts. */
  function PremixLane(lane: nat, v: Word32): Word32
    requires lane < 4
  {
    Times32(LaneShiftRotate32(lane, Times32(v, C1(lane))), C2(lane))
  }

  lemma PremixLaneIs(lane: nat, v: Word32)
    requires lane < 4
    ensures PremixLane(lane, v) == Premix(lane, v)
  {
    hide Times32, LaneShiftRotate32, LaneRotate32;
    LaneShiftsRotate32(lane, Times32(v, C1(lane)));
  }

  /** A vector load of words. */
  function LoadWords(input: seq<byte>, at: nat, n: nat): (v: seq<Word32>)
    requires at + 4 * n <= |input|
    ensures |v| == n
  {
    seq(n, k requires 0 <= k < n => ReadWord32(input, at + 4 * k))
  }

  /** Eight lanes hold two blocks. */
  function PremixVector(v: seq<Word32>): (w: seq<Word32>)
    ensures |w| == |v|
  {
    seq(|v|, k requires 0 <= k < |v| => PremixLane(k % 4, v[k]))
  }

  lemma PremixVectorWords(input: seq<byte>, at: nat)
    requires at + 32 <= |input|
    ensures PremixVector(LoadWords(input, at, 8))
         == BlockWords(input[at..at + 16]) + BlockWords(input[at + 16..at + 32])
  {
    hide Premix, ReadWord32, PremixLane, BlockWords;
    BlockWordsAt(input, at);
    BlockWordsAt(input, at + 16);
    var w := PremixVector(LoadWords(input, at, 8));
    forall k | 0 <= k < 8 ensures w[k] == Premix(k % 4, ReadWord32(input, at + 4 * k)) {
      PremixLaneIs(k % 4, ReadWord32(input, at + 4 * k));
    }
  }

  /** The words of `n` blocks from an offset. */
  function WordsOf(input: seq<byte>, at: nat, n: nat): (w: seq<Word32>)
    requires at + 16 * n <= |input|
    ensures |w| == 4 * n
  {
    if n == 0 then [] else WordsOf(input, at, n - 1) + BlockWords(input[at + 16 * (n - 1)..at + 16 * n])
  }

  /** Mixes the words of blocks in order. */
  method MixBlocks(hashes: Hashes, blocks: seq<Word32>, ghost input: seq<byte>, ghost at: nat, ghost n: nat)
    returns (h: Hashes)
    requires at + 16 * n <= |input| && blocks == WordsOf(input, at, n)
    ensures h == Body(hashes, input[at..at + 16 * n])
  {
    hide MixHashes, BlockWords, Body;
    h := hashes;
    var k := 0;
    ghost var j := 0;
    BodyNothing(h, input[at..at]);
    while k + 4 <= |blocks|
      invariant 0 <= k <= |blocks| && k == 4 * j && j <= n && h == Body(hashes, input[at..at + 16 * j])
    {
      WordsOfAt(input, at, n, j);
      BodyBlock(h, input, at + 16 * j);
      SliceBody(hashes, input, at, j);
      h := MixHashes(h, blocks[k], blocks[k + 1], blocks[k + 2], blocks[k + 3]);
      k, j := k + 4, j + 1;
    }
  }

  lemma SliceBody(hashes: Hashes, input: seq<byte>, at: nat, j: nat)
    requires at + 16 * j + 16 <= |input|
    ensures Body(Body(hashes, input[at..at + 16 * j]), input[at + 16 * j..at + 16 * j + 16])
         == Body(hashes, input[at..at + 16 * (j + 1)])
  {
    hide Body;
    assert input[at..at + 16 * (j + 1)] == input[at..at + 16 * j] + input[at + 16 * j..at + 16 * j + 16];
    BodyConcat(hashes, input[at..at + 16 * j], input[at + 16 * j..at + 16 * j + 16]);
  }

  lemma {:induction false} WordsOfAt(input: seq<byte>, at: nat, n: nat, j: nat)
    requires j < n && at + 16 * n <= |input|
    ensures WordsOf(input, at, n)[4 * j..4 * j + 4] == BlockWords(input[at + 16 * j..at + 16 * j + 16])
  {
    hide BlockWords;
    if j < n - 1 {
      WordsOfAt(input, at, n - 1, j);
      var w := WordsOf(input, at, n - 1);
      assert WordsOf(input, at, n)[4 * j..4 * j + 4] == w[4 * j..4 * j + 4];
    }
  }

  /** Premixes two blocks at a time into the staging array, then mixes. */
  method MixGroup(input: seq<byte>, offset: nat, n: nat, mixed: array<Word32>, hashes: Hashes) returns (h: Hashes)
    requires n % 2 == 0 && 4 * n <= mixed.Length && offset + 16 * n <= |input|
    modifies mixed
    ensures h == Body(hashes, input[offset..offset + 16 * n])
  {
    hide BlockWords, Body, PremixVector, LoadWords, WordsOf;
    var k := 0;
    assert mixed[..0] == WordsOf(input, offset, 0) by {
      WordsNothing(input, offset);
    }
    while k < n
      invariant 0 <= k <= n && k % 2 == 0 && mixed[..4 * k] == WordsOf(input, offset, k)
    {
      var values := PremixVector(LoadWords(input, offset + 16 * k, 8));
      PremixVectorWords(input, offset + 16 * k);
      ghost var was := mixed[..4 * k];
      forall i | 0 <= i < 8 {
        mixed[4 * k + i] := values[i];
      }
      assert mixed[..4 * k] == was;
      assert mixed[..4 * k + 8] == was + values;
      WordsTwo(input, offset, k);
      k := k + 2;
    }
    h := MixBlocks(hashes, mixed[..4 * n], input, offset, n);
  }

  lemma WordsNothing(input: seq<byte>, at: nat)
    requires at <= |input|
    ensures WordsOf(input, at, 0) == []
  {
  }

  lemma WordsTwo(input: seq<byte>, at: nat, k: nat)
    requires at + 16 * (k + 2) <= |input|
    ensures WordsOf(input, at, k + 2)
         == WordsOf(input, at, k) + (BlockWords(input[at + 16 * k..at + 16 * k + 16])
                                     + BlockWords(input[at + 16 * k + 16..at + 16 * k + 32]))
  {
    hide BlockWords;
    var w, a, b := WordsOf(input, at, k), BlockWords(input[at + 16 * k..at + 16 * k + 16]),
                   BlockWords(input[at + 16 * k + 16..at + 16 * k + 32]);
    assert WordsOf(input, at, k + 1) == w + a;
    ConcatAssociates(w, a, b);
  }

  method MixBodyAvx2(input: seq<byte>, hashes: Hashes) returns (h: Hashes)
    requires |input| % 16 == 0
    ensures h == Body(hashes, input)
  {
    hide Body;
    var mixed := new Word32[32](_ => 0);
    var offset := 0;
    h := hashes;
    BodyNothing(hashes, input[..0]);
    while offset + 128 <= |input|
      invariant 0 <= offset <= |input| && offset % 16 == 0 && h == Body(hashes, input[..offset])
    {
      h := MixGroup(input, offset, 8, mixed, h);
      BodyContinues(hashes, input, offset, 128);
      offset := offset + 128;
    }
    while offset + 32 <= |input|
      invariant 0 <= offset <= |input| && offset % 16 == 0 && h == Body(hashes, input[..offset])
    {
      h := MixGroup(input, offset, 2, mixed, h);
      BodyContinues(hashes, input, offset, 32);
      offset := offset + 32;
    }
    h := FinishScalar(input, offset, hashes, h);
  }

  method FinishScalar(input: seq<byte>, offset: nat, ghost start: Hashes, hashes: Hashes) returns (h: Hashes)
    requires |input| % 16 == 0 && offset % 16 == 0 && offset <= |input| && hashes == Body(start, input[..offset])
    ensures h == Body(start, input)
  {
    hide Body;
    h := MixBodyScalar(input, offset, hashes);
    assert input == input[..offset] + input[offset..];
    BodyConcat(start, input[..offset], input[offset..]);
  }

  // ----- the 128-bit body: four blocks transposed -----

  function UnpackLo32(a: seq<Word32>, b: seq<Word32>): seq<Word32>
    requires |a| == 4 == |b|
  {
    [a[0], b[0], a[1], b[1]]
  }

  function UnpackHi32(a: seq<Word32>, b: seq<Word32>): seq<Word32>
    requires |a| == 4 == |b|
  {
    [a[2], b[2], a[3], b[3]]
  }

  function UnpackLo64(a: seq<Word32>, b: seq<Word32>): seq<Word32>
    requires |a| == 4 == |b|
  {
    [a[0], a[1], b[0], b[1]]
  }

  function UnpackHi64(a: seq<Word32>, b: seq<Word32>): seq<Word32>
    requires |a| == 4 == |b|
  {
    [a[2], a[3], b[2], b[3]]
  }

  /** The four unpacks of each column of rows: column `lane` holds that word of every block. */
  lemma Transposes(r0: seq<Word32>, r1: seq<Word32>, r2: seq<Word32>, r3: seq<Word32>)
    requires |r0| == |r1| == |r2| == |r3| == 4
    ensures UnpackLo64(UnpackLo32(r0, r1), UnpackLo32(r2, r3)) == [r0[0], r1[0], r2[0], r3[0]]
    ensures UnpackHi64(UnpackLo32(r0, r1), UnpackLo32(r2, r3)) == [r0[1], r1[1], r2[1], r3[1]]
    ensures UnpackLo64(UnpackHi32(r0, r1), UnpackHi32(r2, r3)) == [r0[2], r1[2], r2[2], r3[2]]
    ensures UnpackHi64(UnpackHi32(r0, r1), UnpackHi32(r2, r3)) == [r0[3], r1[3], r2[3], r3[3]]
  {
  }

  /** A column in one lane's constants. */
  function PremixColumn(lane: nat, v: seq<Word32>): (w: seq<Word32>)
    requires lane < 4
    ensures |w| == |v|
  {
    seq(|v|, k requires 0 <= k < |v| => PremixLane(lane, v[k]))
  }

  /** Word `lane` of block `index` stands at `4 * lane + index`. */
  ghost predicate Transposed(g: seq<Word32>, input: seq<byte>, at: nat) {
    |g| == 16 && at + 64 <= |input| &&
    forall lane, index :: 0 <= lane < 4 && 0 <= index < 4 ==>
      g[4 * lane + index] == Premix(lane, ReadWord32(input, at + 16 * index + 4 * lane))
  }

  method PremixGroupSse41(input: seq<byte>, at: nat) returns (g: seq<Word32>)
    requires at + 64 <= |input|
    ensures Transposed(g, input, at)
  {
    hide Premix, ReadWord32, PremixLane;
    var row0, row1 := LoadWords(input, at, 4), LoadWords(input, at + 16, 4);
    var row2, row3 := LoadWords(input, at + 32, 4), LoadWords(input, at + 48, 4);
    var low01, high01 := UnpackLo32(row0, row1), UnpackHi32(row0, row1);
    var low23, high23 := UnpackLo32(row2, row3), UnpackHi32(row2, row3);
    Transposes(row0, row1, row2, row3);
    var block1, block2 := PremixColumn(0, UnpackLo64(low01, low23)), PremixColumn(1, UnpackHi64(low01, low23));
    var block3, block4 := PremixColumn(2, UnpackLo64(high01, high23)), PremixColumn(3, UnpackHi64(high01, high23));
    g := block1 + block2 + block3 + block4;
    forall lane, index | 0 <= lane < 4 && 0 <= index < 4
      ensures g[4 * lane + index] == Premix(lane, ReadWord32(input, at + 16 * index + 4 * lane))
    {
      PremixLaneIs(lane, ReadWord32(input, at + 16 * index + 4 * lane));
    }
  }

  /** Mixes a transposed group in block order. */
  method MixTransposedGroup(hashes: Hashes, mixed: seq<Word32>, ghost input: seq<byte>, ghost at: nat)
    returns (h: Hashes)
    requires Transposed(mixed, input, at)
    ensures h == Body(hashes, input[at..at + 64])
  {
    hide MixHashes, Premix, ReadWord32, Body, BlockWords;
    h := hashes;
    var index := 0;
    BodyNothing(h, input[at..at]);
    while index < 4
      invariant 0 <= index <= 4 && h == Body(hashes, input[at..at + 16 * index])
    {
      BlockWordsAt(input, at + 16 * index);
      BodyBlock(h, input, at + 16 * index);
      SliceBody(hashes, input, at, index);
      assert mixed[4 * 0 + index] == Premix(0, ReadWord32(input, at + 16 * index + 4 * 0));
      assert mixed[4 * 1 + index] == Premix(1, ReadWord32(input, at + 16 * index + 4 * 1));
      assert mixed[4 * 2 + index] == Premix(2, ReadWord32(input, at + 16 * index + 4 * 2));
      assert mixed[4 * 3 + index] == Premix(3, ReadWord32(input, at + 16 * index + 4 * 3));
      h := MixHashes(h, mixed[index], mixed[4 + index], mixed[8 + index], mixed[12 + index]);
      index := index + 1;
    }
  }

  lemma GroupContinues(hashes: Hashes, input: seq<byte>, offset: nat, group: nat)
    requires offset + 64 * (group + 1) <= |input|
    ensures Body(Body(hashes, input[offset..offset + 64 * group]), input[offset + 64 * group..offset + 64 * group + 64])
         == Body(hashes, input[offset..offset + 64 * (group + 1)])
  {
    hide *;
    WholeGroups(group);
    SliceContinues(hashes, input, offset, offset + 64 * group, offset + 64 * (group + 1));
  }

  lemma WholeGroups(group: nat)
    ensures 64 * group % 16 == 0 && 64 * (group + 1) == 64 * group + 64
  {
    assert 64 * group == 16 * (4 * group);
  }

  lemma SliceContinues(hashes: Hashes, input: seq<byte>, lo: nat, mid: nat, hi: nat)
    requires lo <= mid <= hi <= |input| && (mid - lo) % 16 == 0
    ensures Body(Body(hashes, input[lo..mid]), input[mid..hi]) == Body(hashes, input[lo..hi])
  {
    hide Body;
    assert input[lo..hi] == input[lo..mid] + input[mid..hi];
    BodyConcat(hashes, input[lo..mid], input[mid..hi]);
  }

  /** `groups` transposed groups of four blocks each: all premixed first, then mixed in order. */
  method MixGroupsSse41(input: seq<byte>, offset: nat, groups: nat, hashes: Hashes) returns (h: Hashes)
    requires offset + 64 * groups <= |input|
    ensures h == Body(hashes, input[offset..offset + 64 * groups])
  {
    hide Transposed, Body;
    var mixed: seq<seq<Word32>> := [];
    var group := 0;
    while group < groups
      invariant 0 <= group <= groups && |mixed| == group
      invariant forall k :: 0 <= k < group ==> Transposed(mixed[k], input, offset + 64 * k)
    {
      var g := PremixGroupSse41(input, offset + 64 * group);
      mixed := mixed + [g];
      group := group + 1;
    }
    h := hashes;
    group := 0;
    BodyNothing(h, input[offset..offset]);
    while group < groups
      invariant 0 <= group <= groups && h == Body(hashes, input[offset..offset + 64 * group])
    {
      h := MixTransposedGroup(h, mixed[group], input, offset + 64 * group);
      GroupContinues(hashes, input, offset, group);
      group := group + 1;
    }
  }

  method MixBodySse41(input: seq<byte>, hashes: Hashes) returns (h: Hashes)
    requires |input| % 16 == 0
    ensures h == Body(hashes, input)
  {
    hide Body;
    var offset := 0;
    h := hashes;
    BodyNothing(hashes, input[..0]);
    while offset + 256 <= |input|
      invariant 0 <= offset <= |input| && offset % 16 == 0 && h == Body(hashes, input[..offset])
    {
      h := MixGroupsSse41(input, offset, 4, h);
      BodyContinues(hashes, input, offset, 256);
      offset := offset + 256;
    }
    while offset + 64 <= |input|
      invariant 0 <= offset <= |input| && offset % 16 == 0 && h == Body(hashes, input[..offset])
    {
      h := MixGroupsSse41(input, offset, 1, h);
      BodyContinues(hashes, input, offset, 64);
      offset := offset + 64;
    }
    h := FinishScalar(input, offset, hashes, h);
  }

  datatype Backend = Scalar | Sse41 | Avx2

  method MixBody(backend: Backend, blocks: seq<byte>, hashes: Hashes) returns (h: Hashes)
    requires |blocks| % 16 == 0
    ensures h == Body(hashes, blocks)
  {
    match backend {
      case Scalar =>
        h := MixBodyScalar(blocks, 0, hashes);
        assert blocks[0..] == blocks;
      case Sse41 => h := MixBodySse41(blocks, hashes);
      case Avx2 => h := MixBodyAvx2(blocks, hashes);
    }
  }

  // ----- digests -----

  function TailWord(tail: seq<byte>, lane: nat): Word32 {
    Number32(PartialWord(tail, |tail|, lane))
  }

  /** A lane meets its tail word only if the tail reaches it. */
  function TailLane(tail: seq<byte>, lane: nat, h: Word32): Word32
    requires lane < 4
  {
    if |tail| > 4 * lane then Xor32(h, Premix(lane, TailWord(tail, lane))) else h
  }

  function FinishTail(tail: seq<byte>, h: Hashes, length: Word32): Hashes {
    var mixed := Hashes(TailLane(tail, 0, h.h1), TailLane(tail, 1, h.h2),
                        TailLane(tail, 2, h.h3), TailLane(tail, 3, h.h4));
    Finalize(mixed, length)
  }

  /** All lanes into the first, and the first into all others. */
  function Spread(h: Hashes): Hashes {
    var s := Plus32(Plus32(Plus32(h.h1, h.h2), h.h3), h.h4);
    Hashes(s, Plus32(h.h2, s), Plus32(h.h3, s), Plus32(h.h4, s))
  }

  function Finalize(h: Hashes, length: Word32): Hashes {
    var s := Spread(Hashes(Xor32(h.h1, length), Xor32(h.h2, length), Xor32(h.h3, length), Xor32(h.h4, length)));
    Spread(Hashes(Fmix32(s.h1), Fmix32(s.h2), Fmix32(s.h3), Fmix32(s.h4)))
  }

  /** The tail words are collected byte by byte. */
  method FinishTailBytes(tail: seq<byte>, hashes: Hashes, length: Word32) returns (d: Hashes)
    requires |tail| < 16
    ensures d == FinishTail(tail, hashes, length)
  {
    hide Premix, Xor32, Number32, Finalize, Or32, Byte32, PartialWord;
    var blocks := new bv32[4](_ => 0);
    var index := 0;
    forall i | 0 <= i < 4 ensures PartialWord(tail, 0, i) == 0 {
      PartialWordStep(tail, 0, i);
    }
    while index < |tail|
      invariant 0 <= index <= |tail| && forall i :: 0 <= i < 4 ==> blocks[i] == PartialWord(tail, index, i)
    {
      forall i | 0 <= i < 4
        ensures PartialWord(tail, index + 1, i)
             == if i == index / 4 then Or32(PartialWord(tail, index, i), Byte32(tail[index], index % 4))
                else PartialWord(tail, index, i)
      {
        PartialWordStep(tail, index, i);
        PartialWordStep(tail, index + 1, i);
      }
      blocks[index / 4] := Or32(blocks[index / 4], Byte32(tail[index], index % 4));
      index := index + 1;
    }
    var h1, h2, h3, h4 := hashes.h1, hashes.h2, hashes.h3, hashes.h4;
    if |tail| > 12 {
      h4 := Xor32(h4, Premix(3, Number32(blocks[3])));
    }
    if |tail| > 8 {
      h3 := Xor32(h3, Premix(2, Number32(blocks[2])));
    }
    if |tail| > 4 {
      h2 := Xor32(h2, Premix(1, Number32(blocks[1])));
    }
    if tail != [] {
      h1 := Xor32(h1, Premix(0, Number32(blocks[0])));
    }
    d := Finalize(Hashes(h1, h2, h3, h4), length);
  }

  /** The digest of a message, defined in one piece. The length counts modulo 2^32. */
  function Digest(seed: Word32, message: seq<byte>): Hashes {
    var (body, tail) := Split(message, 16);
    FinishTail(tail, Body(Hashes(seed, seed, seed, seed), body), |message| % HALF)
  }

  method Murmur3X86128(backend: Backend, input: seq<byte>, seed: Word32) returns (d: Hashes)
    ensures d == Digest(seed, input)
  {
    hide Body, FinishTail, Split;
    var (blocks, tail) := Split(input, 16);
    var hashes := MixBody(backend, blocks, Hashes(seed, seed, seed, seed));
    d := FinishTailBytes(tail, hashes, |input| % HALF);
  }

  class Murmur3X86Hasher128 {
    const backend: Backend
    const tail: BlockBuffer
    var hashes: Hashes
    var length: Word32
    ghost const seed: Word32
    ghost var message: seq<byte>

    ghost predicate Valid()
      reads this, tail, tail.bytes
    {
      && tail.Valid() && tail.size == 16
      && Split(message, 16).1 == tail.Remaining()
      && hashes == Body(Hashes(seed, seed, seed, seed), Split(message, 16).0)
      && length == |message| % HALF
    }

    constructor (backend: Backend, seed: Word32)
      ensures Valid() && message == [] && this.seed == seed && fresh(tail) && fresh(tail.bytes)
    {
      this.backend := backend;
      this.tail := new BlockBuffer(16);
      this.hashes, this.length := Hashes(seed, seed, seed, seed), 0;
      this.seed, this.message := seed, [];
      new;
      hide Body, Split;
      SplitNothing(16);
      BodyNothing(Hashes(seed, seed, seed, seed), []);
    }

    method Update(input: seq<byte>)
      requires Valid()
      modifies this`hashes, this`length, this`message, tail, tail.bytes
      ensures Valid() && message == old(message) + input
    {
      hide Body, Split, Flatten;
      ghost var body, rest := Split(message, 16).0, tail.Remaining();
      ghost var start := Hashes(seed, seed, seed, seed);
      length := Plus32(length, |input| % HALF);
      LengthWraps32(|message|, |input|);
      var runs := tail.Consume(input);
      ghost var joined := Flatten(runs);
      WholeRuns(16, runs);
      SplitParts(message, 16, body, rest);
      UpdateSplit(16, message, body, rest, input, joined, tail.Remaining());
      BodyConcat(start, body, joined);
      hashes := MixRuns(backend, runs, hashes);
      message := message + input;
    }

    method GetDigest() returns (d: Hashes)
      requires Valid()
      ensures d == Digest(seed, message)
    {
      hide Body, FinishTail, Split;
      d := FinishTailBytes(tail.bytes[..tail.len], hashes, length);
    }
  }

  method MixRuns(backend: Backend, runs: seq<seq<byte>>, hashes: Hashes) returns (h: Hashes)
    requires forall k :: 0 <= k < |runs| ==> |runs[k]| % 16 == 0
    ensures h == Body(hashes, Flatten(runs))
  {
    hide Fold, Step, Flatten;
    h := hashes;
    var k := 0;
    assert runs[0..] == runs;
    while k < |runs|
      invariant 0 <= k <= |runs| && Body(h, Flatten(runs[k..])) == Body(hashes, Flatten(runs))
    {
      FoldRuns(Step, 16, h, runs[k..]);
      assert runs[k..][1..] == runs[k + 1..];
      h := MixBody(backend, runs[k], h);
      k := k + 1;
    }
    assert runs[k..] == [];
    FlattenNothing();
    BodyNothing(h, []);
  }

  /** However a message is cut into updates, the digest is that of the whole. */
  method DigestChunks(backend: Backend, seed: Word32, chunks: seq<seq<byte>>) returns (d: Hashes)
    ensures d == Digest(seed, Flatten(chunks))
  {
    hide Digest, Murmur3X86Hasher128.Valid;
    var hasher := new Murmur3X86Hasher128(backend, seed);
    var k := 0;
    while k < |chunks|
      invariant 0 <= k <= |chunks| && hasher.Valid() && hasher.seed == seed
      invariant fresh(hasher) && fresh(hasher.tail) && fresh(hasher.tail.bytes)
      invariant hasher.message + Flatten(chunks[k..]) == Flatten(chunks)
    {
      assert chunks[k..][1..] == chunks[k + 1..];
      hasher.Update(chunks[k]);
      k := k + 1;
    }
    assert chunks[k..] == [] && hasher.message + [] == hasher.message;
    d := hasher.GetDigest();
  }
}
