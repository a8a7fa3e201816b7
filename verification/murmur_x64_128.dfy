/** MurmurHash3 x64 128-bit: the scalar fold, the vector bodies that premix several blocks at a time, and
the incremental hasher. */
module MurmurX64 {
  import opened Bytes
  import opened MurmurWords
  import opened MurmurBlocks
  import Division

  const C1: Word64 := 0x87c3_7b91_1142_53d5
  const C2: Word64 := 0x4cf5_ad43_2745_937f

  datatype Hashes = Hashes(h1: Word64, h2: Word64)

  function ReadWord(s: seq<byte>, at: nat): Word64
    requires at + 8 <= |s|
  {
    Number(ReadU64(s, at))
  }

  function Premix1(v: Word64): Word64 { Times(Rotate31(Times(v, C1)), C2) }
  function Premix2(v: Word64): Word64 { Times(Rotate33(Times(v, C2)), C1) }

  function ScaleHash(addend: Word64, h: Word64): Word64 { Plus(Times(h, 5), addend) }

  function MixHashes(h: Hashes, block1: Word64, block2: Word64): Hashes {
    var h1 := ScaleHash(0x52dc_e729, Plus(Rotate27(Xor(h.h1, block1)), h.h2));
    var h2 := ScaleHash(0x3849_5ab5, Plus(Rotate31(Xor(h.h2, block2)), h1));
    Hashes(h1, h2)
  }

  /** One block of sixteen bytes. */
  function Step(h: Hashes, block: seq<byte>): Hashes {
    if |block| != 16 then h else MixHashes(h, Premix1(ReadWord(block, 0)), Premix2(ReadWord(block, 8)))
  }

  function Body(h: Hashes, blocks: seq<byte>): Hashes {
    Fold(Step, 16, h, blocks)
  }

  lemma BodyStep(h: Hashes, blocks: seq<byte>)
    requires |blocks| >= 16
    ensures Body(h, blocks) == Body(Step(h, blocks[..16]), blocks[16..])
  {
    hide Step;
  }

  lemma BodyConcat(h: Hashes, a: seq<byte>, b: seq<byte>)
    requires |a| % 16 == 0
    ensures Body(h, a + b) == Body(Body(h, a), b)
  {
    FoldConcat(Step, 16, h, a, b);
  }

  method MixBodyScalar(blocks: seq<byte>, hashes: Hashes) returns (h: Hashes)
    requires |blocks| % 16 == 0
    ensures h == Body(hashes, blocks)
  {
    hide MixHashes, Premix1, Premix2, Body, ReadU64, Number;
    h := hashes;
    var cursor := 0;
    assert blocks[0..] == blocks;
    while cursor < |blocks|
      invariant 0 <= cursor <= |blocks| && cursor % 16 == 0 && Body(h, blocks[cursor..]) == Body(hashes, blocks)
    {
      var value1, value2 := ReadWord(blocks, cursor), ReadWord(blocks, cursor + 8);
      BodyStep(h, blocks[cursor..]);
      ReadInSlice(blocks, cursor, 16, 0);
      ReadInSlice(blocks, cursor, 16, 8);
      assert blocks[cursor..][..16] == blocks[cursor..cursor + 16] && blocks[cursor..][16..] == blocks[cursor + 16..];
      h := MixHashes(h, Premix1(value1), Premix2(value2));
      cursor := cursor + 16;
    }
    BodyNothing(h, blocks[cursor..]);
  }

  lemma BodyNothing(h: Hashes, blocks: seq<byte>)
    requires |blocks| < 16
    ensures Body(h, blocks) == h
  {
  }

  lemma ReadInSlice(s: seq<byte>, at: nat, n: nat, k: nat)
    requires at + n <= |s| && k + 8 <= n
    ensures ReadWord(s[at..at + n], k) == ReadWord(s, at + k)
  {
    hide Or, Shl8, Shl16, Shl32, Widen, Number;
    var t := s[at..at + n];
    forall i | k <= i < k + 8 ensures t[i] == s[at + i] {
    }
  }

  // ----- vector bodies -----

  /** The premixed words of a block. */
  function BlockWords(b: seq<byte>): seq<Word64> {
    if |b| != 16 then [] else [Premix1(ReadWord(b, 0)), Premix2(ReadWord(b, 8))]
  }

  function MixPair(h: Hashes, w: seq<Word64>): Hashes {
    if |w| != 2 then h else MixHashes(h, w[0], w[1])
  }

  lemma StepMixesPair(h: Hashes, b: seq<byte>)
    requires |b| == 16
    ensures |BlockWords(b)| == 2 && Step(h, b) == MixPair(h, BlockWords(b))
  {
    hide MixHashes, Premix1, Premix2, ReadWord;
  }

  /** Premixing all blocks first and mixing their words after is mixing block after block. */
  lemma {:induction false} MixWordsIsBody(h: Hashes, x: seq<byte>)
    ensures MixWords(MixPair, 2, h, Premixed(BlockWords, 16, x)) == Body(h, x)
    decreases |x|
  {
    hide Step, MixPair, BlockWords;
    var w := Premixed(BlockWords, 16, x);
    if |x| >= 16 {
      var b := x[..16];
      StepMixesPair(h, b);
      BodyStep(h, x);
      MixWordsIsBody(Step(h, b), x[16..]);
      assert w[..2] == BlockWords(b) && w[2..] == Premixed(BlockWords, 16, x[16..]);
    }
  }

  /** A vector load of `n` words. */
  function LoadWords(input: seq<byte>, at: nat, n: nat): (v: seq<Word64>)
    requires at + 8 * n <= |input|
    ensures |v| == n
  {
    seq(n, k requires 0 <= k < n => ReadWord(input, at + 8 * k))
  }

  /** Even lanes hold first words of blocks, odd lanes second words. Products are assembled from partial
      products and rotations from shifts. */
  function PremixLane(odd: bool, v: Word64): Word64 {
    if odd then MulloEpi64(ShiftRotate33(MulloEpi64(v, C2)), C1)
    else MulloEpi64(ShiftRotate31(MulloEpi64(v, C1)), C2)
  }

  function PremixVector(v: seq<Word64>): (w: seq<Word64>)
    ensures |w| == |v|
  {
    seq(|v|, k requires 0 <= k < |v| => PremixLane(k % 2 == 1, v[k]))
  }

  lemma PremixLaneIs(odd: bool, v: Word64)
    ensures PremixLane(odd, v) == if odd then Premix2(v) else Premix1(v)
  {
    hide MulloEpi64, Times, ShiftRotate31, ShiftRotate33, Rotate31, Rotate33;
    MulloIsProduct(v, C1);
    MulloIsProduct(v, C2);
    ShiftsRotate(Times(v, C1));
    ShiftsRotate(Times(v, C2));
    MulloIsProduct(Rotate31(Times(v, C1)), C2);
    MulloIsProduct(Rotate33(Times(v, C2)), C1);
  }

  /** A vector of one or two blocks premixes to their words. */
  lemma PremixVectorWords(input: seq<byte>, at: nat, lanes: nat)
    requires lanes == 2 || lanes == 4
    requires at + 8 * lanes <= |input|
    ensures PremixVector(LoadWords(input, at, lanes)) == Premixed(BlockWords, 16, input[at..at + 8 * lanes])
  {
    hide Premix1, Premix2, ReadWord, PremixLane, Premixed;
    var w, b := PremixVector(LoadWords(input, at, lanes)), input[at..at + 16];
    PremixLaneIs(false, ReadWord(input, at));
    PremixLaneIs(true, ReadWord(input, at + 8));
    ReadInSlice(input, at, 16, 0);
    ReadInSlice(input, at, 16, 8);
    PremixedOne(BlockWords, 16, b);
    if lanes == 2 {
      assert w == BlockWords(b);
    } else {
      var c := input[at + 16..at + 32];
      PremixLaneIs(false, ReadWord(input, at + 16));
      PremixLaneIs(true, ReadWord(input, at + 24));
      ReadInSlice(input, at + 16, 16, 0);
      ReadInSlice(input, at + 16, 16, 8);
      PremixedOne(BlockWords, 16, c);
      PremixedConcat(BlockWords, 16, b, c);
      assert b + c == input[at..at + 32];
      assert w == BlockWords(b) + BlockWords(c);
    }
  }

  method MixBlocks(hashes: Hashes, blocks: seq<Word64>) returns (h: Hashes)
    ensures h == MixWords(MixPair, 2, hashes, blocks)
  {
    hide MixHashes;
    h := hashes;
    var k := 0;
    assert blocks[0..] == blocks;
    while k + 2 <= |blocks|
      invariant 0 <= k <= |blocks| && MixWords(MixPair, 2, h, blocks[k..]) == MixWords(MixPair, 2, hashes, blocks)
    {
      assert blocks[k..][..2] == [blocks[k], blocks[k + 1]] && blocks[k..][2..] == blocks[k + 2..];
      h := MixHashes(h, blocks[k], blocks[k + 1]);
      k := k + 2;
    }
  }

  /** `n` words fill whole vectors. */
  predicate Fills(lanes: nat, n: nat) {
    (lanes == 2 || lanes == 4) && n % lanes == 0
  }

  lemma FillsNext(lanes: nat, n: nat, words: nat)
    requires Fills(lanes, n) && Fills(lanes, words) && n < words
    ensures n + lanes <= words && Fills(lanes, n + lanes)
  {
    Division.MultipleStep(n, words, lanes);
  }

  lemma FillsSome(lanes: nat, words: nat)
    requires Fills(lanes, words)
    ensures Fills(lanes, 0)
  {
  }

  lemma GroupsFill()
    ensures Fills(4, 16) && Fills(4, 4) && Fills(2, 8) && Fills(2, 2)
  {
  }

  /** Premixes `words` words into the staging array, a vector of `lanes` at a time. */
  method PremixInto(input: seq<byte>, offset: nat, words: nat, lanes: nat, mixed: array<Word64>)
    requires Fills(lanes, words)
    requires words <= mixed.Length && offset + 8 * words <= |input|
    modifies mixed
    ensures mixed[..words] == Premixed(BlockWords, 16, input[offset..offset + 8 * words])
  {
    hide Fills, PremixVector, Premixed, LoadWords, BlockWords;
    var n := 0;
    FillsSome(lanes, words);
    assert mixed[..0] == [] && input[offset..offset] == [];
    PremixedNothing();
    while n < words
      invariant 0 <= n <= words && Fills(lanes, n)
      invariant mixed[..n] == Premixed(BlockWords, 16, input[offset..offset + 8 * n])
    {
      FillsNext(lanes, n, words);
      n := StoreVector(input, offset, n, lanes, mixed);
    }
  }

  lemma PremixedNothing()
    ensures Premixed(BlockWords, 16, []) == []
  {
  }

  method StoreVector(input: seq<byte>, offset: nat, n: nat, lanes: nat, mixed: array<Word64>) returns (n': nat)
    requires Fills(lanes, n)
    requires n + lanes <= mixed.Length && offset + 8 * (n + lanes) <= |input|
    requires mixed[..n] == Premixed(BlockWords, 16, input[offset..offset + 8 * n])
    modifies mixed
    ensures n' == n + lanes && mixed[..n'] == Premixed(BlockWords, 16, input[offset..offset + 8 * n'])
  {
    hide PremixVector, Premixed, LoadWords, BlockWords;
    var at := offset + 8 * n;
    var values := PremixVector(LoadWords(input, at, lanes));
    PremixVectorWords(input, at, lanes);
    ghost var was := mixed[..n];
    forall k | 0 <= k < lanes {
      mixed[n + k] := values[k];
    }
    n' := n + lanes;
    assert mixed[..n] == was;
    assert mixed[..n'] == was + values;
    ghost var a, b := input[offset..at], input[at..at + 8 * lanes];
    assert a + b == input[offset..offset + 8 * n'];
    PremixedConcat(BlockWords, 16, a, b);
  }

  /** One group: premixed in vectors, then mixed in block order. */
  method MixGroup(input: seq<byte>, offset: nat, words: nat, lanes: nat, mixed: array<Word64>, hashes: Hashes)
    returns (h: Hashes)
    requires Fills(lanes, words)
    requires words <= mixed.Length && offset + 8 * words <= |input|
    modifies mixed
    ensures h == Body(hashes, input[offset..offset + 8 * words])
  {
    hide Premixed, MixWords, Step, BlockWords, MixPair;
    PremixInto(input, offset, words, lanes, mixed);
    MixWordsIsBody(hashes, input[offset..offset + 8 * words]);
    h := MixBlocks(hashes, mixed[..words]);
  }

  /** After some whole blocks, the next group continues the fold. */
  lemma BodyContinues(hashes: Hashes, input: seq<byte>, offset: nat, n: nat)
    requires offset % 16 == 0 && offset + n <= |input|
    ensures Body(Body(hashes, input[..offset]), input[offset..offset + n]) == Body(hashes, input[..offset + n])
  {
    hide *;
    assert input[..offset + n] == input[..offset] + input[offset..offset + n];
    BodyConcat(hashes, input[..offset], input[offset..offset + n]);
  }

  method MixBodyAvx2(input: seq<byte>, hashes: Hashes) returns (h: Hashes)
    requires |input| % 16 == 0
    ensures h == Body(hashes, input)
  {
    hide *;
    var mixed := new Word64[16](_ => 0);
    var offset := 0;
    h := hashes;
    GroupsFill();
    BodyNothing(hashes, input[..0]);
    while offset + 128 <= |input|
      invariant 0 <= offset <= |input| && offset % 16 == 0 && h == Body(hashes, input[..offset])
    {
      h := MixGroup(input, offset, 16, 4, mixed, h);
      BodyContinues(hashes, input, offset, 128);
      offset := offset + 128;
    }
    while offset + 32 <= |input|
      invariant 0 <= offset <= |input| && offset % 16 == 0 && h == Body(hashes, input[..offset])
    {
      h := MixGroup(input, offset, 4, 4, mixed, h);
      BodyContinues(hashes, input, offset, 32);
      offset := offset + 32;
    }
    if offset < |input| {
      var value1, value2 := ReadWord(input, offset), ReadWord(input, offset + 8);
      OneBlock(h, input, offset);
      BodyContinues(hashes, input, offset, 16);
      h := MixHashes(h, Premix1(value1), Premix2(value2));
      offset := offset + 16;
    }
    assert input[..offset] == input;
  }

  lemma OneBlock(h: Hashes, input: seq<byte>, offset: nat)
    requires offset + 16 <= |input|
    ensures Body(h, input[offset..offset + 16])
         == MixHashes(h, Premix1(ReadWord(input, offset)), Premix2(ReadWord(input, offset + 8)))
  {
    hide MixHashes, Premix1, Premix2, ReadU64, Number, Body;
    var b := input[offset..offset + 16];
    BodyStep(h, b);
    assert b[..16] == b && b[16..] == [];
    BodyNothing(Step(h, b), []);
    ReadInSlice(input, offset, 16, 0);
    ReadInSlice(input, offset, 16, 8);
  }

  method MixBodySse41(input: seq<byte>, hashes: Hashes) returns (h: Hashes)
    requires |input| % 16 == 0
    ensures h == Body(hashes, input)
  {
    hide Body;
    var mixed := new Word64[8](_ => 0);
    var offset := 0;
    h := hashes;
    BodyNothing(hashes, input[..0]);
    while offset + 64 <= |input|
      invariant 0 <= offset <= |input| && offset % 16 == 0 && h == Body(hashes, input[..offset])
    {
      h := MixGroup(input, offset, 8, 2, mixed, h);
      BodyContinues(hashes, input, offset, 64);
      offset := offset + 64;
    }
    while offset < |input|
      invariant 0 <= offset <= |input| && offset % 16 == 0 && h == Body(hashes, input[..offset])
    {
      h := MixGroup(input, offset, 2, 2, mixed, h);
      BodyContinues(hashes, input, offset, 16);
      offset := offset + 16;
    }
    assert input[..offset] == input;
  }

  datatype Backend = Scalar | Sse41 | Avx2

  method MixBody(backend: Backend, blocks: seq<byte>, hashes: Hashes) returns (h: Hashes)
    requires |blocks| % 16 == 0
    ensures h == Body(hashes, blocks)
  {
    match backend {
      case Scalar => h := MixBodyScalar(blocks, hashes);
      case Sse41 => h := MixBodySse41(blocks, hashes);
      case Avx2 => h := MixBodyAvx2(blocks, hashes);
    }
  }

  // ----- digests -----

  /** Up to eight tail bytes as a number. */
  function TailWord(s: seq<byte>): Word64
    requires |s| <= 8
  {
    Number(LittleEndian(s))
  }

  /** The digest of a state, its unmixed tail and the message length. */
  function FinishTail(tail: seq<byte>, hashes: Hashes, length: Word64): Hashes
    requires |tail| < 16
  {
    var h2 := if |tail| > 8 then Xor(hashes.h2, Premix2(TailWord(tail[8..]))) else hashes.h2;
    var head := if |tail| < 8 then tail else tail[..8];
    var h1 := if tail != [] then Xor(hashes.h1, Premix1(TailWord(head))) else hashes.h1;
    Finalize(Hashes(h1, h2), length)
  }

  function Finalize(h: Hashes, length: Word64): Hashes {
    var x1, x2 := Xor(h.h1, length), Xor(h.h2, length);
    var s1 := Plus(x1, x2);
    var f1, f2 := Fmix64(s1), Fmix64(Plus(x2, s1));
    var d1 := Plus(f1, f2);
    Hashes(d1, Plus(f2, d1))
  }

  /** The tail mixed from the widest loads that stay inside it. */
  method FinishTailLoads(tail: seq<byte>, hashes: Hashes, length: Word64) returns (d: Hashes)
    requires |tail| < 16
    ensures d == FinishTail(tail, hashes, length)
  {
    hide Premix1, Premix2, Xor, Number, Finalize, LittleEndian, ReadPartialU64;
    var h1, h2 := hashes.h1, hashes.h2;
    if |tail| > 8 {
      PartialIsLittleEndian(tail[8..]);
      h2 := Xor(h2, Premix2(Number(ReadPartialU64(tail[8..]))));
    }
    if tail != [] {
      var head := tail[..if |tail| < 8 then |tail| else 8];
      assert |tail| < 8 ==> head == tail;
      PartialIsLittleEndian(head);
      h1 := Xor(h1, Premix1(Number(ReadPartialU64(head))));
    }
    d := Finalize(Hashes(h1, h2), length);
  }

  /** The digest of a message, defined in one piece. */
  function Digest(seed: Word32, message: seq<byte>): Hashes {
    var (body, tail) := Split(message, 16);
    FinishTail(tail, Body(Hashes(seed, seed), body), |message| % WHOLE)
  }

  method Murmur3X64128(backend: Backend, input: seq<byte>, seed: Word32) returns (d: Hashes)
    ensures d == Digest(seed, input)
  {
    hide Body, FinishTail, Split;
    var (blocks, tail) := Split(input, 16);
    var hashes := MixBody(backend, blocks, Hashes(seed, seed));
    d := FinishTailLoads(tail, hashes, |input| % WHOLE);
  }

  class Murmur3X64Hasher128 {
    const backend: Backend
    const tail: BlockBuffer
    var hashes: Hashes
    var length: Word64
    ghost const seed: Word32
    ghost var message: seq<byte>

    /** The state is that of the whole message so far; only the length wraps. */
    ghost predicate Valid()
      reads this, tail, tail.bytes
    {
      && tail.Valid() && tail.size == 16
      && Split(message, 16).1 == tail.Remaining()
      && hashes == Body(Hashes(seed, seed), Split(message, 16).0)
      && length == |message| % WHOLE
    }

    constructor (backend: Backend, seed: Word32)
      ensures Valid() && message == [] && this.seed == seed && fresh(tail) && fresh(tail.bytes)
    {
      this.backend := backend;
      this.tail := new BlockBuffer(16);
      this.hashes, this.length := Hashes(seed, seed), 0;
      this.seed, this.message := seed, [];
      new;
      hide Body, Split;
      SplitNothing(16);
      BodyNothing(Hashes(seed, seed), []);
    }

    method Update(input: seq<byte>)
      requires Valid()
      modifies this`hashes, this`length, this`message, tail, tail.bytes
      ensures Valid() && message == old(message) + input
    {
      hide Body, Split, Flatten;
      ghost var body, rest := Split(message, 16).0, tail.Remaining();
      ghost var start := Hashes(seed, seed);
      length := Plus(length, |input| % WHOLE);
      LengthWraps64(|message|, |input|);
      var runs := tail.Consume(input);
      ghost var joined := Flatten(runs);
      WholeRuns(16, runs);
      SplitParts(message, 16, body, rest);
      UpdateSplit(16, message, body, rest, input, joined, tail.Remaining());
      BodyConcat(start, body, joined);
      hashes := MixRuns(backend, runs, hashes);
      message := message + input;
    }

    method GetDigest() returns (d: Hashes)
      requires Valid()
      ensures d == Digest(seed, message)
    {
      hide Body, FinishTail, Split;
      d := FinishTailLoads(tail.bytes[..tail.len], hashes, length);
    }
  }

  /** Mixes runs of blocks in order. */
  method MixRuns(backend: Backend, runs: seq<seq<byte>>, hashes: Hashes) returns (h: Hashes)
    requires forall k :: 0 <= k < |runs| ==> |runs[k]| % 16 == 0
    ensures h == Body(hashes, Flatten(runs))
  {
    hide Fold, Step, Flatten;
    h := hashes;
    var k := 0;
    assert runs[0..] == runs;
    while k < |runs|
      invariant 0 <= k <= |runs| && Body(h, Flatten(runs[k..])) == Body(hashes, Flatten(runs))
    {
      FoldRuns(Step, 16, h, runs[k..]);
      assert runs[k..][1..] == runs[k + 1..];
      h := MixBody(backend, runs[k], h);
      k := k + 1;
    }
    assert runs[k..] == [];
    NoRuns(h);
  }

  lemma NoRuns(h: Hashes)
    ensures Body(h, Flatten([])) == h
  {
    FlattenNothing();
    BodyNothing(h, []);
  }

  /** However a message is cut into updates, the digest is that of the whole. */
  method DigestChunks(backend: Backend, seed: Word32, chunks: seq<seq<byte>>) returns (d: Hashes)
    ensures d == Digest(seed, Flatten(chunks))
  {
    hide Digest, Murmur3X64Hasher128.Valid;
    var hasher := new Murmur3X64Hasher128(backend, seed);
    var k := 0;
    while k < |chunks|
      invariant 0 <= k <= |chunks| && hasher.Valid() && hasher.seed == seed
      invariant fresh(hasher) && fresh(hasher.tail) && fresh(hasher.tail.bytes)
      invariant hasher.message + Flatten(chunks[k..]) == Flatten(chunks)
    {
      assert chunks[k..][1..] == chunks[k + 1..];
      hasher.Update(chunks[k]);
      k := k + 1;
    }
    assert chunks[k..] == [] && hasher.message + [] == hasher.message;
    d := hasher.GetDigest();
  }
}
