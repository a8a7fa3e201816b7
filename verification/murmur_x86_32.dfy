/** MurmurHash3 x86 32-bit: the fold over four-byte blocks, its vector bodies and the incremental hasher. */
module MurmurX86Short {
  import opened Bytes
  import opened Division
  import opened MurmurWords
  import opened MurmurBlocks

  const C1: Word32 := 0xcc9e_2d51
  const C2: Word32 := 0x1b87_3593

  function Premix(v: Word32): Word32 { Times32(Rotate15(Times32(v, C1)), C2) }

  function MixHash(h: Word32, block: Word32): Word32 {
    Plus32(Times32(Rotate13(Xor32(h, block)), 5), 0xe654_6b64)
  }

  /** One block of four bytes. */
  function Step(h: Word32, block: seq<byte>): Word32 {
    if |block| != 4 then h else MixHash(h, Premix(ReadWord32(block, 0)))
  }

  function Body(h: Word32, blocks: seq<byte>): Word32 {
    Fold(Step, 4, h, blocks)
  }

  lemma BodyStep(h: Word32, blocks: seq<byte>)
    requires |blocks| >= 4
    ensures Body(h, blocks) == Body(Step(h, blocks[..4]), blocks[4..])
  {
    hide Step;
  }

  lemma BodyNothing(h: Word32, blocks: seq<byte>)
    requires |blocks| < 4
    ensures Body(h, blocks) == h
  {
  }

  lemma BodyConcat(h: Word32, a: seq<byte>, b: seq<byte>)
    requires |a| % 4 == 0
    ensures Body(h, a + b) == Body(Body(h, a), b)
  {
    FoldConcat(Step, 4, h, a, b);
  }

  method MixBodyScalar(input: seq<byte>, hash: Word32) returns (h: Word32)
    requires |input| % 4 == 0
    ensures h == Body(hash, input)
  {
    hide Body, MixHash, Premix, ReadWord32;
    h := hash;
    var offset := 0;
    assert input[0..] == input;
    while offset < |input|
      invariant 0 <= offset <= |input| && offset % 4 == 0 && Body(h, input[offset..]) == Body(hash, input)
    {
      var block := Premix(ReadWord32(input, offset));
      BodyStep(h, input[offset..]);
      ReadWord32InSlice(input, offset, 4, 0);
      assert input[offset..][..4] == input[offset..offset + 4] && input[offset..][4..] == input[offset + 4..];
      h := MixHash(h, block);
      offset := offset + 4;
    }
    BodyNothing(h, input[offset..]);
  }

  // ----- vector bodies -----

  /** The premixed words of `n` blocks. */
  function Words(input: seq<byte>, at: nat, n: nat): (w: seq<Word32>)
    requires at + 4 * n <= |input|
    ensures |w| == n
  {
    seq(n, k requires 0 <= k < n => Premix(ReadWord32(input, at + 4 * k)))
  }

  function MixOne(h: Word32, w: seq<Word32>): Word32 {
    if |w| != 1 then h else MixHash(h, w[0])
  }

  /** Premixing all blocks first and mixing their words after is mixing block after block. */
  lemma {:induction false} MixWordsIsBody(h: Word32, input: seq<byte>, at: nat, n: nat)
    requires at + 4 * n <= |input|
    ensures MixWords(MixOne, 1, h, Words(input, at, n)) == Body(h, input[at..at + 4 * n])
    decreases n
  {
    hide Premix, MixHash, ReadWord32, Body;
    var x := input[at..at + 4 * n];
    if n == 0 {
      BodyNothing(h, x);
    } else {
      var w := Words(input, at, n);
      assert x[..4] == input[at..at + 4] && x[4..] == input[at + 4..at + 4 + 4 * (n - 1)];
      ReadWord32InSlice(input, at, 4, 0);
      BodyStep(h, x);
      assert w[..1] == [w[0]] && w[1..] == Words(input, at + 4, n - 1);
      MixWordsIsBody(MixHash(h, w[0]), input, at + 4, n - 1);
    }
  }

  /** A lane's rotation is made of shifts. */
  function PremixLane(v: Word32): Word32 {
    Times32(LaneShiftRotate32(0, Times32(v, C1)), C2)
  }

  lemma PremixLaneIs(v: Word32)
    ensures PremixLane(v) == Premix(v)
  {
    hide Times32, LaneShiftRotate32, Bits32, Number32;
    LaneShiftsRotate32(0, Times32(v, C1));
  }

  /** Premixes and stores the next vector. */
  method StoreVector(input: seq<byte>, offset: nat, n: nat, lanes: nat, mixed: array<Word32>)
    requires n + lanes <= mixed.Length && offset + 4 * (n + lanes) <= |input|
    requires mixed[..n] == Words(input, offset, n)
    modifies mixed
    ensures mixed[..n + lanes] == Words(input, offset, n + lanes)
  {
    hide PremixLane, Premix, ReadWord32;
    var at := offset + 4 * n;
    var values := seq(lanes, k requires 0 <= k < lanes => PremixLane(ReadWord32(input, at + 4 * k)));
    ghost var was := mixed[..n];
    forall k | 0 <= k < lanes ensures values[k] == Premix(ReadWord32(input, at + 4 * k)) {
      PremixLaneIs(ReadWord32(input, at + 4 * k));
    }
    forall k | 0 <= k < lanes {
      mixed[n + k] := values[k];
    }
    assert mixed[..n + lanes] == was + values;
    assert was + values == Words(input, offset, n + lanes);
  }

  /** One group of `vectors` vectors: all premixed into the staging array, then mixed in block order. */
  method MixGroup(input: seq<byte>, offset: nat, vectors: nat, lanes: nat, mixed: array<Word32>, hash: Word32)
    returns (h: Word32)
    requires vectors * lanes <= mixed.Length && offset + 4 * (vectors * lanes) <= |input|
    modifies mixed
    ensures h == Body(hash, input[offset..offset + 4 * (vectors * lanes)])
  {
    hide Words, Body, MixHash, MixOne, MixWords;
    var vector, n := 0, 0;
    assert mixed[..0] == Words(input, offset, 0);
    while vector < vectors
      invariant 0 <= vector <= vectors && n == vector * lanes <= vectors * lanes
      invariant mixed[..n] == Words(input, offset, n)
    {
      MulAtMost(vector + 1, vectors, lanes);
      StoreVector(input, offset, n, lanes, mixed);
      vector, n := vector + 1, n + lanes;
    }
    MixWordsIsBody(hash, input, offset, n);
    h := MixBlocks(hash, mixed[..n]);
  }

  method MixBlocks(hash: Word32, blocks: seq<Word32>) returns (h: Word32)
    ensures h == MixWords(MixOne, 1, hash, blocks)
  {
    hide MixHash;
    h := hash;
    var k := 0;
    assert blocks[0..] == blocks;
    while k < |blocks|
      invariant 0 <= k <= |blocks| && MixWords(MixOne, 1, h, blocks[k..]) == MixWords(MixOne, 1, hash, blocks)
    {
      assert blocks[k..][..1] == [blocks[k]] && blocks[k..][1..] == blocks[k + 1..];
      h := MixHash(h, blocks[k]);
      k := k + 1;
    }
  }

  lemma BodyContinues(hash: Word32, input: seq<byte>, offset: nat, n: nat)
    requires offset % 4 == 0 && offset + n <= |input|
    ensures Body(Body(hash, input[..offset]), input[offset..offset + n]) == Body(hash, input[..offset + n])
  {
    hide *;
    assert input[..offset + n] == input[..offset] + input[offset..offset + n];
    BodyConcat(hash, input[..offset], input[offset..offset + n]);
  }

  /** Groups of four vectors, single vectors, then single blocks. */
  method MixBodyVector(lanes: nat, input: seq<byte>, hash: Word32) returns (h: Word32)
    requires lanes == 4 || lanes == 8
    requires |input| % 4 == 0
    ensures h == Body(hash, input)
  {
    hide *;
    var mixed := new Word32[4 * lanes](_ => 0);
    var offset := 0;
    h := hash;
    BodyNothing(hash, input[..0]);
    while offset + 16 * lanes <= |input|
      invariant 0 <= offset <= |input| && offset % 4 == 0 && h == Body(hash, input[..offset])
    {
      h := MixGroup(input, offset, 4, lanes, mixed, h);
      BodyContinues(hash, input, offset, 16 * lanes);
      offset := offset + 16 * lanes;
    }
    while offset + 4 * lanes <= |input|
      invariant 0 <= offset <= |input| && offset % 4 == 0 && h == Body(hash, input[..offset])
    {
      h := MixGroup(input, offset, 1, lanes, mixed, h);
      BodyContinues(hash, input, offset, 4 * lanes);
      offset := offset + 4 * lanes;
    }
    h := MixBodyScalar(input[offset..], h);
    BodyContinues(hash, input, offset, |input| - offset);
    assert input[offset..] == input[offset..offset + (|input| - offset)];
    assert input[..|input|] == input;
  }

  datatype Backend = Scalar | Sse41 | Avx2

  method MixBody(backend: Backend, blocks: seq<byte>, hash: Word32) returns (h: Word32)
    requires |blocks| % 4 == 0
    ensures h == Body(hash, blocks)
  {
    match backend {
      case Scalar => h := MixBodyScalar(blocks, hash);
      case Sse41 => h := MixBodyVector(4, blocks, hash);
      case Avx2 => h := MixBodyVector(8, blocks, hash);
    }
  }

  // ----- digests -----

  /** The digest of a state, its unmixed tail and the message length. */
  function FinishTail(tail: seq<byte>, h: Word32, length: Word32): Word32 {
    var mixed := if tail == [] then h else Xor32(h, Premix(Number32(PartialWord(tail, |tail|, 0))));
    Fmix32(Xor32(mixed, length))
  }

  /** The tail word is collected from its last byte. */
  method FinishTailBytes(tail: seq<byte>, hash: Word32, length: Word32) returns (d: Word32)
    requires |tail| < 4
    ensures d == FinishTail(tail, hash, length)
  {
    hide Premix, Xor32, Number32, Fmix32, Byte32, PartialWord;
    var h := hash;
    var word: bv32 := 0;
    if |tail| == 3 {
      word := XorBits(word, Byte32(tail[2], 2));
    }
    if |tail| >= 2 {
      word := XorBits(word, Byte32(tail[1], 1));
    }
    if tail != [] {
      word := XorBits(word, Byte32(tail[0], 0));
      TailBits(tail);
      h := Xor32(h, Premix(Number32(word)));
    }
    d := Fmix32(Xor32(h, length));
  }

  function XorBits(x: bv32, y: bv32): bv32 { x ^ y }

  lemma DisjointOne(a: byte)
    ensures XorBits(0, Byte32(a, 0)) == Or32(0, Byte32(a, 0))
  {
  }

  lemma DisjointTwo(a: byte, b: byte)
    ensures XorBits(XorBits(0, Byte32(b, 1)), Byte32(a, 0)) == Or32(Or32(0, Byte32(a, 0)), Byte32(b, 1))
  {
  }

  lemma DisjointThree(a: byte, b: byte, c: byte)
    ensures XorBits(XorBits(XorBits(0, Byte32(c, 2)), Byte32(b, 1)), Byte32(a, 0)) ==
            Or32(Or32(Or32(0, Byte32(a, 0)), Byte32(b, 1)), Byte32(c, 2))
  {
  }

  /** Bytes in different places: exclusive and inclusive or are the same, in either order. */
  lemma TailBits(tail: seq<byte>)
    requires 1 <= |tail| <= 3
    ensures |tail| == 1 ==> PartialWord(tail, 1, 0) == XorBits(0, Byte32(tail[0], 0))
    ensures |tail| == 2 ==> PartialWord(tail, 2, 0) == XorBits(XorBits(0, Byte32(tail[1], 1)), Byte32(tail[0], 0))
    ensures |tail| == 3 ==>
              PartialWord(tail, 3, 0) ==
              XorBits(XorBits(XorBits(0, Byte32(tail[2], 2)), Byte32(tail[1], 1)), Byte32(tail[0], 0))
  {
    hide XorBits, Or32, Byte32, PartialWord;
    PartialWordStep(tail, 0, 0);
    PartialWordStep(tail, 1, 0);
    DisjointOne(tail[0]);
    if |tail| >= 2 {
      PartialWordStep(tail, 2, 0);
      DisjointTwo(tail[0], tail[1]);
    }
    if |tail| == 3 {
      PartialWordStep(tail, 3, 0);
      DisjointThree(tail[0], tail[1], tail[2]);
    }
  }

  /** The digest of a message, defined in one piece. The length counts modulo 2^32. */
  function Digest(seed: Word32, message: seq<byte>): Word32 {
    var (body, tail) := Split(message, 4);
    FinishTail(tail, Body(seed, body), |message| % HALF)
  }

  method Murmur3X8632(backend: Backend, input: seq<byte>, seed: Word32) returns (d: Word32)
    ensures d == Digest(seed, input)
  {
    hide Body, FinishTail, Split;
    var (blocks, tail) := Split(input, 4);
    var hash := MixBody(backend, blocks, seed);
    d := FinishTailBytes(tail, hash, |input| % HALF);
  }

  class Murmur3X86Hasher32 {
    const backend: Backend
    const tail: BlockBuffer
    var hash: Word32
    var length: Word32
    ghost const seed: Word32
    ghost var message: seq<byte>

    ghost predicate Valid()
      reads this, tail, tail.bytes
    {
      && tail.Valid() && tail.size == 4
      && Split(message, 4).1 == tail.Remaining()
      && hash == Body(seed, Split(message, 4).0)
      && length == |message| % HALF
    }

    constructor (backend: Backend, seed: Word32)
      ensures Valid() && message == [] && this.seed == seed && fresh(tail) && fresh(tail.bytes)
    {
      this.backend := backend;
      this.tail := new BlockBuffer(4);
      this.hash, this.length := seed, 0;
      this.seed, this.message := seed, [];
      new;
      hide Body, Split;
      SplitNothing(4);
      BodyNothing(seed, []);
    }

    method Update(input: seq<byte>)
      requires Valid()
      modifies this`hash, this`length, this`message, tail, tail.bytes
      ensures Valid() && message == old(message) + input
    {
      hide Body, Split, Flatten;
      ghost var body, rest := Split(message, 4).0, tail.Remaining();
      ghost var start := seed;
      length := Plus32(length, |input| % HALF);
      LengthWraps32(|message|, |input|);
      var runs := tail.Consume(input);
      ghost var joined := Flatten(runs);
      WholeRuns(4, runs);
      SplitParts(message, 4, body, rest);
      UpdateSplit(4, message, body, rest, input, joined, tail.Remaining());
      BodyConcat(start, body, joined);
      hash := MixRuns(backend, runs, hash);
      message := message + input;
    }

    method GetDigest() returns (d: Word32)
      requires Valid()
      ensures d == Digest(seed, message)
    {
      hide Body, FinishTail, Split;
      d := FinishTailBytes(tail.bytes[..tail.len], hash, length);
    }
  }

  method MixRuns(backend: Backend, runs: seq<seq<byte>>, hash: Word32) returns (h: Word32)
    requires forall k :: 0 <= k < |runs| ==> |runs[k]| % 4 == 0
    ensures h == Body(hash, Flatten(runs))
  {
    hide Fold, Step, Flatten;
    h := hash;
    var k := 0;
    assert runs[0..] == runs;
    while k < |runs|
      invariant 0 <= k <= |runs| && Body(h, Flatten(runs[k..])) == Body(hash, Flatten(runs))
    {
      FoldRuns(Step, 4, h, runs[k..]);
      assert runs[k..][1..] == runs[k + 1..];
      h := MixBody(backend, runs[k], h);
      k := k + 1;
    }
    assert runs[k..] == [];
    FlattenNothing();
    BodyNothing(h, []);
  }

  /** However a message is cut into updates, the digest is that of the whole. */
  method DigestChunks(backend: Backend, seed: Word32, chunks: seq<seq<byte>>) returns (d: Word32)
    ensures d == Digest(seed, Flatten(chunks))
  {
    hide Digest, Murmur3X86Hasher32.Valid;
    var hasher := new Murmur3X86Hasher32(backend, seed);
    var k := 0;
    while k < |chunks|
      invariant 0 <= k <= |chunks| && hasher.Valid() && hasher.seed == seed
      invariant fresh(hasher) && fresh(hasher.tail) && fresh(hasher.tail.bytes)
      invariant hasher.message + Flatten(chunks[k..]) == Flatten(chunks)
    {
      assert chunks[k..][1..] == chunks[k + 1..];
      hasher.Update(chunks[k]);
      k := k + 1;
    }
    assert chunks[k..] == [] && hasher.message + [] == hasher.message;
    d := hasher.GetDigest();
  }
}
