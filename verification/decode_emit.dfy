/** Packed vector stores of the decoders and what one more block does to the destination. */
module DecodeEmit {
  import opened Bytes
  import opened Alphabet
  import opened Quantum
  import opened Vectors

  /** How far the last store of a group may reach: exactly its payload, or four bytes further. */
  datatype StoreMode = ExactStore | PaddedStore

  function Slack(s: StoreMode): (pad: seq<byte>)
    ensures |pad| <= 4
  {
    if s == ExactStore then [] else LANE_PADDING
  }

  /** Destination memory once `q` input quartets are decoded at `at`, with `pad` bytes of store
      overlap behind them. */
  ghost function Progress(before: seq<byte>, at: nat, a: DecodeAlphabet, input: seq<byte>, q: nat, pad: seq<byte>)
    : seq<byte>
    requires 4 * q <= |input|
    requires at + 3 * q + |pad| <= |before|
  {
    Store(before, at, Decoded(a, input[..4 * q]) + pad)
  }

  lemma ProgressStart(before: seq<byte>, at: nat, a: DecodeAlphabet, input: seq<byte>)
    requires at <= |before|
    ensures Progress(before, at, a, input, 0, []) == before
  {
    StoreNothing(before, at);
  }

  /** Storing a block's decoding `d` right behind the decoded prefix extends the prefix and repairs
      the overlap `pad` that the previous store left. */
  lemma ProgressStep(before: seq<byte>, at: nat, a: DecodeAlphabet, input: seq<byte>, q: nat, m: nat,
                     pad: seq<byte>, d: seq<byte>, pad': seq<byte>)
    requires 4 * (q + m) <= |input|
    requires d == Decoded(a, input[4 * q..4 * (q + m)]) && |d| == 3 * m
    requires |pad| <= |d| + |pad'|
    requires at + 3 * (q + m) + |pad'| <= |before|
    ensures Store(Progress(before, at, a, input, q, pad), at + 3 * q, d + pad')
         == Progress(before, at, a, input, q + m, pad')
  {
    hide Store, Decoded;
    var head, block := input[..4 * q], input[4 * q..4 * (q + m)];
    assert head + block == input[..4 * (q + m)];
    DecodedConcat(a, head, block);
    StoreOverlap(before, at, Decoded(a, head), pad, d + pad');
    ConcatAssociates(Decoded(a, head), d, pad');
  }

  // ----- 128-bit stores -----

  method Store12Exact(output: array<byte>, at: nat, value: seq<byte>)
    requires |value| == 16 && at + 12 <= output.Length
    modifies output
    ensures output[..] == Store(old(output[..]), at, value[..12])
  {
    ghost var before := output[..];
    StoreInto(output, at, value[..8]);
    StoreInto(output, at + 8, value[8..12]);
    StoreJoin(before, at, value[..8], value[8..12]);
    assert value[..8] + value[8..12] == value[..12];
  }

  method Store12Padded(output: array<byte>, at: nat, value: seq<byte>)
    requires |value| == 16 && at + 16 <= output.Length
    modifies output
    ensures output[..] == Store(old(output[..]), at, value)
  {
    StoreInto(output, at, value);
  }

  /** What the packed-store helpers need: `m` valid quartets classified, memory at `Progress`. */
  ghost predicate CanEmit(a: DecodeAlphabet, indices: seq<byte>, memory: seq<byte>, at: nat,
                          before: seq<byte>, input: seq<byte>, q: nat, m: nat, pad: seq<byte>)
  {
    && |indices| == 4 * m && |pad| <= 3 * m
    && Classified(a, indices, input, 4 * q)
    && at + 3 * q + |pad| <= |before|
    && memory == Progress(before, at, a, input, q, pad)
  }

  lemma EmitIndices(a: DecodeAlphabet, indices: seq<byte>, input: seq<byte>, q: nat, m: nat)
    requires |indices| == 4 * m && Classified(a, indices, input, 4 * q)
    ensures Sextets(indices) && Decode(indices) == Decoded(a, input[4 * q..4 * (q + m)])
  {
    hide StrictValue, Decode;
    assert forall k :: 0 <= k < |indices| ==> indices[k] < 64;
    assert indices == Map(StrictTable(a), input[4 * q..4 * (q + m)]);
  }

  /** Packs sixteen validated indices and stores them behind the decoded prefix. */
  method Emit16(a: DecodeAlphabet, s: StoreMode, indices: seq<byte>, output: array<byte>, at: nat, destination: nat,
                ghost before: seq<byte>, ghost input: seq<byte>, ghost q: nat, ghost pad: seq<byte>)
    requires destination == 3 * q
    requires CanEmit(a, indices, output[..], at, before, input, q, 4, pad)
    requires |before| == output.Length && at + 3 * (q + 4) + |Slack(s)| <= output.Length
    modifies output
    ensures output[..] == Progress(before, at, a, input, q + 4, Slack(s))
  {
    hide Store, Decode, Dwords, StrictValue, Progress, Decoded;
    EmitIndices(a, indices, input, q, 4);
    var value := Gather(Dwords(indices), PACK_SHUFFLE);
    PackedLane(indices);
    ghost var d := Decode(indices);
    if s == ExactStore {
      Store12Exact(output, at + destination, value);
      assert value[..12] == d + [];
    } else {
      Store12Padded(output, at + destination, value);
    }
    ProgressStep(before, at, a, input, q, 4, pad, d, Slack(s));
  }

  // ----- 256-bit stores -----

  /** The three shapes in which 24 payload bytes leave a 256-bit register. */
  datatype Shape = Exact | Padded | Wide

  function ShapeOf(s: StoreMode): Shape {
    if s == ExactStore then Exact else Padded
  }

  /** The store overlap each shape leaves behind its payload: nothing, the upper lane's padding, or
      a duplicate of the first eight payload bytes. */
  function Overlap(shape: Shape, value: seq<byte>): (pad: seq<byte>)
    requires |value| == 32
    ensures |pad| == match shape case Exact => 0 case Padded => 4 case Wide => 8
  {
    match shape case Exact => [] case Padded => value[28..] case Wide => value[..8]
  }

  method Store24(shape: Shape, output: array<byte>, at: nat, value: seq<byte>)
    requires |value| == 32 && at + 24 + |Overlap(shape, value)| <= output.Length
    modifies output
    ensures output[..] == Store(old(output[..]), at, value[..12] + value[16..28] + Overlap(shape, value))
  {
    hide Store;
    ghost var before := output[..];
    assert value[..12] + value[12..16] == value[..16];
    match shape {
      case Exact =>
        StoreInto(output, at, value[..16]);
        StoreInto(output, at + 12, value[16..24]);
        StoreOverlap(before, at, value[..12], value[12..16], value[16..24]);
        StoreInto(output, at + 20, value[24..28]);
        StoreJoin(before, at, value[..12] + value[16..24], value[24..28]);
        assert (value[..12] + value[16..24]) + value[24..28] == value[..12] + value[16..28] + [];
      case Padded =>
        StoreInto(output, at, value[..16]);
        StoreInto(output, at + 12, value[16..]);
        StoreOverlap(before, at, value[..12], value[12..16], value[16..]);
        assert value[..12] + value[16..] == value[..12] + value[16..28] + value[28..];
      case Wide =>
        var permuted := value[..12] + value[16..28] + value[..8];
        StoreInto(output, at, permuted);
    }
  }

  lemma {:induction false} PackedPair(indices: seq<byte>, value: seq<byte>)
    requires |indices| == 32 && Sextets(indices)
    requires value == Gather(Dwords(indices[..16]), PACK_SHUFFLE) + Gather(Dwords(indices[16..]), PACK_SHUFFLE)
    ensures value[..12] + value[16..28] == Decode(indices)
  {
    hide Decode, Dwords, Gather;
    PackedLane(indices[..16]);
    PackedLane(indices[16..]);
    assert indices == indices[..16] + indices[16..];
    DecodeConcat(indices[..16], indices[16..]);
    assert value[..12] == Decode(indices[..16]);
    assert value[16..28] == Decode(indices[16..]);
  }

  /** Packs thirty-two validated indices, one 128-bit lane at a time, and stores them behind the
      decoded prefix in the given shape. */
  method Emit32(a: DecodeAlphabet, shape: Shape, indices: seq<byte>, output: array<byte>, at: nat, destination: nat,
                ghost before: seq<byte>, ghost input: seq<byte>, ghost q: nat, ghost pad: seq<byte>)
    returns (ghost pad': seq<byte>)
    requires destination == 3 * q
    requires CanEmit(a, indices, output[..], at, before, input, q, 8, pad)
    requires |before| == output.Length
    requires at + 3 * (q + 8) + (match shape case Exact => 0 case Padded => 4 case Wide => 8) <= output.Length
    modifies output
    ensures |pad'| == match shape case Exact => 0 case Padded => 4 case Wide => 8
    ensures shape == Padded ==> pad' == LANE_PADDING
    ensures output[..] == Progress(before, at, a, input, q + 8, pad')
  {
    hide Store, Decode, Dwords, StrictValue, Progress, Decoded;
    EmitIndices(a, indices, input, q, 8);
    var value := Gather(Dwords(indices[..16]), PACK_SHUFFLE) + Gather(Dwords(indices[16..]), PACK_SHUFFLE);
    PackedLane(indices[16..]);
    PackedPair(indices, value);
    pad' := Overlap(shape, value);
    Store24(shape, output, at + destination, value);
    ProgressStep(before, at, a, input, q, 8, pad, Decode(indices), pad');
  }

  // ----- 512-bit masked stores -----

  /** Packs a 64-lane vector whose first `4 * m` lanes are validated, and stores exactly their
      payload under a mask; the other lanes may hold anything. */
  method Emit64Masked(a: DecodeAlphabet, indices: seq<byte>, shuffle: seq<nat>, m: nat, output: array<byte>, at: nat,
                      destination: nat, ghost before: seq<byte>, ghost input: seq<byte>, ghost q: nat)
    requires destination == 3 * q
    requires m <= 16 && 4 * m <= |indices| && |shuffle| == 64 && shuffle[..48] == PackIndices(48)
    requires CanEmit(a, indices[..4 * m], output[..], at, before, input, q, m, [])
    requires |before| == output.Length && at + 3 * (q + m) <= output.Length
    modifies output
    ensures output[..] == Progress(before, at, a, input, q + m, [])
  {
    hide Store, Decode, Dwords, StrictValue, Progress, Decoded;
    EmitIndices(a, indices[..4 * m], input, q, m);
    var packed := Gather(Dwords(indices), shuffle);
    PackedPrefix(indices, indices[..4 * m]);
    ghost var d := Decode(indices[..4 * m]);
    assert forall k :: 0 <= k < 3 * m ==> shuffle[k] == PackIndices(3 * m)[k] by {
      assert forall k :: 0 <= k < 48 ==> shuffle[k] == shuffle[..48][k];
    }
    assert packed[..3 * m] == d + [];
    StoreInto(output, at + destination, packed[..3 * m]);
    ProgressStep(before, at, a, input, q, m, [], d, []);
  }

  // ----- NEON interleaved stores -----

  /** Lane vector `j` of a de-interleaving load of 64 bytes. */
  function Deinterleave(block: seq<byte>, j: nat): (v: seq<byte>)
    requires |block| == 64 && j < 4
    ensures |v| == 16
  {
    seq(16, i requires 0 <= i < 16 => block[4 * i + j])
  }

  /** Shift-and-or packing of four index vectors, stored with three-way interleaving. */
  function InterleavedPack(p: seq<byte>, q: seq<byte>, r: seq<byte>, s: seq<byte>): (m: seq<byte>)
    requires |p| == |q| == |r| == |s| == 16
    ensures |m| == 48
  {
    seq(48, k requires 0 <= k < 48 =>
      if k % 3 == 0 then First(p[k / 3], q[k / 3])
      else if k % 3 == 1 then Second(q[k / 3], r[k / 3])
      else Third(r[k / 3], s[k / 3]))
  }

  lemma {:induction false} InterleavedPackIsDecode(v: seq<byte>)
    requires |v| == 64
    ensures InterleavedPack(Deinterleave(v, 0), Deinterleave(v, 1), Deinterleave(v, 2), Deinterleave(v, 3)) == Decode(v)
  {
    hide Decode;
    var m := InterleavedPack(Deinterleave(v, 0), Deinterleave(v, 1), Deinterleave(v, 2), Deinterleave(v, 3));
    forall k | 0 <= k < 48 ensures m[k] == Decode(v)[k] {
      DecodeAt(v, k / 3);
    }
  }
}
