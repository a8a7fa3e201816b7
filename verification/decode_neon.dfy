/** The NEON block decoders. The plain form accumulates error lanes over up to 4096 input bytes and
tests them late, so it may store blocks that turn out invalid; the validated form never does. */
module DecodeNeon {
  import opened Bytes
  import opened Alphabet
  import opened Quantum
  import opened DecodeLanes
  import opened Vectors
  import opened DecodeEmit
  import opened DecodeKernels
  import Division

  const DECODE_ERROR_CHECK_INTERVAL: nat := 4096

  /** The index lanes, whether their bytes are in the alphabet or not. */
  function RawIndices(a: DecodeAlphabet, s: seq<byte>): (v: seq<byte>)
    ensures |v| == |s|
  {
    Map((b: byte) => IndexLane(Neon, a, b, HighNibble(b)), s)
  }

  /** What the late test stores for these bytes: their decoding if they are valid. */
  function RawDecoded(a: DecodeAlphabet, s: seq<byte>): (d: seq<byte>)
    ensures |d| == DecodedSymbolLen(|s|)
  {
    Decode(RawIndices(a, s))
  }

  lemma RawValid(a: DecodeAlphabet, s: seq<byte>)
    requires AllValid(a, s)
    ensures RawDecoded(a, s) == Decoded(a, s)
  {
    hide StrictValue, IndexLane, ErrorLane;
    forall k | 0 <= k < |s| ensures IndexLane(Neon, a, s[k], HighNibble(s[k])) == StrictValue(a, s[k]) {
      LaneAgreesWithTable(Neon, a, s[k]);
    }
    MapAgree((b: byte) => IndexLane(Neon, a, b, HighNibble(b)), StrictTable(a), s);
  }

  lemma RawConcat(a: DecodeAlphabet, s: seq<byte>, u: seq<byte>)
    requires |s| % 4 == 0
    ensures RawDecoded(a, s + u) == RawDecoded(a, s) + RawDecoded(a, u)
  {
    hide IndexLane, Decode;
    MapConcat((b: byte) => IndexLane(Neon, a, b, HighNibble(b)), s, u);
    DecodeConcat(RawIndices(a, s), RawIndices(a, u));
  }

  /** The whole 64-byte blocks of an input. */
  function Bulk(n: nat): (m: nat)
    ensures m <= n && m % 64 == 0 && n < m + 64
  {
    n / 64 * 64
  }

  /** How much is decoded from `source` on before the errors are tested. */
  function Interval(n: nat, source: nat): (take: nat)
    requires source <= n
    ensures source + take <= n
  {
    var bulk := (n - source) / 64 * 64;
    if bulk < DECODE_ERROR_CHECK_INTERVAL then bulk else DECODE_ERROR_CHECK_INTERVAL
  }

  /** From `source` on, the end of the first interval with an invalid byte, or of the last block. */
  function StoredEnd(a: DecodeAlphabet, input: seq<byte>, source: nat): (end: nat)
    requires source <= |input|
    ensures source <= end <= |input|
    decreases |input| - source
  {
    var take := Interval(|input|, source);
    if take == 0 || !Valid(a, input, source, source + take) then source + take
    else StoredEnd(a, input, source + take)
  }

  /** What the plain form leaves, whatever its verdict: the blocks up to the end of the first interval
      with an invalid byte, or a valid prefix when all 64-byte blocks are valid. */
  ghost predicate Accumulated(a: DecodeAlphabet, input: seq<byte>, q: nat, w: seq<byte>) {
    && 4 * q <= |input| && w == RawDecoded(a, input[..4 * q])
    && if Valid(a, input, 0, Bulk(|input|)) then Valid(a, input, 0, 4 * q) else 4 * q == StoredEnd(a, input, 0)
  }

  /** Memory after `q` quartets, not all of them known to be valid, were decoded into `w`. */
  ghost predicate Scribbled(before: seq<byte>, after: seq<byte>, at: nat, a: DecodeAlphabet, input: seq<byte>,
                            q: nat, w: seq<byte>)
  {
    && 4 * q <= |input| && |w| == 3 * q && at + 3 * q <= |before|
    && after == Store(before, at, w)
    && w == RawDecoded(a, input[..4 * q])
  }

  /** De-interleaves 64 bytes, classifies each vector, and packs them; the error lanes are or-ed. */
  method Decode64(a: DecodeAlphabet, input: seq<byte>, source: nat) returns (packed: seq<byte>, errors: seq<byte>)
    requires source + 64 <= |input|
    ensures |packed| == 48 && |errors| == 16
    ensures Clean(errors) <==> Valid(a, input, source, source + 64)
    ensures packed == RawDecoded(a, input[source..source + 64])
    ensures Valid(a, input, source, source + 64) ==> packed == Decoded(a, input[source..source + 64])
  {
    hide StrictValue, ErrorLane, IndexLane, First, Second, Third, Decode;
    var block := input[source..source + 64];
    var index := (b: byte) => IndexLane(Neon, a, b, HighNibble(b));
    var error := (b: byte) => ErrorLane(Neon, a, b, HighNibble(b));
    ghost var v := Map(index, block);
    packed := InterleavedPack(Map(index, Deinterleave(block, 0)), Map(index, Deinterleave(block, 1)),
                              Map(index, Deinterleave(block, 2)), Map(index, Deinterleave(block, 3)));
    var e0, e1 := Map(error, Deinterleave(block, 0)), Map(error, Deinterleave(block, 1));
    var e2, e3 := Map(error, Deinterleave(block, 2)), Map(error, Deinterleave(block, 3));
    errors := OrVectors(OrVectors(e0, e1), OrVectors(e2, e3));
    assert forall j :: 0 <= j < 4 ==> Deinterleave(v, j) == Map(index, Deinterleave(block, j));
    InterleavedPackIsDecode(v);
    forall k | 0 <= k < 64
      ensures StrictValue(a, block[k]) < 64 ==> index(block[k]) == StrictValue(a, block[k])
      ensures error(block[k]) == 0 <==> StrictValue(a, block[k]) < 64
    {
      LaneAgreesWithTable(Neon, a, block[k]);
    }
    LanesCoverBlock(block, error, e0, e1, e2, e3);
    if Valid(a, input, source, source + 64) {
      assert v == Map(StrictTable(a), block);
    }
    if Clean(errors) {
      forall k | source <= k < source + 64 ensures StrictValue(a, input[k]) < 64 {
        assert error(block[k - source]) == 0;
      }
    }
  }

  lemma LanesCoverBlock(block: seq<byte>, t: Table, e0: seq<byte>, e1: seq<byte>, e2: seq<byte>, e3: seq<byte>)
    requires |block| == 64
    requires e0 == Map(t, Deinterleave(block, 0)) && e1 == Map(t, Deinterleave(block, 1))
    requires e2 == Map(t, Deinterleave(block, 2)) && e3 == Map(t, Deinterleave(block, 3))
    ensures Clean(e0) && Clean(e1) && Clean(e2) && Clean(e3) <==> forall k :: 0 <= k < 64 ==> t(block[k]) == 0
  {
    assert forall i :: 0 <= i < 16 ==> e0[i] == t(block[4 * i]) && e1[i] == t(block[4 * i + 1]);
    assert forall i :: 0 <= i < 16 ==> e2[i] == t(block[4 * i + 2]) && e3[i] == t(block[4 * i + 3]);
    if Clean(e0) && Clean(e1) && Clean(e2) && Clean(e3) {
      forall k | 0 <= k < 64 ensures t(block[k]) == 0 {
        var i := k / 4;
        assert e0[i] == 0 && e1[i] == 0 && e2[i] == 0 && e3[i] == 0;
        assert k == 4 * i || k == 4 * i + 1 || k == 4 * i + 2 || k == 4 * i + 3;
      }
    }
  }

  lemma DecodeNext(s: seq<byte>, n: nat)
    requires n % 4 == 0 && n + 4 <= |s|
    ensures Decode(s[..n + 4]) == Decode(s[..n]) + Quartet(s[n..n + 4])
  {
    hide Decode, Quartet;
    var quartet := s[n..n + 4];
    DecodeStep(quartet);
    DecodeNothing();
    assert quartet[..4] == quartet && quartet[4..] == [];
    DecodeConcat(s[..n], quartet);
    assert s[..n] + quartet == s[..n + 4];
  }

  lemma DecodeNothing()
    ensures Decode([]) == []
  {
  }

  /** Stores four groups of three bytes, one byte at a time. */
  method StoreIndices16(indices: seq<byte>, output: array<byte>, at: nat)
    requires |indices| == 16 && at + 12 <= output.Length
    modifies output
    ensures output[..] == Store(old(output[..]), at, Decode(indices))
  {
    hide Store, First, Second, Third, Decode;
    ghost var before := output[..];
    StoreNothing(before, at);
    assert Decode(indices[..0]) == [];
    var group := 0;
    while group < 4
      invariant 0 <= group <= 4
      invariant output[..] == Store(before, at, Decode(indices[..4 * group]))
    {
      var source, destination := group * 4, group * 3;
      var first, second := indices[source], indices[source + 1];
      var third, fourth := indices[source + 2], indices[source + 3];
      ghost var was, quartet := output[..], indices[source..source + 4];
      output[at + destination] := First(first, second);
      output[at + destination + 1] := Second(second, third);
      output[at + destination + 2] := Third(third, fourth);
      WroteThree(was, output[..], at + destination, Quartet(quartet));
      DecodeNext(indices, source);
      StoreJoin(before, at, Decode(indices[..source]), Quartet(quartet));
      group := group + 1;
    }
    assert indices[..16] == indices;
  }

  lemma WroteThree(was: seq<byte>, now: seq<byte>, at: nat, v: seq<byte>)
    requires |v| == 3 && at + 3 <= |was|
    requires now == was[at := v[0]][at + 1 := v[1]][at + 2 := v[2]]
    ensures now == Store(was, at, v)
  {
  }

  lemma ScribbleStep(before: seq<byte>, after: seq<byte>, at: nat, a: DecodeAlphabet, input: seq<byte>, q: nat,
                     w: seq<byte>, m: nat, d: seq<byte>)
    requires Scribbled(before, after, at, a, input, q, w)
    requires 4 * (q + m) <= |input| && |d| == 3 * m && at + 3 * (q + m) <= |before|
    requires d == RawDecoded(a, input[4 * q..4 * (q + m)])
    ensures |after| == |before|
    ensures Scribbled(before, Store(after, at + 3 * q, d), at, a, input, q + m, w + d)
  {
    hide Store, RawDecoded;
    StoreJoin(before, at, w, d);
    assert input[..4 * q] + input[4 * q..4 * (q + m)] == input[..4 * (q + m)];
    RawConcat(a, input[..4 * q], input[4 * q..4 * (q + m)]);
  }

  lemma ScribbledNothing(before: seq<byte>, at: nat, a: DecodeAlphabet, input: seq<byte>)
    requires at <= |before|
    ensures Scribbled(before, before, at, a, input, 0, [])
  {
    StoreNothing(before, at);
    assert input[..0] == [] && RawIndices(a, []) == [];
  }

  lemma ScribbledValid(before: seq<byte>, after: seq<byte>, at: nat, a: DecodeAlphabet, input: seq<byte>,
                       q: nat, w: seq<byte>)
    requires Scribbled(before, after, at, a, input, q, w) && Valid(a, input, 0, 4 * q)
    ensures Wrote(before, after, at, a, input, q, [])
  {
    hide Store, StrictValue, RawDecoded, Decoded;
    PrefixValid(a, input, 4 * q);
    RawValid(a, input[..4 * q]);
    assert w + [] == w;
  }

  lemma PrefixValid(a: DecodeAlphabet, input: seq<byte>, n: nat)
    requires n <= |input|
    ensures Valid(a, input, 0, n) <==> AllValid(a, input[..n])
  {
    hide StrictValue;
    if AllValid(a, input[..n]) {
      forall k | 0 <= k < n ensures StrictValue(a, input[k]) < 64 {
        assert input[..n][k] == input[k];
      }
    }
  }

  /** A block of 64 symbols that is still there fits the chunk and its bytes fit the output. */
  lemma BlockThere(size: nat, source: nat, chunkEnd: nat, q: nat)
    requires source == 4 * q && source < chunkEnd <= size && (chunkEnd - source) % 64 == 0
    ensures source + 64 <= chunkEnd && (chunkEnd - (source + 64)) % 64 == 0 && 3 * q + 48 <= size / 4 * 3
  {
    var blocks := (chunkEnd - source) / 64;
    assert chunkEnd - source == 64 * blocks;
    Division.ModMinus(chunkEnd - source, 64);
  }

  /** One accumulation chunk: every block is stored, the error lanes are or-ed. */
  method DecodeChunk(a: DecodeAlphabet, input: seq<byte>, source0: nat, chunkEnd: nat, output: array<byte>, at: nat,
                     destination0: nat, ghost before: seq<byte>, ghost q0: nat, ghost w0: seq<byte>)
    returns (errors: seq<byte>, ghost q: nat, ghost w: seq<byte>)
    requires source0 == 4 * q0 && destination0 == 3 * q0 && source0 <= chunkEnd <= |input|
    requires (chunkEnd - source0) % 64 == 0
    requires Scribbled(before, output[..], at, a, input, q0, w0)
    requires |before| == output.Length && at + |input| / 4 * 3 <= output.Length
    modifies output
    ensures 4 * q == chunkEnd && Scribbled(before, output[..], at, a, input, q, w)
    ensures Clean(errors) <==> Valid(a, input, source0, chunkEnd)
  {
    hide Scribbled, Valid, RawDecoded, Decoded, Store;
    var source, destination := source0, destination0;
    q, w := q0, w0;
    errors := seq(16, _ => 0);
    ValidNothing(a, input, source0);
    while source < chunkEnd
      invariant source == 4 * q && destination == 3 * q && source0 <= source <= chunkEnd
      invariant (chunkEnd - source) % 64 == 0
      invariant |errors| == 16 && (Clean(errors) <==> Valid(a, input, source0, source))
      invariant Scribbled(before, output[..], at, a, input, q, w)
    {
      BlockThere(|input|, source, chunkEnd, q);
      var packed, blockErrors := Decode64(a, input, source);
      errors := OrVectors(errors, blockErrors);
      ValidSplits(a, input, source0, source, source + 64);
      ScribbleStep(before, output[..], at, a, input, q, w, 16, packed);
      StoreInto(output, at + destination, packed);
      source, destination, q, w := source + 64, destination + 48, q + 16, w + packed;
    }
  }

  method DecodeTailNeon(a: DecodeAlphabet, input: seq<byte>, source0: nat, output: array<byte>, at: nat,
                        destination0: nat, ghost before: seq<byte>, ghost q0: nat)
    returns (r: Blocks, ghost q: nat)
    requires source0 == 4 * q0 && destination0 == 3 * q0 && Aligned(source0) && source0 <= Whole16(|input|)
    requires Wrote(before, output[..], at, a, input, q0, [])
    requires |before| == output.Length && at + |input| / 4 * 3 <= output.Length
    modifies output
    ensures Wrote(before, output[..], at, a, input, q, [])
    ensures r.Blocks? <==> Valid(a, input, 0, Whole16(|input|))
    ensures r.Blocks? ==> r.source == 4 * q == Whole16(|input|) && r.destination == 3 * q
  {
    hide Wrote, StrictValue, Whole16, Aligned, Classified, Valid;
    var source, destination := source0, destination0;
    q := q0;
    while source + 16 <= |input|
      invariant source == 4 * q && destination == 3 * q && Aligned(source) && source <= Whole16(|input|) <= |input|
      invariant Wrote(before, output[..], at, a, input, q, [])
    {
      WholeStep(|input|, source, 16);
      ValidWithin(a, input, 0, Whole16(|input|), source, source + 16);
      var ok := DecodeBlockNeon(a, input, source, output, at, destination, before, q);
      if !ok {
        return InvalidBlock, q;
      }
      source, destination, q := source + 16, destination + 12, q + 4;
    }
    WholeEnd(|input|, source);
    WroteValid(before, output[..], at, a, input, q, []);
    r := Blocks(source, destination);
  }

  method DecodeBlockNeon(a: DecodeAlphabet, input: seq<byte>, source: nat, output: array<byte>, at: nat,
                         destination: nat, ghost before: seq<byte>, ghost q: nat)
    returns (ok: bool)
    requires source == 4 * q && destination == 3 * q && source + 16 <= |input|
    requires Wrote(before, output[..], at, a, input, q, [])
    requires |before| == output.Length && at + 3 * (q + 4) <= output.Length
    modifies output
    ensures ok <==> Valid(a, input, source, source + 16)
    ensures if ok then Wrote(before, output[..], at, a, input, q + 4, []) else output[..] == old(output[..])
  {
    hide StrictValue, Decode, Store, Progress;
    var indices, errors := DecodeIndices(Neon, a, true, input, source, 16);
    ok := Clean(errors);
    if ok {
      EmitIndices(a, indices, input, q, 4);
      StoreIndices16(indices, output, at + destination);
      ProgressStep(before, at, a, input, q, 4, [], Decode(indices), []);
      assert Decode(indices) + [] == Decode(indices);
    }
  }

  /** The 64-byte blocks, an interval at a time. */
  method DecodeIntervals(a: DecodeAlphabet, input: seq<byte>, output: array<byte>, at: nat)
    returns (ok: bool, source: nat, destination: nat, ghost q: nat, ghost w: seq<byte>)
    requires at + |input| / 4 * 3 <= output.Length
    modifies output
    ensures Scribbled(old(output[..]), output[..], at, a, input, q, w)
    ensures ok <==> Valid(a, input, 0, Bulk(|input|))
    ensures ok ==> source == 4 * q == Bulk(|input|) && destination == 3 * q
    ensures !ok ==> 4 * q == StoredEnd(a, input, 0)
  {
    hide *;
    ghost var before := output[..];
    source, destination, q, w := 0, 0, 0, [];
    ScribbledNothing(before, at, a, input);
    ValidNothing(a, input, 0);
    ok := true;
    while ok && source + 64 <= |input|
      invariant source == 4 * q && destination == 3 * q && source % 64 == 0 && source <= |input|
      invariant Scribbled(before, output[..], at, a, input, q, w)
      invariant ok ==> StoredEnd(a, input, 0) == StoredEnd(a, input, source) && Valid(a, input, 0, source)
      invariant !ok ==> StoredEnd(a, input, 0) == source && !Valid(a, input, 0, Bulk(|input|))
    {
      var take := Interval(|input|, source);
      IntervalStep(a, input, source);
      var errors;
      errors, q, w := DecodeChunk(a, input, source, source + take, output, at, destination, before, q, w);
      ok := Clean(errors);
      ValidSplits(a, input, 0, source, source + take);
      ValidSplits(a, input, 0, source + take, Bulk(|input|));
      source, destination := source + take, destination + take / 4 * 3;
    }
    BulkFrom(|input|, source);
  }

  lemma IntervalStep(a: DecodeAlphabet, input: seq<byte>, source: nat)
    requires source % 64 == 0 && source + 64 <= |input|
    ensures var take := Interval(|input|, source);
            && 0 < take && (source + take) % 64 == 0 && take % 64 == 0 && take / 4 * 3 * 4 == take * 3
            && source + take <= Bulk(|input|) <= |input|
            && StoredEnd(a, input, source) ==
               if Valid(a, input, source, source + take) then StoredEnd(a, input, source + take) else source + take
  {
    hide Valid;
    BulkFrom(|input|, source);
  }

  /** The plain form: intervals stored before they are tested, then the tail, which is tested first. */
  method DecodeAccumulating(a: DecodeAlphabet, input: seq<byte>, output: array<byte>, at: nat)
    returns (r: Blocks, ghost q: nat, ghost w: seq<byte>)
    requires at + |input| / 4 * 3 <= output.Length
    modifies output
    ensures 4 * q <= |input| && |w| == 3 * q && output[..] == Store(old(output[..]), at, w)
    ensures Accumulated(a, input, q, w)
    ensures r.Blocks? <==> Valid(a, input, 0, Whole16(|input|))
    ensures r.Blocks? ==> r.source == 4 * q == Whole16(|input|) && r.destination == 3 * q
    ensures r.Blocks? ==> Wrote(old(output[..]), output[..], at, a, input, q, [])
  {
    hide Store, Whole16, Aligned, Decoded, RawDecoded, Valid, StoredEnd, Scribbled, Wrote;
    ghost var before := output[..];
    var ok, source, destination;
    ok, source, destination, q, w := DecodeIntervals(a, input, output, at);
    ScribbledBytes(before, output[..], at, a, input, q, w);
    BulkAligned(|input|);
    if !ok {
      ValidWithin(a, input, 0, Whole16(|input|), 0, Bulk(|input|));
      return InvalidBlock, q, w;
    }
    ScribbledValid(before, output[..], at, a, input, q, w);
    r, q := DecodeTailNeon(a, input, source, output, at, destination, before, q);
    WroteExactly(before, output[..], at, a, input, q);
    WroteValid(before, output[..], at, a, input, q, []);
    w := Decoded(a, input[..4 * q]);
    PrefixValid(a, input, 4 * q);
    RawValid(a, input[..4 * q]);
  }

  lemma ScribbledBytes(before: seq<byte>, after: seq<byte>, at: nat, a: DecodeAlphabet, input: seq<byte>,
                       q: nat, w: seq<byte>)
    requires Scribbled(before, after, at, a, input, q, w)
    ensures 4 * q <= |input| && |w| == 3 * q && at + 3 * q <= |before|
    ensures after == Store(before, at, w) && w == RawDecoded(a, input[..4 * q])
  {
  }

  lemma BulkAligned(n: nat)
    ensures Aligned(Bulk(n)) && Bulk(n) <= Whole16(n)
  {
    MultipleOf64(n / 64);
  }

  lemma ValidNothing(a: DecodeAlphabet, input: seq<byte>, at: nat)
    requires at <= |input|
    ensures Valid(a, input, at, at)
  {
  }

  lemma ValidSplits(a: DecodeAlphabet, input: seq<byte>, lo: nat, mid: nat, hi: nat)
    requires lo <= mid <= hi <= |input|
    ensures Valid(a, input, lo, hi) <==> Valid(a, input, lo, mid) && Valid(a, input, mid, hi)
  {
    hide StrictValue;
  }

  /** From a block boundary on, the whole blocks are those of the rest. */
  lemma BulkFrom(n: nat, source: nat)
    requires source % 64 == 0 && source <= n
    ensures source <= Bulk(n) && Bulk(n) - source == (n - source) / 64 * 64
  {
    assert source == source / 64 * 64;
  }

  lemma MultipleOf64(m: nat)
    ensures 64 * m % 64 == 0 && 64 * m / 4 * 3 == 48 * m && Aligned(64 * m)
  {
  }

  method DecodeValidatedBlocksNeon(a: DecodeAlphabet, input: seq<byte>, output: array<byte>, at: nat)
    returns (r: Blocks, ghost q: nat)
    requires at + |input| / 4 * 3 <= output.Length
    modifies output
    ensures Wrote(old(output[..]), output[..], at, a, input, q, [])
    ensures r.Blocks? <==> Valid(a, input, 0, Whole16(|input|))
    ensures r.Blocks? ==> r.source == 4 * q == Whole16(|input|) && r.destination == 3 * q
  {
    hide Store, StrictValue, Whole16, Aligned, Decoded, Wrote;
    ghost var before := output[..];
    var source, destination := 0, 0;
    q := 0;
    WroteNothing(before, at, a, input);
    WholeStart(|input|);
    while source + 64 <= |input|
      invariant source == 4 * q && destination == 3 * q && Aligned(source) && source <= Whole16(|input|) <= |input|
      invariant Wrote(before, output[..], at, a, input, q, [])
    {
      WholeStep(|input|, source, 64);
      var packed, errors := Decode64(a, input, source);
      if !Clean(errors) {
        ValidWithin(a, input, 0, Whole16(|input|), source, source + 64);
        return InvalidBlock, q;
      }
      WroteStep(before, output[..], at, a, input, q, 16, packed);
      StoreInto(output, at + destination, packed);
      source, destination, q := source + 64, destination + 48, q + 16;
    }
    ghost var q1;
    r, q1 := DecodeTailNeon(a, input, source, output, at, destination, before, q);
    q := q1;
  }

  lemma WroteStep(before: seq<byte>, after: seq<byte>, at: nat, a: DecodeAlphabet, input: seq<byte>, q: nat, m: nat,
                  d: seq<byte>)
    requires Wrote(before, after, at, a, input, q, [])
    requires 4 * (q + m) <= |input| && |d| == 3 * m && at + 3 * (q + m) <= |before|
    requires Valid(a, input, 4 * q, 4 * (q + m)) && d == Decoded(a, input[4 * q..4 * (q + m)])
    ensures |after| == |before|
    ensures Wrote(before, Store(after, at + 3 * q, d), at, a, input, q + m, [])
  {
    hide StrictValue, Decoded;
    assert |after| == |before|;
    assert d + [] == d;
    ProgressStep(before, at, a, input, q, m, [], d, []);
  }

  /** Classifies sixteen bytes at a time, testing the accumulated lanes once per interval. */
  method ValidateNeon(a: DecodeAlphabet, input: seq<byte>) returns (r: Blocks)
    ensures r.Blocks? <==> Valid(a, input, 0, Whole16(|input|))
    ensures r.Blocks? ==> r.source == Whole16(|input|)
  {
    hide StrictValue, Classified;
    var source := 0;
    while source + 16 <= |input|
      invariant source <= |input| && source % 16 == 0 && Valid(a, input, 0, source)
    {
      var errors: seq<byte> := seq(16, _ => 0);
      var chunkEnd := source + DECODE_ERROR_CHECK_INTERVAL;
      if Whole16(|input|) < chunkEnd {
        chunkEnd := Whole16(|input|);
      }
      ghost var start := source;
      while source < chunkEnd
        invariant start <= source <= chunkEnd && source % 16 == 0
        invariant |errors| == 16 && (Clean(errors) <==> Valid(a, input, start, source))
      {
        var _, blockErrors := DecodeIndices(Neon, a, true, input, source, 16);
        errors := OrVectors(errors, blockErrors);
        source := source + 16;
      }
      if !Clean(errors) {
        ValidWithin(a, input, 0, Whole16(|input|), start, source);
        return InvalidBlock;
      }
    }
    r := Blocks(source, 0);
  }

  /** The form for input known to be valid: the error lanes are never looked at. */
  method DecodeStandardValidatedNeon(input: seq<byte>, output: array<byte>, at: nat)
    returns (source: nat, destination: nat, ghost q: nat)
    requires at + |input| / 4 * 3 <= output.Length && AllValid(Standard, input)
    modifies output
    ensures source == 4 * q == Whole16(|input|) && destination == 3 * q
    ensures Wrote(old(output[..]), output[..], at, Standard, input, q, [])
  {
    hide Store, StrictValue, Whole16, Aligned, Decoded, Wrote, Valid;
    ghost var before := output[..];
    source, destination, q := 0, 0, 0;
    WroteNothing(before, at, Standard, input);
    WholeStart(|input|);
    while source + 64 <= |input|
      invariant source == 4 * q && destination == 3 * q && Aligned(source) && source <= Whole16(|input|) <= |input|
      invariant Wrote(before, output[..], at, Standard, input, q, [])
    {
      WholeStep(|input|, source, 64);
      ValidWithin(Standard, input, 0, |input|, source, source + 64);
      var packed, _ := Decode64(Standard, input, source);
      WroteStep(before, output[..], at, Standard, input, q, 16, packed);
      StoreInto(output, at + destination, packed);
      source, destination, q := source + 64, destination + 48, q + 16;
    }
    while source + 16 <= |input|
      invariant source == 4 * q && destination == 3 * q && Aligned(source) && source <= Whole16(|input|) <= |input|
      invariant Wrote(before, output[..], at, Standard, input, q, [])
    {
      WholeStep(|input|, source, 16);
      ValidWithin(Standard, input, 0, |input|, source, source + 16);
      var _ := DecodeBlockNeon(Standard, input, source, output, at, destination, before, q);
      source, destination, q := source + 16, destination + 12, q + 4;
    }
    WholeEnd(|input|, source);
  }
}
