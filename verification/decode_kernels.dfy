/** The SSSE3/SSE4.1 and AVX2 block decoders, each with its validating, decoding and longest-prefix
forms. */
module DecodeKernels {
  import opened Bytes
  import opened Alphabet
  import opened DecodeLanes
  import opened Vectors
  import opened DecodeEmit

  /** Bytes consumed and produced, or a block with a byte outside the alphabet. */
  datatype Blocks = Blocks(source: nat, destination: nat) | InvalidBlock

  /** `q` quartets of `input` are valid and decoded at `at`; nothing else changed but the `pad`
      overlap right behind them. */
  ghost predicate Wrote(before: seq<byte>, after: seq<byte>, at: nat, a: DecodeAlphabet, input: seq<byte>,
                        q: nat, pad: seq<byte>)
  {
    && 4 * q <= |input| && at + 3 * q + |pad| <= |before|
    && Valid(a, input, 0, 4 * q)
    && after == Progress(before, at, a, input, q, pad)
  }

  /** `n` is the largest multiple of `w` bytes of `input` that lies inside the alphabet. */
  ghost predicate LongestPrefix(a: DecodeAlphabet, input: seq<byte>, w: nat, n: nat)
    requires w > 0
  {
    && n % w == 0 && n <= |input| && Valid(a, input, 0, n)
    && (n + w <= |input| ==> !Valid(a, input, n, n + w))
  }

  /** Loads and classifies four adjacent vectors of `w` bytes; their error lanes are or-ed. */
  method ClassifyFour(f: Lanes, a: DecodeAlphabet, check: bool, input: seq<byte>, source: nat, w: nat)
    returns (i0: seq<byte>, i1: seq<byte>, i2: seq<byte>, i3: seq<byte>, errors: seq<byte>)
    requires source + 4 * w <= |input| && w % 2 == 0
    requires check || Valid(a, input, source, source + 4 * w)
    ensures Clean(errors) <==> Valid(a, input, source, source + 4 * w)
    ensures |i0| == |i1| == |i2| == |i3| == w
    ensures Clean(errors) ==>
              && Classified(a, i0, input, source) && Classified(a, i1, input, source + w)
              && Classified(a, i2, input, source + 2 * w) && Classified(a, i3, input, source + 3 * w)
  {
    hide StrictValue, Classified, Clean;
    var e0, e1, e2, e3;
    i0, e0 := DecodeIndices(f, a, check, input, source, w);
    i1, e1 := DecodeIndices(f, a, check, input, source + w, w);
    i2, e2 := DecodeIndices(f, a, check, input, source + 2 * w, w);
    i3, e3 := DecodeIndices(f, a, check, input, source + 3 * w, w);
    errors := OrVectors(OrVectors(e0, e1), OrVectors(e2, e3));
  }

  /** Four packed 128-bit stores: each one repairs the padding of the one before it, and only the
      last follows the caller's store mode. */
  method EmitFour16(a: DecodeAlphabet, s: StoreMode, i0: seq<byte>, i1: seq<byte>, i2: seq<byte>, i3: seq<byte>,
                    output: array<byte>, at: nat, destination: nat, ghost before: seq<byte>,
                    ghost input: seq<byte>, ghost q: nat, ghost pad: seq<byte>)
    requires destination == 3 * q && |i0| == |i1| == |i2| == |i3| == 16
    requires |before| == output.Length && at + 3 * (q + 16) + |Slack(s)| <= output.Length
    requires CanEmit(a, i0, output[..], at, before, input, q, 4, pad)
    requires Classified(a, i1, input, 4 * q + 16)
    requires Classified(a, i2, input, 4 * q + 32)
    requires Classified(a, i3, input, 4 * q + 48)
    modifies output
    ensures output[..] == Progress(before, at, a, input, q + 16, Slack(s))
  {
    hide Progress, Classified;
    Emit16(a, PaddedStore, i0, output, at, destination, before, input, q, pad);
    Emit16(a, PaddedStore, i1, output, at, destination + 12, before, input, q + 4, LANE_PADDING);
    Emit16(a, PaddedStore, i2, output, at, destination + 24, before, input, q + 8, LANE_PADDING);
    Emit16(a, s, i3, output, at, destination + 36, before, input, q + 12, LANE_PADDING);
  }

  lemma ValidWithin(a: DecodeAlphabet, s: seq<byte>, lo: nat, hi: nat, lo': nat, hi': nat)
    requires lo <= lo' <= hi' <= hi <= |s|
    ensures Valid(a, s, lo, hi) ==> Valid(a, s, lo', hi')
  {
    hide StrictValue;
  }

  lemma WroteNothing(before: seq<byte>, at: nat, a: DecodeAlphabet, input: seq<byte>)
    requires at <= |before|
    ensures Wrote(before, before, at, a, input, 0, [])
  {
    hide Progress;
    ProgressStart(before, at, a, input);
  }

  // ----- SSSE3 and SSE4.1 -----

  /** One group of four 16-byte vectors: nothing is stored unless all four are valid. */
  method DecodeGroupSse(a: DecodeAlphabet, check: bool, s: StoreMode, input: seq<byte>, source: nat,
                        output: array<byte>, at: nat, destination: nat,
                        ghost before: seq<byte>, ghost q: nat, ghost pad: seq<byte>)
    returns (ok: bool)
    requires source == 4 * q && destination == 3 * q && source + 64 <= |input|
    requires check || Valid(a, input, source, source + 64)
    requires Wrote(before, output[..], at, a, input, q, pad) && |pad| <= 12
    requires |before| == output.Length && at + 3 * (q + 16) + |Slack(s)| <= output.Length
    modifies output
    ensures ok <==> Valid(a, input, source, source + 64)
    ensures if ok then Wrote(before, output[..], at, a, input, q + 16, Slack(s)) else output[..] == old(output[..])
  {
    hide Progress, StrictValue, Classified, Slack;
    var i0, i1, i2, i3, errors := ClassifyFour(Sse, a, check, input, source, 16);
    ok := Clean(errors);
    if ok {
      EmitFour16(a, s, i0, i1, i2, i3, output, at, destination, before, input, q, pad);
    }
  }

  /** One 16-byte vector. */
  method DecodeBlockSse(a: DecodeAlphabet, check: bool, s: StoreMode, input: seq<byte>, source: nat,
                        output: array<byte>, at: nat, destination: nat,
                        ghost before: seq<byte>, ghost q: nat, ghost pad: seq<byte>)
    returns (ok: bool)
    requires source == 4 * q && destination == 3 * q && source + 16 <= |input|
    requires check || Valid(a, input, source, source + 16)
    requires Wrote(before, output[..], at, a, input, q, pad) && |pad| <= 12
    requires |before| == output.Length && at + 3 * (q + 4) + |Slack(s)| <= output.Length
    modifies output
    ensures ok <==> Valid(a, input, source, source + 16)
    ensures if ok then Wrote(before, output[..], at, a, input, q + 4, Slack(s)) else output[..] == old(output[..])
  {
    hide Progress, StrictValue, Classified, Slack;
    var indices, errors := DecodeIndices(Sse, a, check, input, source, 16);
    ok := Clean(errors);
    if ok {
      Emit16(a, s, indices, output, at, destination, before, input, q, pad);
    }
  }

  /** The bytes of `n` that whole blocks of sixteen cover. */
  function Whole16(n: nat): (w: nat)
    ensures w <= n < w + 16 && w % 16 == 0
  {
    n / 16 * 16
  }

  predicate Aligned(n: nat) {
    n % 16 == 0
  }

  lemma WholeStart(n: nat)
    ensures Aligned(0) && Whole16(n) <= n
  {
  }

  lemma WholeStep(n: nat, source: nat, w: nat)
    requires Aligned(source) && Aligned(w) && source + w <= n
    ensures source + w <= Whole16(n) && Aligned(source + w)
  {
  }

  lemma WholeEnd(n: nat, source: nat)
    requires Aligned(source) && source <= Whole16(n) && n < source + 16
    ensures source == Whole16(n)
  {
  }

  method DecodeSse(a: DecodeAlphabet, check: bool, s: StoreMode, input: seq<byte>, output: array<byte>, at: nat)
    returns (r: Blocks, ghost q: nat, ghost pad: seq<byte>)
    requires at + |input| / 4 * 3 + |Slack(s)| <= output.Length
    requires check || AllValid(a, input)
    modifies output
    ensures Wrote(old(output[..]), output[..], at, a, input, q, pad) && |pad| <= |Slack(s)|
    ensures r.Blocks? <==> Valid(a, input, 0, Whole16(|input|))
    ensures r.Blocks? ==> r.source == 4 * q == Whole16(|input|) && r.destination == 3 * q
  {
    hide Progress, StrictValue, Slack, Valid, Wrote, Whole16, Aligned;
    ghost var before := output[..];
    var source, destination := 0, 0;
    q, pad := 0, [];
    ghost var end := Whole16(|input|);
    WholeStart(|input|);
    WroteNothing(before, at, a, input);
    while source + 64 <= |input|
      invariant source == 4 * q <= end && destination == 3 * q && Aligned(source) && |pad| <= |Slack(s)|
      invariant Wrote(before, output[..], at, a, input, q, pad)
    {
      WholeStep(|input|, source, 64);
      ValidWithin(a, input, 0, |input|, source, source + 64);
      ValidWithin(a, input, 0, end, source, source + 64);
      var ok := DecodeGroupSse(a, check, s, input, source, output, at, destination, before, q, pad);
      if !ok {
        return InvalidBlock, q, pad;
      }
      source, destination, q, pad := source + 64, destination + 48, q + 16, Slack(s);
    }
    while source + 16 <= |input|
      invariant source == 4 * q <= end && destination == 3 * q && Aligned(source) && |pad| <= |Slack(s)|
      invariant Wrote(before, output[..], at, a, input, q, pad)
    {
      WholeStep(|input|, source, 16);
      ValidWithin(a, input, 0, |input|, source, source + 16);
      ValidWithin(a, input, 0, end, source, source + 16);
      var ok := DecodeBlockSse(a, check, s, input, source, output, at, destination, before, q, pad);
      if !ok {
        return InvalidBlock, q, pad;
      }
      source, destination, q, pad := source + 16, destination + 12, q + 4, Slack(s);
    }
    WholeEnd(|input|, source);
    WroteValid(before, output[..], at, a, input, q, pad);
    r := Blocks(source, destination);
  }

  lemma WroteValid(before: seq<byte>, after: seq<byte>, at: nat, a: DecodeAlphabet, input: seq<byte>,
                   q: nat, pad: seq<byte>)
    requires Wrote(before, after, at, a, input, q, pad)
    ensures 4 * q <= |input| && Valid(a, input, 0, 4 * q)
  {
  }

  lemma WroteExactly(before: seq<byte>, after: seq<byte>, at: nat, a: DecodeAlphabet, input: seq<byte>, q: nat)
    requires Wrote(before, after, at, a, input, q, [])
    ensures 4 * q <= |input| && |Decoded(a, input[..4 * q])| == 3 * q
    ensures at + 3 * q <= |before| && after == Store(before, at, Decoded(a, input[..4 * q]))
  {
    assert Decoded(a, input[..4 * q]) + [] == Decoded(a, input[..4 * q]);
  }

  method DecodePrefixSse(a: DecodeAlphabet, input: seq<byte>, output: array<byte>, at: nat)
    returns (source: nat, destination: nat, ghost q: nat)
    requires at + |input| / 4 * 3 <= output.Length
    modifies output
    ensures LongestPrefix(a, input, 16, source)
    ensures source == 4 * q && destination == 3 * q
    ensures Wrote(old(output[..]), output[..], at, a, input, q, [])
  {
    hide Progress, StrictValue, Valid, Wrote, Whole16, Aligned;
    ghost var before := output[..];
    source, destination, q := 0, 0, 0;
    ghost var end := Whole16(|input|);
    WholeStart(|input|);
    WroteNothing(before, at, a, input);
    while source + 64 <= |input|
      invariant source == 4 * q <= end && destination == 3 * q && Aligned(source)
      invariant Wrote(before, output[..], at, a, input, q, [])
    {
      WholeStep(|input|, source, 64);
      var ok := DecodeGroupSse(a, true, ExactStore, input, source, output, at, destination, before, q, []);
      if !ok {
        break;
      }
      source, destination, q := source + 64, destination + 48, q + 16;
    }
    while source + 16 <= |input|
      invariant source == 4 * q <= end && destination == 3 * q && Aligned(source)
      invariant Wrote(before, output[..], at, a, input, q, [])
    {
      WholeStep(|input|, source, 16);
      var ok := DecodeBlockSse(a, true, ExactStore, input, source, output, at, destination, before, q, []);
      if !ok {
        break;
      }
      source, destination, q := source + 16, destination + 12, q + 4;
    }
    WroteValid(before, output[..], at, a, input, q, []);
    PrefixEnds(a, input, source);
  }

  method ValidateSse(a: DecodeAlphabet, input: seq<byte>) returns (r: Blocks)
    ensures r.Blocks? <==> Valid(a, input, 0, Whole16(|input|))
    ensures r.Blocks? ==> r.source == Whole16(|input|)
  {
    hide StrictValue, Whole16, Classified;
    var source := 0;
    ghost var end := Whole16(|input|);
    while source + 64 <= |input|
      invariant source <= end && source % 16 == 0 && Valid(a, input, 0, source)
    {
      var _, _, _, _, errors := ClassifyFour(Sse, a, true, input, source, 16);
      if !Clean(errors) {
        ValidWithin(a, input, 0, end, source, source + 64);
        return InvalidBlock;
      }
      source := source + 64;
    }
    while source + 16 <= |input|
      invariant source <= end && source % 16 == 0 && Valid(a, input, 0, source)
    {
      var _, errors := DecodeIndices(Sse, a, true, input, source, 16);
      if !Clean(errors) {
        ValidWithin(a, input, 0, end, source, source + 16);
        return InvalidBlock;
      }
      source := source + 16;
    }
    r := Blocks(source, 0);
  }

  // ----- AVX2 -----

  /** One group of four 32-byte vectors. `wide` is the destination alignment test that picks the
      store shape inside the group; the last store follows the caller's mode. */
  method DecodeGroupAvx2(a: DecodeAlphabet, check: bool, s: StoreMode, wide: bool, input: seq<byte>, source: nat,
                         output: array<byte>, at: nat, destination: nat,
                         ghost before: seq<byte>, ghost q: nat, ghost pad: seq<byte>)
    returns (ok: bool)
    requires source == 4 * q && destination == 3 * q && source + 128 <= |input|
    requires check || Valid(a, input, source, source + 128)
    requires Wrote(before, output[..], at, a, input, q, pad) && |pad| <= 12
    requires |before| == output.Length && at + 3 * (q + 32) + |Slack(s)| <= output.Length
    modifies output
    ensures ok <==> Valid(a, input, source, source + 128)
    ensures if ok then Wrote(before, output[..], at, a, input, q + 32, Slack(s)) else output[..] == old(output[..])
  {
    hide Progress, StrictValue, Classified;
    var i0, i1, i2, i3, errors := ClassifyFour(Avx2, a, check, input, source, 32);
    ok := Clean(errors);
    if ok {
      var shape := if wide then Wide else Padded;
      ghost var pad' := Emit32(a, shape, i0, output, at, destination, before, input, q, pad);
      pad' := Emit32(a, shape, i1, output, at, destination + 24, before, input, q + 8, pad');
      pad' := Emit32(a, shape, i2, output, at, destination + 48, before, input, q + 16, pad');
      pad' := Emit32(a, ShapeOf(s), i3, output, at, destination + 72, before, input, q + 24, pad');
    }
  }

  method DecodeBlockAvx2(a: DecodeAlphabet, check: bool, s: StoreMode, input: seq<byte>, source: nat,
                         output: array<byte>, at: nat, destination: nat,
                         ghost before: seq<byte>, ghost q: nat, ghost pad: seq<byte>)
    returns (ok: bool)
    requires source == 4 * q && destination == 3 * q && source + 32 <= |input|
    requires check || Valid(a, input, source, source + 32)
    requires Wrote(before, output[..], at, a, input, q, pad) && |pad| <= 12
    requires |before| == output.Length && at + 3 * (q + 8) + |Slack(s)| <= output.Length
    modifies output
    ensures ok <==> Valid(a, input, source, source + 32)
    ensures if ok then Wrote(before, output[..], at, a, input, q + 8, Slack(s)) else output[..] == old(output[..])
  {
    hide Progress, StrictValue, Classified;
    var indices, errors := DecodeIndices(Avx2, a, check, input, source, 32);
    ok := Clean(errors);
    if ok {
      ghost var pad' := Emit32(a, ShapeOf(s), indices, output, at, destination, before, input, q, pad);
    }
  }

  method DecodeAvx2(a: DecodeAlphabet, check: bool, s: StoreMode, wide: bool, input: seq<byte>,
                    output: array<byte>, at: nat)
    returns (r: Blocks, ghost q: nat, ghost pad: seq<byte>)
    requires at + |input| / 4 * 3 + |Slack(s)| <= output.Length
    requires check || AllValid(a, input)
    modifies output
    ensures Wrote(old(output[..]), output[..], at, a, input, q, pad) && |pad| <= |Slack(s)|
    ensures r.Blocks? <==> Valid(a, input, 0, Whole16(|input|))
    ensures r.Blocks? ==> r.source == 4 * q == Whole16(|input|) && r.destination == 3 * q
  {
    hide Progress, StrictValue, Slack, Valid, Wrote, Whole16, Aligned;
    ghost var before := output[..];
    var source, destination := 0, 0;
    q, pad := 0, [];
    ghost var end := Whole16(|input|);
    WholeStart(|input|);
    WroteNothing(before, at, a, input);
    while source + 128 <= |input|
      invariant source == 4 * q <= end && destination == 3 * q && Aligned(source) && |pad| <= |Slack(s)|
      invariant Wrote(before, output[..], at, a, input, q, pad)
    {
      WholeStep(|input|, source, 128);
      ValidWithin(a, input, 0, |input|, source, source + 128);
      ValidWithin(a, input, 0, end, source, source + 128);
      var ok := DecodeGroupAvx2(a, check, s, wide, input, source, output, at, destination, before, q, pad);
      if !ok {
        return InvalidBlock, q, pad;
      }
      source, destination, q, pad := source + 128, destination + 96, q + 32, Slack(s);
    }
    while source + 32 <= |input|
      invariant source == 4 * q <= end && destination == 3 * q && Aligned(source) && |pad| <= |Slack(s)|
      invariant Wrote(before, output[..], at, a, input, q, pad)
    {
      WholeStep(|input|, source, 32);
      ValidWithin(a, input, 0, |input|, source, source + 32);
      ValidWithin(a, input, 0, end, source, source + 32);
      var ok := DecodeBlockAvx2(a, check, s, input, source, output, at, destination, before, q, pad);
      if !ok {
        return InvalidBlock, q, pad;
      }
      source, destination, q, pad := source + 32, destination + 24, q + 8, Slack(s);
    }
    if source + 16 <= |input| {
      WholeStep(|input|, source, 16);
      ValidWithin(a, input, 0, |input|, source, source + 16);
      ValidWithin(a, input, 0, end, source, source + 16);
      var ok := DecodeBlockSse(a, check, s, input, source, output, at, destination, before, q, pad);
      if !ok {
        return InvalidBlock, q, pad;
      }
      source, destination, q, pad := source + 16, destination + 12, q + 4, Slack(s);
    }
    WholeEnd(|input|, source);
    WroteValid(before, output[..], at, a, input, q, pad);
    r := Blocks(source, destination);
  }

  method DecodePrefixAvx2(a: DecodeAlphabet, wide: bool, input: seq<byte>, output: array<byte>, at: nat)
    returns (source: nat, destination: nat, ghost q: nat)
    requires at + |input| / 4 * 3 <= output.Length
    modifies output
    ensures LongestPrefix(a, input, 16, source)
    ensures source == 4 * q && destination == 3 * q
    ensures Wrote(old(output[..]), output[..], at, a, input, q, [])
  {
    hide Progress, StrictValue, Valid, Wrote, Whole16, Aligned;
    ghost var before := output[..];
    source, destination, q := 0, 0, 0;
    ghost var end := Whole16(|input|);
    WholeStart(|input|);
    WroteNothing(before, at, a, input);
    ghost var stopped := false;
    while source + 128 <= |input|
      invariant source == 4 * q <= end && destination == 3 * q && Aligned(source)
      invariant Wrote(before, output[..], at, a, input, q, [])
    {
      WholeStep(|input|, source, 128);
      var ok := DecodeGroupAvx2(a, true, ExactStore, wide, input, source, output, at, destination, before, q, []);
      if !ok {
        break;
      }
      source, destination, q := source + 128, destination + 96, q + 32;
    }
    while source + 32 <= |input|
      invariant source == 4 * q <= end && destination == 3 * q && Aligned(source)
      invariant Wrote(before, output[..], at, a, input, q, [])
      invariant !stopped
    {
      WholeStep(|input|, source, 32);
      var ok := DecodeBlockAvx2(a, true, ExactStore, input, source, output, at, destination, before, q, []);
      if !ok {
        stopped := true;
        break;
      }
      source, destination, q := source + 32, destination + 24, q + 8;
    }
    if source + 16 <= |input| {
      WholeStep(|input|, source, 16);
      var ok := DecodeBlockSse(a, true, ExactStore, input, source, output, at, destination, before, q, []);
      if ok {
        ValidHalves(a, input, source);
        source, destination, q := source + 16, destination + 12, q + 4;
      }
    }
    WroteValid(before, output[..], at, a, input, q, []);
    PrefixEnds(a, input, source);
  }

  /** An aligned source with a bad or missing next block is a longest prefix. */
  lemma PrefixEnds(a: DecodeAlphabet, input: seq<byte>, source: nat)
    requires source <= |input| && Aligned(source) && Valid(a, input, 0, source)
    requires source + 16 <= |input| ==> !Valid(a, input, source, source + 16)
    ensures LongestPrefix(a, input, 16, source)
  {
  }

  lemma ValidHalves(a: DecodeAlphabet, s: seq<byte>, lo: nat)
    requires lo + 16 <= |s|
    ensures lo + 32 <= |s| ==> (Valid(a, s, lo, lo + 32) <==> Valid(a, s, lo, lo + 16) && Valid(a, s, lo + 16, lo + 32))
  {
    hide StrictValue;
  }

  method ValidateAvx2(a: DecodeAlphabet, input: seq<byte>) returns (r: Blocks)
    ensures r.Blocks? <==> Valid(a, input, 0, Whole16(|input|))
    ensures r.Blocks? ==> r.source == Whole16(|input|)
  {
    hide StrictValue, Whole16, Classified;
    var source := 0;
    ghost var end := Whole16(|input|);
    while source + 128 <= |input|
      invariant source <= end && source % 16 == 0 && Valid(a, input, 0, source)
    {
      var _, _, _, _, errors := ClassifyFour(Avx2, a, true, input, source, 32);
      if !Clean(errors) {
        ValidWithin(a, input, 0, end, source, source + 128);
        return InvalidBlock;
      }
      source := source + 128;
    }
    while source + 32 <= |input|
      invariant source <= end && source % 16 == 0 && Valid(a, input, 0, source)
    {
      var _, errors := DecodeIndices(Avx2, a, true, input, source, 32);
      if !Clean(errors) {
        ValidWithin(a, input, 0, end, source, source + 32);
        return InvalidBlock;
      }
      source := source + 32;
    }
    if source + 16 <= |input| {
      var _, errors := DecodeIndices(Sse, a, true, input, source, 16);
      if !Clean(errors) {
        ValidWithin(a, input, 0, end, source, source + 16);
        return InvalidBlock;
      }
      source := source + 16;
    }
    r := Blocks(source, 0);
  }
}
