/** The strict decoding entry points: exact or slack-padded output, both error-write policies,
padded and unpadded layouts, and packing of symbols already known to be valid. */
module StrictApi {
  import opened Bytes
  import opened Alphabet
  import opened Quantum
  import opened Vectors
  import opened DecodeEmit
  import opened DecodeKernels
  import opened DecodeWide
  import opened DecodeNeon
  import opened Strict

  /** What a failing decode of whole quartets leaves when partial writes are allowed and no slack is offered:
      the decoding of a valid prefix, except that Neon tests a whole interval after storing it. */
  ghost predicate Left(backend: Backend, a: DecodeAlphabet, input: seq<byte>, w: seq<byte>) {
    var q := |w| / 3;
    && |w| == 3 * q && 4 * q <= |input|
    && if backend == Neon then Accumulated(a, input, q, w)
       else Valid(a, input, 0, 4 * q) && w == Decoded(a, input[..4 * q])
  }

  /** The same for unpadded input; a length that no encoding has is noticed before anything is written. */
  ghost predicate Leaves(backend: Backend, a: DecodeAlphabet, input: seq<byte>, w: seq<byte>) {
    if |input| % 4 == 1 then w == [] else Left(backend, a, input[..|input| / 4 * 4], w)
  }

  lemma LeftPrefix(backend: Backend, a: DecodeAlphabet, input: seq<byte>, q: nat, w: seq<byte>)
    requires 4 * q <= |input| && Valid(a, input, 0, 4 * q) && w == Decoded(a, input[..4 * q])
    requires backend == Neon ==> Valid(a, input, 0, Bulk(|input|))
    ensures Left(backend, a, input, w)
  {
    hide Valid, Decoded, RawDecoded, Bulk;
    PrefixValid(a, input, 4 * q);
    RawValid(a, input[..4 * q]);
  }

  /** The kernel's share, all but a padded last quartet. Short inputs skip it. */
  method KernelPhase(backend: Backend, wide: bool, policy: ErrorWritePolicy, slack: bool, a: DecodeAlphabet,
                     input: seq<byte>, padding: nat, output: array<byte>, at: nat)
    returns (r: Blocks, ghost q: nat, ghost pad: seq<byte>, ghost w: seq<byte>)
    requires |input| % 4 == 0 && padding <= 2 && (padding > 0 ==> |input| >= 4)
    requires at + |input| / 4 * 3 - padding + SlackLen(slack) <= output.Length
    modifies output
    ensures |pad| <= SlackLen(slack && policy == Partial && a != Mixed)
    ensures r.Blocks? || policy == ValidatedBlocksOnly ==> Wrote(old(output[..]), output[..], at, a, input, q, pad)
    ensures r.Blocks? ==> r.source == 4 * q <= |input| - (if padding == 0 then 0 else 4) && r.destination == 3 * q
    ensures r.Blocks? && padding == 0 && backend == Neon ==> Valid(a, input, 0, Bulk(|input|))
    ensures !r.Blocks? ==> !Valid(a, input, 0, |input| - padding)
    ensures !r.Blocks? && policy == Partial && padding == 0 && !slack ==> Left(backend, a, input, w)
    ensures |w| <= |input| / 4 * 3 - padding + SlackLen(slack) && output[..] == Store(old(output[..]), at, w)
  {
    hide StrictValue, Wrote, Store, Valid, Decoded, Covered, Left, Accumulated, Bulk;
    ghost var before := output[..];
    var simdLen := if padding == 0 then |input| else |input| - 4;
    if simdLen < 16 {
      WroteNothing(before, at, a, input);
      StoreNothing(before, at);
      ValidNothing(a, input, 0);
      SmallBulk(|input|);
      return Blocks(0, 0), 0, [], [];
    }
    var x := input[..simdLen];
    r, q, pad, w := DecodeWithBackend(backend, wide, policy, slack, a, x, output, at);
    PrefixSlice(a, input, simdLen, Covered(backend, simdLen));
    if r.Blocks? || policy == ValidatedBlocksOnly {
      WroteSlice(before, output[..], at, a, input, simdLen, q, pad);
    }
    if r.Blocks? {
      if padding == 0 && backend == Neon {
        assert x == input;
        NeonCovers(|input|);
        ValidWithin(a, input, 0, Covered(backend, simdLen), 0, Bulk(|input|));
      }
    } else {
      ValidWithin(a, input, 0, |input| - padding, 0, Covered(backend, simdLen));
      if policy == Partial && padding == 0 && !slack {
        assert x == input;
        LeftByKernel(backend, a, input, before, output[..], at, q, pad, w);
      }
    }
  }

  lemma SmallBulk(n: nat)
    ensures n < 20 ==> Bulk(n) == 0
  {
  }

  lemma NeonCovers(n: nat)
    ensures Bulk(n) <= Covered(Neon, n)
  {
    BulkAligned(n);
  }

  /** The kernel first, then the scalar loops, under one error-write policy. */
  method DecodeToPtr(backend: Backend, wide: bool, policy: ErrorWritePolicy, slack: bool, a: DecodeAlphabet,
                     input: seq<byte>, padding: nat, output: array<byte>, at: nat)
    returns (ok: bool, ghost q: nat, ghost pad: seq<byte>, ghost w: seq<byte>)
    requires |input| % 4 == 0 && padding <= 2 && (padding > 0 ==> |input| >= 4)
    requires at + |input| / 4 * 3 - padding + SlackLen(slack) <= output.Length
    modifies output
    ensures ok <==> Valid(a, input, 0, |input| - padding)
    ensures |pad| <= SlackLen(slack && policy == Partial && a != Mixed)
    ensures ok ==> at + |Decoded(a, input[..|input| - padding])| + |pad| <= output.Length
    ensures ok ==> output[..] == Store(old(output[..]), at, Decoded(a, input[..|input| - padding]) + pad)
    ensures !ok && policy == ValidatedBlocksOnly ==> Wrote(old(output[..]), output[..], at, a, input, q, pad)
    ensures !ok && policy == Partial && padding == 0 && !slack ==> Left(backend, a, input, w)
    ensures |w| <= |input| / 4 * 3 - padding + SlackLen(slack) && output[..] == Store(old(output[..]), at, w)
  {
    hide StrictValue, Wrote, Store, Valid, Decoded, Left, Bulk;
    ghost var before := output[..];
    var r;
    r, q, pad, w := KernelPhase(backend, wide, policy, slack, a, input, padding, output, at);
    if r == InvalidBlock {
      ok := false;
      return;
    }
    ok, q, pad := ScalarLoops(a, input, padding, r.source, output, at, r.destination, before, q, pad);
    if ok {
      LayoutLen(|input|, padding);
      w := Decoded(a, input[..|input| - padding]) + pad;
    } else {
      w := WroteBytes(before, output[..], at, a, input, q, pad);
      if policy == Partial && padding == 0 && !slack {
        LeftByScalar(backend, a, input, before, output[..], at, q, pad, w);
      }
    }
  }

  lemma LeftByKernel(backend: Backend, a: DecodeAlphabet, input: seq<byte>, before: seq<byte>, now: seq<byte>, at: nat,
                     q: nat, pad: seq<byte>, w: seq<byte>)
    requires 4 * q <= |input| && pad == []
    requires backend != Neon ==> Wrote(before, now, at, a, input, q, pad) && w == Decoded(a, input[..4 * q]) + pad
    requires backend == Neon ==> |w| == 3 * q && Accumulated(a, input, q, w)
    ensures Left(backend, a, input, w)
  {
    hide Accumulated, Wrote, Valid, Decoded;
    if backend != Neon {
      WroteValid(before, now, at, a, input, q, pad);
      assert Decoded(a, input[..4 * q]) + [] == Decoded(a, input[..4 * q]);
    }
  }

  lemma LeftByScalar(backend: Backend, a: DecodeAlphabet, input: seq<byte>, before: seq<byte>, now: seq<byte>, at: nat,
                     q: nat, pad: seq<byte>, w: seq<byte>)
    requires 4 * q <= |input| && pad == []
    requires Wrote(before, now, at, a, input, q, pad) && w == Decoded(a, input[..4 * q]) + pad
    requires backend == Neon ==> Valid(a, input, 0, Bulk(|input|))
    ensures Left(backend, a, input, w)
  {
    hide Wrote, Valid, Decoded, Left;
    WroteValid(before, now, at, a, input, q, pad);
    assert Decoded(a, input[..4 * q]) + [] == Decoded(a, input[..4 * q]);
    LeftPrefix(backend, a, input, q, w);
  }

  lemma PrefixSlice(a: DecodeAlphabet, input: seq<byte>, m: nat, k: nat)
    requires k <= m <= |input|
    ensures Valid(a, input[..m], 0, k) <==> Valid(a, input, 0, k)
  {
    ValidSlice(a, input, 0, m);
    assert input[0..m] == input[..m];
  }

  /** Input without padding: whole quartets, then a tail of two or three symbols. */
  method DecodeUnpaddedToPtr(backend: Backend, wide: bool, policy: ErrorWritePolicy, a: DecodeAlphabet,
                             input: seq<byte>, output: array<byte>, at: nat)
    returns (ok: bool, ghost q: nat, ghost w: seq<byte>)
    requires |input| % 4 != 1 && at + DecodedSymbolLen(|input|) <= output.Length
    modifies output
    ensures ok <==> AllValid(a, input)
    ensures ok ==> output[..] == Store(old(output[..]), at, Decoded(a, input))
    ensures !ok && policy == ValidatedBlocksOnly ==> Wrote(old(output[..]), output[..], at, a, input, q, [])
    ensures !ok && policy == Partial ==> Leaves(backend, a, input, w)
    ensures |w| <= DecodedSymbolLen(|input|) && output[..] == Store(old(output[..]), at, w)
  {
    hide StrictValue, Wrote, Store, Valid, Decoded, DecodedSymbolLen, Left, Bulk;
    ghost var before := output[..];
    var quartets := |input| / 4;
    QuartetsLen(|input|);
    var prefix := input[..4 * quartets];
    ghost var pad;
    ok, q, pad, w := DecodeToPtr(backend, wide, policy, false, a, prefix, 0, output, at);
    assert pad == [] && |w| <= 3 * quartets;
    assert prefix[..|prefix|] == prefix;
    PrefixSlice(a, input, 4 * quartets, 4 * quartets);
    ValidSplits(a, input, 0, 4 * quartets, |input|);
    if !ok {
      if policy == ValidatedBlocksOnly {
        WroteSlice(before, output[..], at, a, input, 4 * quartets, q, []);
      }
      return;
    }
    w, q := Decoded(a, prefix), quartets;
    assert w + [] == w;
    ValidSplits(a, prefix, 0, Bulk(|prefix|), |prefix|);
    LeftPrefix(backend, a, prefix, quartets, w);
    WholePrefixWrote(before, output[..], at, a, input, quartets);
    ok := FinishUnpadded(a, input, quartets, output, at, before);
    if ok {
      w := Decoded(a, input);
    }
  }

  lemma QuartetsLen(n: nat)
    ensures DecodedSymbolLen(n) == n / 4 * 3 + DecodedSymbolLen(n % 4)
    ensures DecodedSymbolLen(4 * (n / 4)) == n / 4 * 3 && (4 * (n / 4)) % 4 == 0 && 4 * (n / 4) / 4 == n / 4
    ensures n % 4 == 2 || n % 4 == 3 ==> DecodedSymbolLen(n % 4) == n % 4 - 1
    ensures n % 4 == 0 ==> DecodedSymbolLen(n % 4) == 0
  {
  }

  lemma WholePrefixWrote(before: seq<byte>, after: seq<byte>, at: nat, a: DecodeAlphabet, input: seq<byte>, q: nat)
    requires 4 * q <= |input| && at + 3 * q <= |before| && Valid(a, input, 0, 4 * q)
    requires after == Store(before, at, Decoded(a, input[..4 * q]))
    ensures Wrote(before, after, at, a, input, q, [])
  {
    assert Decoded(a, input[..4 * q]) + [] == Decoded(a, input[..4 * q]);
  }

  method DecodeUnpaddedTail(a: DecodeAlphabet, s: seq<byte>, output: array<byte>, at: nat) returns (ok: bool)
    requires |s| == 2 || |s| == 3
    requires at + |s| - 1 <= output.Length
    modifies output
    ensures ok <==> AllValid(a, s)
    ensures output[..] == if ok then Store(old(output[..]), at, Decoded(a, s)) else old(output[..])
  {
    hide First, Second, Third, StrictValue, Store, Decoded;
    ghost var before := output[..];
    StrictValueRange(a, s[0]);
    StrictValueRange(a, s[1]);
    DecodedShort(a, s);
    var first, second := DecodeValue(a, s[0]), DecodeValue(a, s[1]);
    if first.None? || second.None? {
      return false;
    }
    var third: Option<byte> := Some(0);
    if |s| == 3 {
      StrictValueRange(a, s[2]);
      third := DecodeValue(a, s[2]);
    }
    if third.None? {
      return false;
    }
    output[at] := First(first.value, second.value);
    if |s| == 3 {
      output[at + 1] := Second(second.value, third.value);
    }
    WroteFew(before, output[..], at, Decoded(a, s));
    return true;
  }

  /** The tail behind the whole quartets of unpadded input, if there is one. */
  method FinishUnpadded(a: DecodeAlphabet, input: seq<byte>, quartets: nat, output: array<byte>, at: nat,
                        ghost before: seq<byte>)
    returns (ok: bool)
    requires quartets == |input| / 4 && |input| % 4 != 1
    requires Wrote(before, output[..], at, a, input, quartets, [])
    requires |before| == output.Length && at + DecodedSymbolLen(|input|) <= output.Length
    modifies output
    ensures ok <==> AllValid(a, input)
    ensures ok ==> output[..] == Store(before, at, Decoded(a, input))
    ensures !ok ==> output[..] == old(output[..])
  {
    hide StrictValue, Wrote, Store, Valid, Decoded, DecodedSymbolLen;
    QuartetsLen(|input|);
    WroteValid(before, output[..], at, a, input, quartets, []);
    ValidSplits(a, input, 0, 4 * quartets, |input|);
    ValidSlice(a, input, 0, |input|);
    ValidSlice(a, input, 4 * quartets, |input|);
    assert input[0..|input|] == input[..|input|] == input;
    var tail := input[4 * quartets..|input|];
    ok := true;
    if tail != [] {
      ghost var was := output[..];
      ok := DecodeUnpaddedTail(a, tail, output, at + 3 * quartets);
      if ok {
        WroteTail(before, was, at, a, input, quartets, [], |input|);
        assert Decoded(a, input) + Rest([], |Decoded(a, tail)|) == Decoded(a, input);
      }
    } else {
      ValidEmpty(a, tail);
      WroteExactly(before, output[..], at, a, input, quartets);
    }
  }

  /** Packs symbols of the standard alphabet that were validated before: no check, exact output. */
  method DecodeStandardValidated(backend: Backend, wide: bool, input: seq<byte>, output: array<byte>, at: nat)
    returns (written: nat)
    requires AllValid(Standard, input) && |input| % 4 != 1
    requires at + DecodedSymbolLen(|input|) <= output.Length
    modifies output
    ensures written == DecodedSymbolLen(|input|)
    ensures output[..] == Store(old(output[..]), at, Decoded(Standard, input))
  {
    hide StrictValue, Wrote, Store, Valid, Decoded, Covered;
    ghost var before := output[..];
    var prefixLen := 4 * (|input| / 4);
    var source, destination := 0, 0;
    ghost var q := 0;
    if prefixLen >= 16 {
      ValidSlice(Standard, input, 0, prefixLen);
      ValidWithin(Standard, input, 0, |input|, 0, prefixLen);
      assert input[0..prefixLen] == input[..prefixLen];
      source, destination, q := KernelValidated(backend, wide, input[..prefixLen], output, at);
      WroteSlice(before, output[..], at, Standard, input, prefixLen, q, []);
    } else {
      WroteNothing(before, at, Standard, input);
    }
    source, destination, q := ValidatedLoops(input, prefixLen, source, output, at, destination, before, q);
    var _ := FinishUnpadded(Standard, input, source / 4, output, at, before);
    QuartetsLen(|input|);
    var tail := |input| - prefixLen;
    written := destination + (if tail == 0 then 0 else tail - tail / 2);
  }

  method ValidatedLoops(input: seq<byte>, prefixLen: nat, source0: nat, output: array<byte>, at: nat, destination0: nat,
                        ghost before: seq<byte>, ghost q0: nat)
    returns (source: nat, destination: nat, ghost q: nat)
    requires prefixLen % 4 == 0 && source0 == 4 * q0 <= prefixLen <= |input| && destination0 == 3 * q0
    requires AllValid(Standard, input) && Wrote(before, output[..], at, Standard, input, q0, [])
    requires |before| == output.Length && at + prefixLen / 4 * 3 <= output.Length
    modifies output
    ensures source == 4 * q == prefixLen && destination == 3 * q
    ensures Wrote(before, output[..], at, Standard, input, q, [])
  {
    hide StrictValue, Wrote, Store, Valid, Decoded;
    source, destination, q := source0, destination0, q0;
    while source + 8 <= prefixLen
      invariant source == 4 * q <= prefixLen && destination == 3 * q
      invariant Wrote(before, output[..], at, Standard, input, q, [])
    {
      ValidWithin(Standard, input, 0, |input|, source, source + 8);
      var _ := ScalarEight(Standard, input, source, output, at, destination, before, q, []);
      source, destination, q := source + 8, destination + 6, q + 2;
    }
    while source < prefixLen
      invariant source == 4 * q <= prefixLen && destination == 3 * q
      invariant Wrote(before, output[..], at, Standard, input, q, [])
    {
      ValidWithin(Standard, input, 0, |input|, source, source + 4);
      var _ := ScalarQuad(Standard, input, source, output, at, destination, before, q, []);
      source, destination, q := source + 4, destination + 3, q + 1;
    }
  }

  method KernelValidated(backend: Backend, wide: bool, input: seq<byte>, output: array<byte>, at: nat)
    returns (source: nat, destination: nat, ghost q: nat)
    requires AllValid(Standard, input) && at + |input| / 4 * 3 <= output.Length
    modifies output
    ensures source == 4 * q == Covered(backend, |input|) && destination == 3 * q
    ensures Wrote(old(output[..]), output[..], at, Standard, input, q, [])
  {
    hide StrictValue, Wrote, Valid, Whole16, Whole4;
    ValidWithin(Standard, input, 0, |input|, 0, Covered(backend, |input|));
    ghost var pad := [];
    var r;
    match backend {
      case Scalar =>
        WroteNothing(output[..], at, Standard, input);
        return 0, 0, 0;
      case Neon =>
        source, destination, q := DecodeStandardValidatedNeon(input, output, at);
        return;
      case Ssse3 => r, q, pad := DecodeSse(Standard, false, ExactStore, input, output, at);
      case Sse41 => r, q, pad := DecodeSse(Standard, false, ExactStore, input, output, at);
      case Avx2 => r, q, pad := DecodeAvx2(Standard, false, ExactStore, wide, input, output, at);
      case Avx512Vbmi => r, q, pad := DecodeAvx512(Standard, false, ExactStore, wide, input, output, at);
    }
    source, destination := r.source, r.destination;
  }

  /** Vector validation of the blocks a backend covers, then a table walk over the rest. */
  method ValidateAlphabet(backend: Backend, a: DecodeAlphabet, input: seq<byte>) returns (ok: bool)
    ensures ok <==> AllValid(a, input)
  {
    hide StrictValue;
    var source := 0;
    if |input| >= 16 {
      var r := Blocks(0, 0);
      match backend {
        case Scalar =>
        case Neon => r := ValidateNeon(a, input);
        case Ssse3 => r := ValidateSse(a, input);
        case Sse41 => r := ValidateSse(a, input);
        case Avx2 => r := ValidateAvx2(a, input);
        case Avx512Vbmi => r := ValidateAvx512(a, input);
      }
      if r == InvalidBlock {
        return false;
      }
      source := r.source;
    }
    while source < |input|
      invariant source <= |input| && Valid(a, input, 0, source)
    {
      StrictValueRange(a, input[source]);
      if StrictValue(a, input[source]) == INVALID_VALUE {
        return false;
      }
      source := source + 1;
    }
    ok := true;
  }

  /** The longest-prefix kernel, where the backend has one. */
  method DecodeValidPrefix(backend: Backend, wide: bool, a: DecodeAlphabet, input: seq<byte>, output: array<byte>,
                           at: nat)
    returns (r: Option<(nat, nat)>, ghost q: nat)
    requires at + |input| / 4 * 3 <= output.Length
    modifies output
    ensures r.None? <==> backend == Scalar || backend == Neon
    ensures r.None? ==> q == 0
    ensures r.Some? ==> r.value == (4 * q, 3 * q)
    ensures r.Some? ==> LongestPrefix(a, input, if backend == Avx512Vbmi && |input| >= 64 then 4 else 16, 4 * q)
    ensures Wrote(old(output[..]), output[..], at, a, input, q, [])
  {
    hide StrictValue, Wrote, LongestPrefix;
    var source, destination;
    q := 0;
    match backend {
      case Scalar =>
        WroteNothing(output[..], at, a, input);
        return None, 0;
      case Neon =>
        WroteNothing(output[..], at, a, input);
        return None, 0;
      case Ssse3 => source, destination, q := DecodePrefixSse(a, input, output, at);
      case Sse41 => source, destination, q := DecodePrefixSse(a, input, output, at);
      case Avx2 => source, destination, q := DecodePrefixAvx2(a, wide, input, output, at);
      case Avx512Vbmi => source, destination, q := DecodePrefixAvx512(a, wide, input, output, at);
    }
    r := Some((source, destination));
  }

  // ----- entry points -----

  datatype DecodeResult = Ok(written: nat) | InvalidInput | OutputTooSmall(required: nat, provided: nat)

  /** What a decode into a caller's buffer did: on success exactly `d` was stored at its start; a
      capacity error wrote nothing. */
  ghost predicate Delivered(before: seq<byte>, after: seq<byte>, meaning: Option<seq<byte>>, r: DecodeResult) {
    match r
    case Ok(n) =>
      && meaning.Some? && n == |meaning.value| <= |before|
      && after == Store(before, 0, meaning.value)
    case InvalidInput => meaning.None?
    case OutputTooSmall(required, provided) => provided == |before| < required && after == before
  }

  /** Padded strict decoding into a caller's buffer. */
  method DecodeStrictInto(backend: Backend, wide: bool, policy: ErrorWritePolicy, a: DecodeAlphabet,
                          input: seq<byte>, output: array<byte>)
    returns (r: DecodeResult, ghost q: nat, ghost w: seq<byte>)
    modifies output
    ensures Delivered(old(output[..]), output[..], StrictPadded(a, input), r)
    ensures r.OutputTooSmall? <==> |input| % 4 == 0 && output.Length < |input| / 4 * 3 - TrailingPadding(input)
    ensures r.OutputTooSmall? ==> r.required == |input| / 4 * 3 - TrailingPadding(input)
    ensures policy == ValidatedBlocksOnly && r.InvalidInput? ==> Wrote(old(output[..]), output[..], 0, a, input, q, [])
    ensures r.InvalidInput? && (q > 0 || w != []) ==> |input| % 4 == 0
    ensures r.InvalidInput? && (q > 0 || w != []) ==> |w| <= |input| / 4 * 3 - TrailingPadding(input) <= output.Length
    ensures r.InvalidInput? ==> |w| <= output.Length && output[..] == Store(old(output[..]), 0, w)
  {
    hide StrictValue, Store, Valid, Decoded, Wrote, DecodedSymbolLen;
    q, w := 0, [];
    StoreNothing(output[..], 0);
    WroteNothing(output[..], 0, a, input);
    var layout := DecodeLayout(input);
    if layout.None? {
      return InvalidInput, q, w;
    }
    var padding, required := layout.value.padding, layout.value.outputLen;
    LayoutLen(|input|, padding);
    if output.Length < required {
      return OutputTooSmall(required, output.Length), q, w;
    }
    var ok;
    ghost var pad;
    ok, q, pad, w := DecodeToPtr(backend, wide, policy, false, a, input, padding, output, 0);
    ghost var d := Decoded(a, input[..|input| - padding]);
    assert d + [] == d;
    DecodedSymbolLenMonotone(|input| - padding, |input|);
    return if ok then Ok(required) else InvalidInput, q, w;
  }

  /** Unpadded strict decoding into a caller's buffer; any '=' is an error before anything else. */
  method DecodeUnpaddedInto(backend: Backend, wide: bool, policy: ErrorWritePolicy, a: DecodeAlphabet,
                            input: seq<byte>, output: array<byte>)
    returns (r: DecodeResult, ghost q: nat, ghost w: seq<byte>)
    modifies output
    ensures Delivered(old(output[..]), output[..], StrictUnpadded(a, input), r)
    ensures r.OutputTooSmall? ==> r.required == DecodedSymbolLen(|input|)
    ensures policy == ValidatedBlocksOnly && r.InvalidInput? ==> Wrote(old(output[..]), output[..], 0, a, input, q, [])
    ensures r.OutputTooSmall? ==> EQUALS !in input && |input| % 4 != 1
    ensures r.InvalidInput? && (q > 0 || w != []) ==> |w| <= DecodedSymbolLen(|input|) <= output.Length
    ensures r.InvalidInput? && (q > 0 || w != []) ==> EQUALS !in input && |input| % 4 != 1
    ensures r.InvalidInput? ==> |w| <= output.Length && output[..] == Store(old(output[..]), 0, w)
  {
    hide StrictValue, Store, Valid, Decoded, Wrote, DecodedSymbolLen;
    q, w := 0, [];
    StoreNothing(output[..], 0);
    WroteNothing(output[..], 0, a, input);
    if EQUALS in input {
      EqualsIsInvalid(a, input);
      return InvalidInput, q, w;
    }
    var layout := DecodeUnpaddedLayout(input);
    if layout.None? {
      return InvalidInput, q, w;
    }
    if output.Length < layout.value.outputLen {
      return OutputTooSmall(layout.value.outputLen, output.Length), q, w;
    }
    var ok;
    ok, q, w := DecodeUnpaddedToPtr(backend, wide, policy, a, input, output, 0);
    return if ok then Ok(layout.value.outputLen) else InvalidInput, q, w;
  }

  lemma EqualsIsInvalid(a: DecodeAlphabet, input: seq<byte>)
    requires EQUALS in input
    ensures !AllValid(a, input)
  {
    var k :| 0 <= k < |input| && input[k] == EQUALS;
    assert StrictValue(a, EQUALS) == INVALID_VALUE;
  }

  /** Decoding into a fresh allocation; long inputs get slack for full-width stores, which is cut off. */
  method DecodeAllocating(backend: Backend, wide: bool, a: DecodeAlphabet, input: seq<byte>)
    returns (r: Option<seq<byte>>)
    ensures r == StrictPadded(a, input)
  {
    hide StrictValue, Valid, Decoded, DecodedSymbolLen, Store;
    var layout := DecodeLayout(input);
    if layout.None? {
      return None;
    }
    var padding, required := layout.value.padding, layout.value.outputLen;
    LayoutLen(|input|, padding);
    if required == 0 {
      EmptyLayout(a, input);
      return Some([]);
    }
    var simdLen := if padding != 0 then |input| - 4 else |input|;
    var slack := simdLen >= 16;
    var output := new byte[required + SlackLen(slack)](_ => 0);
    ghost var zeros := output[..];
    var ok;
    ghost var q, pad, w;
    ok, q, pad, w := DecodeToPtr(backend, wide, Partial, slack, a, input, padding, output, 0);
    if ok {
      ghost var d := Decoded(a, input[..|input| - padding]);
      StoredFirst(zeros, d, pad);
      r := Some(output[..required]);
    } else {
      r := None;
    }
  }

  lemma StoredFirst(was: seq<byte>, d: seq<byte>, pad: seq<byte>)
    requires |d + pad| <= |was|
    ensures Store(was, 0, d + pad)[..|d|] == d
  {
  }

  /** Padded decoding into a fresh object, which has exactly the layout's size: no slack is offered. Ghostly it says
      whether all stores, on failure too, were inside. */
  method DecodeStrictAllocating(backend: Backend, wide: bool, a: DecodeAlphabet, input: seq<byte>)
    returns (r: Option<seq<byte>>, ghost inside: bool)
    ensures r == StrictPadded(a, input) && inside
  {
    hide StrictValue, Valid, Decoded, DecodedSymbolLen, Store, Wrote, Left, TrailingPadding, DecodeLayout;
    inside := true;
    var layout := DecodeLayout(input);
    if layout.None? {
      return None, inside;
    }
    var padding, required := layout.value.padding, layout.value.outputLen;
    LayoutLen(|input|, padding);
    var output := new byte[required](_ => 0);
    ghost var zeros := output[..];
    var ok;
    ghost var q, pad, w;
    ok, q, pad, w := DecodeToPtr(backend, wide, Partial, false, a, input, padding, output, 0);
    inside := |w| <= required;
    if ok {
      StoredFirst(zeros, Decoded(a, input[..|input| - padding]), pad);
      r := Some(output[..required]);
    } else {
      r := None;
    }
  }

  /** Unpadded decoding into a fresh object of exactly the layout's size. */
  method DecodeUnpaddedAllocating(backend: Backend, wide: bool, a: DecodeAlphabet, input: seq<byte>)
    returns (r: Option<seq<byte>>, ghost inside: bool)
    ensures r == StrictUnpadded(a, input) && inside
  {
    hide StrictValue, Valid, Decoded, DecodedSymbolLen;
    inside := true;
    var layout := DecodeUnpaddedLayout(input);
    if layout.None? {
      return None, inside;
    }
    var output := new byte[layout.value.outputLen](_ => 0);
    var ok;
    ghost var q, w;
    ok, q, w := DecodeUnpaddedToPtr(backend, wide, Partial, a, input, output, 0);
    inside := |w| <= layout.value.outputLen;
    if ok {
      ghost var d := Decoded(a, input);
      assert output[0..|d|] == d;
      r := Some(output[..layout.value.outputLen]);
    } else {
      r := None;
    }
  }

  lemma EmptyLayout(a: DecodeAlphabet, input: seq<byte>)
    requires |input| % 4 == 0 && |input| / 4 * 3 - TrailingPadding(input) == 0
    ensures StrictPadded(a, input) == Some([])
  {
    assert |input| == 0;
  }

  /** The length query: the layout, and no '=' among the data. */
  function B64DecodedLen(input: seq<byte>): (r: Option<nat>) {
    var layout := DecodeLayout(input);
    if layout.None? || EQUALS in input[..|input| - layout.value.padding] then None
    else Some(layout.value.outputLen)
  }

  /** A successful decode has the length that the query reports. */
  lemma DecodedLenIsExact(a: DecodeAlphabet, input: seq<byte>)
    requires StrictPadded(a, input).Some?
    ensures B64DecodedLen(input) == Some(|StrictPadded(a, input).value|)
  {
    hide StrictValue, Decoded;
    var n := |input| - TrailingPadding(input);
    if EQUALS in input[..n] {
      EqualsIsInvalid(a, input[..n]);
      PrefixSlice(a, input, n, n);
    }
  }
}
