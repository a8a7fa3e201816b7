/** The decode driver: a policy selects a route, and a route is an ordered list of attempts on one
reusable buffer. Whatever the order tries and drops, the buffer ends with the policy's meaning. */
module Driver {
  import opened Bytes
  import opened Alphabet
  import opened Quantum
  import opened Vectors
  import opened Strict
  import opened StrictApi
  import opened DecodeKernels
  import opened LenientSpec
  import opened LenientApi
  import opened ConfiguredSpec
  import opened ConfiguredTable
  import opened ConfiguredPlain
  import opened Configured
  import opened DriverSpec
  import Lenient

  /** The differences between interpreter versions that matter to decoding. */
  datatype Semantics = Semantics(urlsafeExclusiveAlphabet: bool, continuesAfterPadding: bool)

  datatype Shortcut = NoShortcut | StandardStrict | CanonicalUnpadded

  datatype Route =
    | ConfiguredRoute(shortcut: Shortcut)
    | StrictRoute(urlsafe315: bool)
    | LenientDirect(urlsafe315: bool)
    | LenientCustom

  function SelectRoute(p: Policy, emptyExactIgnorechars: bool, semantics: Semantics): Route {
    var standardStrict := p.altchars == NoAltchars && p.alphabet.None? && p.padded
                          && (p.ignored.None? || emptyExactIgnorechars) && (p.canonical || emptyExactIgnorechars);
    if p.ignored.Some? || p.canonical then
      ConfiguredRoute(if standardStrict then StandardStrict
                      else if p.ignored.None? && p.canonical && !p.padded then CanonicalUnpadded
                      else NoShortcut)
    else
      var urlsafe315 := semantics.urlsafeExclusiveAlphabet && p.altchars == URLSAFE_ALTCHARS;
      if p.strict then StrictRoute(urlsafe315)
      else if p.altchars == NoAltchars || p.altchars == URLSAFE_ALTCHARS then LenientDirect(urlsafe315)
      else LenientCustom
  }

  datatype Attempt = ProbeAttempt | StrictAttempt

  function ErrorWrites(a: Attempt): ErrorWritePolicy {
    if a == ProbeAttempt then ValidatedBlocksOnly else Partial
  }

  datatype Verdict = Value(written: nat) | Deferred | Failed(required: nat, provided: nat)

  /** Probes defer capacity failures to the next decoder; strict attempts report them. */
  function Accept(a: Attempt, r: DecodeResult): Verdict {
    match r
    case Ok(n) => Value(n)
    case OutputTooSmall(required, provided) => if a == StrictAttempt then Failed(required, provided) else Deferred
    case InvalidInput => Deferred
  }

  /** How a whole decode ends. Without a native result the caller falls back to the interpreter. */
  datatype ExecuteResult = Done(written: nat) | NoNative | CapacityError(required: nat, provided: nat)

  /** At most a prefix of that many bytes was changed. */
  ghost predicate Spares(before: seq<byte>, after: seq<byte>, bound: nat) {
    |after| == |before| && (bound < |before| ==> after[bound..] == before[bound..])
  }

  /** What the caller of a decode relies on: on success the buffer holds the meaning and every byte behind
      it is unchanged; a capacity error changed nothing, asks for exactly the meaning's length and otherwise for no more
      than the bound; no result means the input has no meaning, and whatever the failed attempts left is within the
      bound. */
  ghost predicate Served(before: seq<byte>, after: seq<byte>, meaning: Option<seq<byte>>, bound: nat, r: ExecuteResult)
  {
    match r
    case Done(n) => meaning.Some? && n == |meaning.value| <= |before| && after == Store(before, 0, meaning.value)
    case NoNative => meaning.None? && Spares(before, after, bound)
    case CapacityError(required, provided) =>
      && after == before && provided == |before| < required <= bound
      && (meaning.Some? ==> required == |meaning.value|)
  }

  function StrictDirect(a: DecodeAlphabet, padded: bool, input: seq<byte>): Option<seq<byte>> {
    if padded then StrictPadded(a, input) else StrictUnpadded(a, input)
  }

  /** A direct strict attempt. */
  method DirectInto(backend: Backend, wide: bool, attempt: Attempt, a: DecodeAlphabet, padded: bool, input: seq<byte>,
                    output: array<byte>)
    returns (r: DecodeResult, ghost q: nat, ghost w: seq<byte>)
    modifies output
    ensures Delivered(old(output[..]), output[..], StrictDirect(a, padded, input), r)
    ensures r.OutputTooSmall? ==> r.required == LayoutSize(padded, input) && HasLayout(padded, input)
    ensures r.InvalidInput? && attempt == ProbeAttempt ==> Wrote(old(output[..]), output[..], 0, a, input, q, [])
    ensures r.InvalidInput? && q > 0 ==> LayoutSize(padded, input) <= output.Length
    ensures r.InvalidInput? ==> |w| <= output.Length && output[..] == Store(old(output[..]), 0, w)
    ensures r.InvalidInput? && w != [] ==> HasLayout(padded, input) && |w| <= LayoutSize(padded, input) <= output.Length
  {
    hide StrictValue, Store, Wrote, Valid, Decoded;
    LayoutSizes(input);
    if padded {
      r, q, w := DecodeStrictInto(backend, wide, ErrorWrites(attempt), a, input, output);
    } else {
      r, q, w := DecodeUnpaddedInto(backend, wide, ErrorWrites(attempt), a, input, output);
    }
  }

  /** The size that the layout alone promises. */
  function LayoutSize(padded: bool, input: seq<byte>): nat {
    DecodedSymbolLen(if padded then |input| - TrailingPadding(input) else |input|)
  }

  predicate HasLayout(padded: bool, input: seq<byte>) {
    if padded then |input| % 4 == 0 else |input| % 4 != 1 && EQUALS !in input
  }

  lemma LayoutSizes(input: seq<byte>)
    ensures |input| % 4 == 0 ==> LayoutSize(true, input) == |input| / 4 * 3 - TrailingPadding(input)
    ensures LayoutSize(true, input) <= LayoutSize(false, input)
  {
    DecodedSymbolLenMonotone(|input| - TrailingPadding(input), |input|);
  }

  /** A probe: success is reported, anything else only leaves a decoded prefix. */
  method ProbeDirect(backend: Backend, wide: bool, a: DecodeAlphabet, padded: bool, input: seq<byte>,
                     output: array<byte>, ghost t: Table, ghost before: seq<byte>, ghost w0: seq<byte>)
    returns (v: Option<nat>, ghost w: seq<byte>)
    requires Agrees(a, t) && Probed(t, input, before, output[..], w0)
    modifies output
    ensures v.Some? ==> StrictDirect(a, padded, input).Some?
    ensures v.Some? ==> v.value == |StrictDirect(a, padded, input).value| <= output.Length
    ensures v.Some? ==> output[..] == Store(old(output[..]), 0, StrictDirect(a, padded, input).value)
    ensures v.None? ==> Probed(t, input, before, output[..], w)
  {
    hide StrictValue, Store, Wrote, Agrees, Probed, StrictDirect;
    ghost var was := output[..];
    LayoutSizes(input);
    ProbedLength(t, input, before, was, w0);
    var r;
    ghost var q, scribbled;
    r, q, scribbled := DirectInto(backend, wide, ProbeAttempt, a, padded, input, output);
    w := w0;
    match Accept(ProbeAttempt, r) {
      case Value(n) => v := Some(n);
      case Failed(_, _) => v := None;
      case Deferred =>
        v := None;
        if r.InvalidInput? {
          w := ProbedAgain(a, t, input, before, was, output[..], w0, q);
        }
    }
  }

  lemma ProbedLength(t: Table, input: seq<byte>, before: seq<byte>, now: seq<byte>, w: seq<byte>)
    requires Probed(t, input, before, now, w)
    ensures |now| == |before|
  {
  }

  /** A strict success is the lenient result: padded input under any policy, unpadded input where padding
      is not required. */
  lemma DirectIsLenient(a: DecodeAlphabet, padded: bool, t: Table, m: Mode, canonical: bool, input: seq<byte>)
    requires Agrees(a, t) && StrictDirect(a, padded, input).Some? && (padded || !m.padded)
    ensures var data := if padded then input[..|input| - TrailingPadding(input)] else input;
            && AllSymbols(t, data) && Decode(Map(t, data)) == StrictDirect(a, padded, input).value
            && LenientValues(t, m, canonical, input)
            == if IsCanonical(canonical, Map(t, data)) then Some(Map(t, data)) else None
  {
    hide StrictValue, Decode, Run, IsCanonical, Agrees;
    var data := if padded then input[..|input| - TrailingPadding(input)] else input;
    AgreesOnEquals(a, t);
    if padded {
      ValidSlice(a, input, 0, |data|);
      assert input[0..|data|] == data;
      AgreeingSymbols(a, t, data);
      LenientOfPadded(t, m, input);
    } else {
      AgreeingSymbols(a, t, data);
      LenientOfUnpadded(t, m.continueAfterPadding, input);
    }
  }

  lemma AgreesOnEquals(a: DecodeAlphabet, t: Table)
    requires Agrees(a, t)
    ensures t(EQUALS) == 64
  {
  }

  /** A strict success is the strict configured result of any table without ignored bytes. */
  lemma DirectIsPlain(a: DecodeAlphabet, padded: bool, t: Table, canonical: bool, input: seq<byte>)
    requires Agrees(a, t) && Plain(t) && StrictDirect(a, padded, input).Some?
    ensures var data := if padded then input[..|input| - TrailingPadding(input)] else input;
            && AllSymbols(t, data) && Decode(Map(t, data)) == StrictDirect(a, padded, input).value
            && StrictValues(t, padded, canonical, input)
            == if IsCanonical(canonical, Map(t, data)) then Some(Map(t, data)) else None
  {
    hide StrictValue, Decode, StrictScan, IsCanonical, Agrees, Plain;
    var data := if padded then input[..|input| - TrailingPadding(input)] else input;
    AgreesOnEquals(a, t);
    if padded {
      ValidSlice(a, input, 0, |data|);
      assert input[0..|data|] == data;
      AgreeingSymbols(a, t, data);
      PlainPadded(t, canonical, input);
    } else {
      AgreeingSymbols(a, t, data);
      PlainUnpadded(t, false, canonical, input);
    }
  }

  /** A success behind failed probes restores everything past its own bytes. */
  lemma SuccessAfterProbes(t: Table, strict: bool, padded: bool, canonical: bool, continueAfterPadding: bool,
                           input: seq<byte>, before: seq<byte>, was: seq<byte>, now: seq<byte>, w: seq<byte>, n: nat)
    requires Probed(t, input, before, was, w) && (t(EQUALS) >= 64 || w == [])
    requires var v := ConfiguredValues(t, strict, padded, canonical, continueAfterPadding, input);
             v.Some? && n == |Decode(v.value)| <= |before| && now == Store(was, 0, Decode(v.value))
    ensures Served(before, now, Meaning(ConfiguredValues(t, strict, padded, canonical, continueAfterPadding, input)),
                   DecodedLenUpperBound(t, input), Done(n))
  {
    hide ConfiguredValues, Decode, Store;
    ProbeCovered(t, strict, padded, canonical, continueAfterPadding, input, before, was, w);
  }

  /** The last decoder of a route, behind failed probes. */
  lemma LastAfterProbes(t: Table, strict: bool, padded: bool, canonical: bool, continueAfterPadding: bool,
                        input: seq<byte>, before: seq<byte>, was: seq<byte>, now: seq<byte>, w: seq<byte>,
                        r: DecodeResult, x: seq<byte>)
    requires Probed(t, input, before, was, w) && (t(EQUALS) >= 64 || w == [])
    requires Delivered(was, now,
                       Meaning(ConfiguredValues(t, strict, padded, canonical, continueAfterPadding, input)), r)
    requires var v := ConfiguredValues(t, strict, padded, canonical, continueAfterPadding, input);
             r.OutputTooSmall? ==> v.Some? && r.required == |Decode(v.value)|
    requires r.InvalidInput? ==> |x| <= |was| && now == Store(was, 0, x) && |x| <= DecodedLenUpperBound(t, input)
    ensures Served(before, now, Meaning(ConfiguredValues(t, strict, padded, canonical, continueAfterPadding, input)),
                   DecodedLenUpperBound(t, input), Finally(r))
  {
    hide ConfiguredValues, Decode, Store, Spares, DecodedLenUpperBound;
    var v := ConfiguredValues(t, strict, padded, canonical, continueAfterPadding, input);
    if v.Some? {
      ProbeCovered(t, strict, padded, canonical, continueAfterPadding, input, before, was, w);
    }
    ProbedLength(t, input, before, was, w);
    StoreNothing(before, 0);
    if r.OutputTooSmall? {
      AcceptedFits(t, strict, padded, canonical, continueAfterPadding, input);
    }
    if r.InvalidInput? {
      ProbedSpares(t, input, before, was, now, w, x);
    }
  }

  lemma SparesBehind(before: seq<byte>, w: seq<byte>, bound: nat)
    requires |w| <= |before| && |w| <= bound
    ensures Spares(before, Store(before, 0, w), bound)
  {
  }

  /** Neither failed probes nor a failed decode behind them reach past the bound. */
  lemma ProbedSpares(t: Table, input: seq<byte>, before: seq<byte>, was: seq<byte>, now: seq<byte>, w: seq<byte>,
                     x: seq<byte>)
    requires Probed(t, input, before, was, w)
    requires |x| <= |was| && now == Store(was, 0, x) && |x| <= DecodedLenUpperBound(t, input)
    ensures Spares(before, now, DecodedLenUpperBound(t, input))
  {
    var bound := DecodedLenUpperBound(t, input);
    ProbedLen(t, input, before, was, w);
    SparesBehind(before, w, bound);
    SparesBehind(was, x, bound);
  }

  lemma ProbedLen(t: Table, input: seq<byte>, before: seq<byte>, was: seq<byte>, w: seq<byte>)
    requires Probed(t, input, before, was, w)
    ensures |w| <= DecodedLenUpperBound(t, input)
  {
    var n, pads := |w| / 3 * 4, if t(EQUALS) >= 64 then TrailingPadding(input) else 0;
    if pads > 0 {
      assert t(input[|input| - pads]) >= 64;
    }
    DecodedSymbolLenMonotone(n, |input| - pads);
  }

  function Finally(r: DecodeResult): ExecuteResult {
    match Accept(StrictAttempt, r)
    case Value(n) => Done(n)
    case Deferred => NoNative
    case Failed(required, provided) => CapacityError(required, provided)
  }

  /** Whether a byte near either end rules out a successful strict probe. */
  predicate HasEdgeNoise(input: seq<byte>, alt: Altchars)
    requires |input| >= 64
  {
    exists b :: b in input[..64] + input[|input| - 64..] && b != EQUALS && !IsLenientSymbol(b, alt)
  }

  lemma LenientAgrees(alt: Altchars)
    requires alt == NoAltchars || alt == URLSAFE_ALTCHARS
    ensures Agrees(if alt == NoAltchars then Standard else Mixed, LenientTable(alt))
    ensures alt == URLSAFE_ALTCHARS ==> Agrees(UrlSafe, LenientTable(alt))
    ensures Plain(LenientTable(alt)) && LenientTable(alt)(EQUALS) == 64
  {
  }

  // ----- lenient routes -----

  /** The lenient routes: URL-safe probes where that alphabet is exclusive, a padded probe, an unpadded
      probe where padding is optional, and the lenient decoder last. */
  method ExecuteLenientDirect(backend: Backend, wide: bool, continueAfterPadding: bool, alt: Altchars, padded: bool,
                              urlsafe315: bool, input: seq<byte>, output: array<byte>)
    returns (r: ExecuteResult)
    requires alt == NoAltchars || alt == URLSAFE_ALTCHARS
    requires urlsafe315 ==> alt == URLSAFE_ALTCHARS
    modifies output
    ensures Served(old(output[..]), output[..],
                   LenientMeaning(LenientTable(alt), Mode(padded, continueAfterPadding), input),
                   DecodedLenUpperBound(LenientTable(alt), input), r)
  {
    hide LenientValue, StrictDirect, Store, Decode, Agrees, Probed, Run, Served, IsLenientSymbol;
    var m := Mode(padded, continueAfterPadding);
    var t := LenientTable(alt);
    var a := if alt == NoAltchars then Standard else Mixed;
    ghost var before, w: seq<byte> := output[..], [];
    LenientAgrees(alt);
    ProbedNothing(t, input, before);
    var v: Option<nat> := None;
    if urlsafe315 {
      v, w := ProbeLenient(backend, wide, UrlSafe, true, alt, m, input, output, before, w);
      if v.None? && !padded {
        v, w := ProbeLenient(backend, wide, UrlSafe, false, alt, m, input, output, before, w);
      }
    }
    if v.None? && |input| % 4 == 0 && (|input| < DETACH_THRESHOLD || !HasEdgeNoise(input, alt)) {
      v, w := ProbeLenient(backend, wide, a, true, alt, m, input, output, before, w);
    }
    if v.None? && !padded {
      v, w := ProbeLenient(backend, wide, a, false, alt, m, input, output, before, w);
    }
    if v.Some? {
      return Done(v.value);
    }
    r := FinishLenient(backend, wide, alt, m, input, output, before, w);
  }

  /** One probe of a lenient route. */
  method ProbeLenient(backend: Backend, wide: bool, a: DecodeAlphabet, probePadded: bool, alt: Altchars, m: Mode,
                      input: seq<byte>, output: array<byte>, ghost before: seq<byte>, ghost w0: seq<byte>)
    returns (v: Option<nat>, ghost w: seq<byte>)
    requires Agrees(a, LenientTable(alt)) && (probePadded || !m.padded)
    requires Probed(LenientTable(alt), input, before, output[..], w0)
    modifies output
    ensures v.Some? ==> Served(before, output[..], LenientMeaning(LenientTable(alt), m, input),
                               DecodedLenUpperBound(LenientTable(alt), input), Done(v.value))
    ensures v.None? ==> Probed(LenientTable(alt), input, before, output[..], w)
  {
    hide LenientValue, StrictDirect, Store, Decode, Agrees, Probed, Run, Served;
    ghost var t, was := LenientTable(alt), output[..];
    ProbedLength(t, input, before, was, w0);
    v, w := ProbeDirect(backend, wide, a, probePadded, input, output, t, before, w0);
    if v.Some? {
      DirectIsLenient(a, probePadded, t, m, false, input);
      AgreesOnEquals(a, t);
      SuccessAfterProbes(t, false, m.padded, false, m.continueAfterPadding, input, before, was, output[..], w0,
                         v.value);
    }
  }

  method FinishLenient(backend: Backend, wide: bool, alt: Altchars, m: Mode, input: seq<byte>, output: array<byte>,
                       ghost before: seq<byte>, ghost w: seq<byte>)
    returns (r: ExecuteResult)
    requires Probed(LenientTable(alt), input, before, output[..], w) && (LenientTable(alt)(EQUALS) >= 64 || w == [])
    modifies output
    ensures Served(before, output[..], LenientMeaning(LenientTable(alt), m, input),
                   DecodedLenUpperBound(LenientTable(alt), input), r)
  {
    hide LenientValue, Store, Decode, Probed, Run, Served;
    ghost var t, was := LenientTable(alt), output[..];
    ghost var scribbled;
    var last;
    last, scribbled := DecodeLenientSliceInto(backend, wide, alt, m, input, output);
    LastAfterProbes(t, false, m.padded, false, m.continueAfterPadding, input, before, was, output[..], w, last,
                    scribbled);
    r := Finally(last);
  }

  // ----- custom altchars -----

  /** Strict decoding with altchars and nothing else. */
  function StrictPolicy(alt: Altchars, padded: bool): Policy {
    Policy(alt, None, true, padded, None, false)
  }

  /** The strict decoder for custom altchars. */
  method NewStrictCustom(alt: Altchars, padded: bool) returns (d: Decoder)
    requires alt.Altchars?
    ensures IsStrictCustom(d, alt, padded) && SameTable(d.table, LenientTable(alt))
    ensures Prepared(StrictPolicy(alt, padded), d)
  {
    hide ConfiguredValue, LenientValue, Consistent, Prepared;
    d := NewConfiguredDecoder(StrictPolicy(alt, padded));
    forall b: byte ensures d.table(b) == LenientValue(alt, b) {
      StrictCustomValue(alt, padded, b);
    }
  }

  lemma StrictCustomValue(alt: Altchars, padded: bool, b: byte)
    requires alt.Altchars?
    ensures ConfiguredValue(StrictPolicy(alt, padded), b) == LenientValue(alt, b)
  {
  }

  /** What the strict decoder for custom altchars means, in terms of the lenient table. */
  lemma StrictCustomMeaning(d: Decoder, alt: Altchars, padded: bool, input: seq<byte>)
    requires IsStrictCustom(d, alt, padded) && SameTable(d.table, LenientTable(alt))
    ensures Accepted(d, false, input) == StrictValues(LenientTable(alt), padded, false, input)
    ensures Plain(LenientTable(alt))
  {
    hide LenientValue, StrictScan, StrictEnd;
    StrictCustomTable(d.table, alt);
    SameValues(d.table, LenientTable(alt), true, padded, false, false, input);
    forall b: byte ensures LenientTable(alt)(b) <= 64 {
      assert d.table(b) <= 64;
    }
    assert LenientTable(alt)(EQUALS) != IGNORED_CONFIGURED_VALUE;
  }

  /** An unpadded strict success is the lenient result where padding is not required. */
  lemma UnpaddedIsLenient(t: Table, strictCanonical: bool, canonical: bool, continueAfterPadding: bool,
                          input: seq<byte>)
    requires Plain(t) && StrictValues(t, false, strictCanonical, input).Some?
    ensures AllSymbols(t, input) && StrictValues(t, false, strictCanonical, input).value == Map(t, input)
    ensures LenientValues(t, Mode(false, continueAfterPadding), canonical, input)
         == if IsCanonical(canonical, Map(t, input)) then Some(Map(t, input)) else None
  {
    hide Run, StrictScan, StrictEnd, IsCanonical, Plain;
    PlainUnpadded(t, false, strictCanonical, input);
    LenientOfUnpadded(t, continueAfterPadding, input);
  }

  method ExecuteLenientCustom(backend: Backend, wide: bool, continueAfterPadding: bool, alt: Altchars, padded: bool,
                              input: seq<byte>, output: array<byte>)
    returns (r: ExecuteResult)
    requires alt.Altchars?
    modifies output
    ensures Served(old(output[..]), output[..],
                   LenientMeaning(LenientTable(alt), Mode(padded, continueAfterPadding), input),
                   DecodedLenUpperBound(LenientTable(alt), input), r)
  {
    hide LenientValue, Store, Decode, Run, StrictValues, LenientValues, IsStrictCustom, Plain;
    ghost var before, t := output[..], LenientTable(alt);
    ProbedNothing(t, input, before);
    if !padded {
      var d := NewStrictCustom(alt, padded);
      assert IsStrictCustom(d, alt, d.padded) by {
        StrictCustomPadded(d, alt, padded);
      }
      var attempt, _ := DecodeConfiguredStrictInto(backend, wide, ErrorWrites(ProbeAttempt), d, alt, input, output);
      StrictCustomMeaning(d, alt, padded, input);
      if attempt.Ok? {
        UnpaddedIsLenient(t, false, false, continueAfterPadding, input);
        LenientIsLenient(t, Mode(false, continueAfterPadding), input);
        return Done(attempt.written);
      }
    }
    hide Served;
    r := FinishLenient(backend, wide, alt, Mode(padded, continueAfterPadding), input, output, before, []);
  }

  lemma StrictCustomPadded(d: Decoder, alt: Altchars, padded: bool)
    requires IsStrictCustom(d, alt, padded)
    ensures IsStrictCustom(d, alt, d.padded)
  {
  }

  /** Lenient decoding is configured lenient decoding without the canonical demand. */
  lemma LenientIsLenient(t: Table, m: Mode, input: seq<byte>)
    ensures LenientMeaning(t, m, input) == Meaning(LenientValues(t, m, false, input))
  {
  }

  // ----- strict routes -----

  /** Strict meanings have the size their layout promises. */
  lemma StrictSize(t: Table, padded: bool, canonical: bool, input: seq<byte>)
    requires Plain(t) && t(EQUALS) == 64 && StrictValues(t, padded, canonical, input).Some?
    ensures |Decode(StrictValues(t, padded, canonical, input).value)| == LayoutSize(padded, input)
    ensures HasLayout(padded, input)
  {
    hide Decode, StrictScan, StrictEnd, IsCanonical;
    if padded {
      PlainPadded(t, canonical, input);
    } else {
      PlainUnpadded(t, false, canonical, input);
      forall k | 0 <= k < |input| ensures input[k] != EQUALS {
        var b := input[k];
        assert t(b) < 64;
      }
    }
  }

  /** Where table and alphabet have the same symbols, plain strict decoding and the strict scan are one. */
  lemma DirectExact(alt: Altchars, padded: bool, input: seq<byte>)
    requires alt == NoAltchars || alt == URLSAFE_ALTCHARS
    ensures StrictDirect(if alt == NoAltchars then Standard else Mixed, padded, input)
         == Meaning(StrictValues(LenientTable(alt), padded, false, input))
  {
    hide StrictValue, LenientValue, Decode, StrictScan, StrictEnd, Plain, Agrees;
    var a, t := if alt == NoAltchars then Standard else Mixed, LenientTable(alt);
    LenientAgrees(alt);
    var data := if padded then input[..|input| - TrailingPadding(input)] else input;
    if AllSymbols(t, data) {
      Lenient.LenientSymbolsAreValid(a, alt, data);
      AgreeingSymbols(a, t, data);
    }
    if StrictDirect(a, padded, input).Some? {
      DirectIsPlain(a, padded, t, false, input);
    }
    if padded {
      ValidSlice(a, input, 0, |data|);
      assert input[0..|data|] == data;
      PlainPadded(t, false, input);
    } else {
      PlainUnpadded(t, false, false, input);
    }
  }

  /** A strict attempt of a direct decoder, possibly behind one that failed. */
  method StrictStep(backend: Backend, wide: bool, a: DecodeAlphabet, padded: bool, input: seq<byte>,
                    output: array<byte>, ghost before: seq<byte>, ghost w0: seq<byte>)
    returns (v: Verdict, ghost w: seq<byte>)
    requires |w0| <= |before| && output[..] == Store(before, 0, w0)
    requires w0 != [] ==> HasLayout(padded, input) && |w0| <= LayoutSize(padded, input) <= |before|
    modifies output
    ensures v.Value? ==> StrictDirect(a, padded, input).Some? && v.written == |StrictDirect(a, padded, input).value|
    ensures v.Value? ==> v.written <= |before| && output[..] == Store(before, 0, StrictDirect(a, padded, input).value)
    ensures v.Failed? ==> v.required == LayoutSize(padded, input) && v.provided == |before| < v.required
    ensures v.Failed? ==> output[..] == before && HasLayout(padded, input)
    ensures v.Deferred? ==> StrictDirect(a, padded, input).None?
    ensures v.Deferred? ==> |w| <= |before| && output[..] == Store(before, 0, w)
    ensures v.Deferred? && w != [] ==> HasLayout(padded, input) && |w| <= LayoutSize(padded, input) <= |before|
  {
    hide StrictValue, Store, Wrote, Decode;
    ghost var was := output[..];
    var r;
    ghost var q, x;
    r, q, x := DirectInto(backend, wide, StrictAttempt, a, padded, input, output);
    v, w := Accept(StrictAttempt, r), [];
    StoreNothing(before, 0);
    match r {
      case Ok(n) =>
        DirectSize(a, padded, input);
        StoreCover(before, 0, w0, StrictDirect(a, padded, input).value);
      case OutputTooSmall(_, _) =>
      case InvalidInput => w := MergeStores(before, w0, x);
    }
  }

  lemma DirectSize(a: DecodeAlphabet, padded: bool, input: seq<byte>)
    requires StrictDirect(a, padded, input).Some?
    ensures |StrictDirect(a, padded, input).value| == LayoutSize(padded, input)
  {
    hide StrictValue, Decode;
  }

  /** Two stores from the same offset are one store of the longer length. */
  lemma MergeStores(m: seq<byte>, v: seq<byte>, x: seq<byte>) returns (w: seq<byte>)
    requires |v| <= |m| && |x| <= |m|
    ensures |w| == if |v| <= |x| then |x| else |v|
    ensures Store(Store(m, 0, v), 0, x) == Store(m, 0, w)
  {
    if |v| <= |x| {
      StoreCover(m, 0, v, x);
      w := x;
    } else {
      w := x + v[|x|..];
      assert Store(Store(m, 0, v), 0, x) == Store(m, 0, w);
    }
  }

  method ExecuteStrict(backend: Backend, wide: bool, alt: Altchars, padded: bool, urlsafe315: bool, input: seq<byte>,
                       output: array<byte>)
    returns (r: ExecuteResult)
    requires urlsafe315 ==> alt == URLSAFE_ALTCHARS
    modifies output
    ensures Served(old(output[..]), output[..], Meaning(StrictValues(LenientTable(alt), padded, false, input)),
                   DecodedLenUpperBound(LenientTable(alt), input), r)
  {
    hide LenientValue, Store, Decode, StrictDirect, StrictValues, IsStrictCustom, HasLayout, LayoutSize, Plain;
    ghost var before, t := output[..], LenientTable(alt);
    if alt != NoAltchars && alt != URLSAFE_ALTCHARS {
      var d := NewStrictCustom(alt, padded);
      assert IsStrictCustom(d, alt, d.padded) by {
        StrictCustomPadded(d, alt, padded);
      }
      var attempt;
      ghost var x;
      attempt, x := DecodeConfiguredStrictInto(backend, wide, ErrorWrites(StrictAttempt), d, alt, input, output);
      StrictCustomMeaning(d, alt, padded, input);
      SameBound(d.table, t, input);
      if attempt.InvalidInput? {
        SparesBehind(before, x, DecodedLenUpperBound(t, input));
      }
      return Finally(attempt);
    }
    LenientAgrees(alt);
    StoreNothing(before, 0);
    ghost var w: seq<byte> := [];
    var v := Deferred;
    if StrictValues(t, padded, false, input).Some? {
      StrictSize(t, padded, false, input);
    }
    if urlsafe315 {
      v, w := StrictStep(backend, wide, UrlSafe, padded, input, output, before, w);
      if v.Value? {
        DirectIsPlain(UrlSafe, padded, t, false, input);
        CanonicalTrue(t, padded, input);
      }
    }
    if v.Deferred? {
      DirectExact(alt, padded, input);
      var a := if alt == NoAltchars then Standard else Mixed;
      v, w := StrictStep(backend, wide, a, padded, input, output, before, w);
    }
    if v.Failed? {
      LayoutBound(t, padded, input);
    }
    if v.Deferred? {
      if w != [] {
        LayoutBound(t, padded, input);
      }
      SparesBehind(before, w, DecodedLenUpperBound(t, input));
    }
    r := match v case Value(n) => Done(n) case Deferred => NoNative case Failed(x, y) => CapacityError(x, y);
  }

  /** A layout promises no more than the upper bound. */
  lemma LayoutBound(t: Table, padded: bool, input: seq<byte>)
    requires HasLayout(padded, input)
    ensures LayoutSize(padded, input) <= DecodedLenUpperBound(t, input)
  {
    DecodedSymbolLenMonotone(|input| - TrailingPadding(input), |input|);
  }

  lemma SameBound(t: Table, u: Table, input: seq<byte>)
    requires SameTable(t, u)
    ensures DecodedLenUpperBound(t, input) == DecodedLenUpperBound(u, input)
  {
    assert t(EQUALS) == u(EQUALS);
  }

  lemma CanonicalTrue(t: Table, padded: bool, input: seq<byte>)
    ensures IsCanonical(false, Map(t, if padded then input[..|input| - TrailingPadding(input)] else input))
  {
  }

  // ----- configured routes -----

  /** Whether the last symbol of unpadded standard data has no stray bits. */
  function CanonicalPadding(data: seq<byte>): bool {
    if data == [] then true
    else
      var value := StrictValue(Standard, data[|data| - 1]);
      if |data| % 4 == 2 then value & 0x0f == 0 else if |data| % 4 == 3 then value & 0x03 == 0 else true
  }

  /** The check in front of the standard shortcut. A last byte that is no symbol is left to the probe. */
  function CanonicalStandard(canonical: bool, input: seq<byte>): bool {
    var data := input[..|input| - TrailingPadding(input)];
    !canonical || data == [] || StrictValue(Standard, data[|data| - 1]) >= 64 || CanonicalPadding(data)
  }

  /** The check in front of the unpadded shortcut, from the last byte alone. */
  function CanonicalUnpaddedInput(input: seq<byte>, alt: Altchars): bool {
    var remainder := |input| % 4;
    if remainder != 2 && remainder != 3 then remainder == 0
    else
      var last := input[|input| - 1];
      var value := if alt.Altchars? && last == alt.slash then 63
                   else if alt.Altchars? && last == alt.plus then 62
                   else StrictValue(Standard, last);
      value < 64 && (if remainder == 2 then value & 0x0f == 0 else value & 0x03 == 0)
  }

  lemma CanonicalStandardExact(t: Table, canonical: bool, input: seq<byte>)
    requires Agrees(Standard, t)
    requires var data := input[..|input| - TrailingPadding(input)];
             AllValid(Standard, data) && |data| % 4 != 1
    ensures CanonicalStandard(canonical, input)
       <==> IsCanonical(canonical, Map(t, input[..|input| - TrailingPadding(input)]))
  {
    hide StrictValue;
    var data := input[..|input| - TrailingPadding(input)];
    if data != [] {
      var b := data[|data| - 1];
      assert StrictValue(Standard, b) < 64 && t(b) == StrictValue(Standard, b);
    }
  }

  lemma CanonicalUnpaddedExact(input: seq<byte>, alt: Altchars)
    requires AllSymbols(LenientTable(alt), input) && |input| % 4 != 1
    ensures CanonicalUnpaddedInput(input, alt) <==> IsCanonical(true, Map(LenientTable(alt), input))
  {
    hide StrictValue, LenientValue;
    if |input| > 0 {
      var b := input[|input| - 1];
      assert LenientTable(alt)(b) < 64;
      LenientEntry(alt, b);
    }
  }

  lemma LenientEntry(alt: Altchars, b: byte)
    requires LenientValue(alt, b) < 64
    ensures LenientValue(alt, b) == if alt.Altchars? && b == alt.slash then 63
                                    else if alt.Altchars? && b == alt.plus then 62 else StrictValue(Standard, b)
  {
  }

  /** A policy without anything to ignore: its table is the lenient table of its altchars. */
  predicate IgnoresNothing(p: Policy) {
    p.alphabet.None? && (p.ignored.None? || (p.altchars == NoAltchars && p.ignored.value == {}))
  }

  lemma IgnoresNothingTable(p: Policy)
    requires IgnoresNothing(p)
    ensures SameTable(PolicyTable(p), LenientTable(p.altchars))
  {
    forall b: byte ensures ConfiguredValue(p, b) == LenientValue(p.altchars, b) {
      PlainEntry(p, b);
    }
  }

  lemma PlainEntry(p: Policy, b: byte)
    requires IgnoresNothing(p)
    ensures ConfiguredValue(p, b) == LenientValue(p.altchars, b)
  {
  }

  /** An accepting shortcut is the policy's meaning. */
  lemma StandardShortcut(p: Policy, continueAfterPadding: bool, input: seq<byte>)
    requires IgnoresNothing(p) && p.altchars == NoAltchars && p.padded && StrictPadded(Standard, input).Some?
    ensures PolicyMeaning(p, continueAfterPadding, input)
         == if CanonicalStandard(p.canonical, input) then StrictPadded(Standard, input) else None
  {
    hide StrictValue, LenientValue, Decode, Decoded, StrictValues, LenientValues, CanonicalStandard, IsCanonical,
         Agrees, Plain;
    var t := LenientTable(NoAltchars);
    IgnoresNothingTable(p);
    LenientAgrees(NoAltchars);
    SameValues(PolicyTable(p), t, p.strict, p.padded, p.canonical, continueAfterPadding, input);
    DirectIsPlain(Standard, true, t, p.canonical, input);
    DirectIsLenient(Standard, true, t, Mode(true, continueAfterPadding), p.canonical, input);
    var n := |input| - TrailingPadding(input);
    ValidSlice(Standard, input, 0, n);
    assert input[0..n] == input[..n];
    CanonicalStandardExact(t, p.canonical, input);
  }

  lemma UnpaddedShortcut(p: Policy, continueAfterPadding: bool, input: seq<byte>)
    requires IgnoresNothing(p) && p.canonical && !p.padded && CanonicalUnpaddedInput(input, p.altchars)
    requires StrictValues(LenientTable(p.altchars), false, false, input).Some?
    ensures PolicyMeaning(p, continueAfterPadding, input)
         == Meaning(StrictValues(LenientTable(p.altchars), false, false, input))
  {
    hide StrictValue, LenientValue, Decode, StrictScan, StrictEnd, Run, CanonicalUnpaddedInput, IsCanonical;
    var t := LenientTable(p.altchars);
    LenientPlain(p.altchars);
    IgnoresNothingTable(p);
    SameValues(PolicyTable(p), t, p.strict, p.padded, p.canonical, continueAfterPadding, input);
    UnpaddedIsLenient(t, false, true, continueAfterPadding, input);
    PlainUnpadded(t, false, false, input);
    PlainUnpadded(t, false, true, input);
    CanonicalUnpaddedExact(input, p.altchars);
  }

  lemma LenientPlain(alt: Altchars)
    ensures Plain(LenientTable(alt)) && LenientTable(alt)(EQUALS) != IGNORED_CONFIGURED_VALUE
  {
  }

  /** The configured route: an optional shortcut probe, then the two-pass configured decoder. */
  method ExecuteConfigured(backend: Backend, wide: bool, continueAfterPadding: bool, p: Policy, shortcut: Shortcut,
                           input: seq<byte>, output: array<byte>)
    returns (r: ExecuteResult)
    requires shortcut != NoShortcut ==> IgnoresNothing(p)
    requires shortcut == StandardStrict ==> p.altchars == NoAltchars && p.padded
    requires shortcut == CanonicalUnpadded ==> p.canonical && !p.padded
    modifies output
    ensures Served(old(output[..]), output[..], PolicyMeaning(p, continueAfterPadding, input),
                   DecodedLenUpperBound(PolicyTable(p), input), r)
  {
    hide StrictValue, LenientValue, ConfiguredValue, Store, Decode, Probed, StrictPadded, CanonicalStandard,
         CanonicalUnpaddedInput, Consistent, ConfiguredValues;
    ghost var before, t, w: seq<byte> := output[..], PolicyTable(p), [];
    ProbedNothing(t, input, before);
    if shortcut == StandardStrict && CanonicalStandard(p.canonical, input) {
      PolicyAgrees(p);
      var v;
      v, w := ProbeDirect(backend, wide, Standard, true, input, output, t, before, []);
      if v.Some? {
        StandardShortcut(p, continueAfterPadding, input);
        return Done(v.value);
      }
    }
    if shortcut == CanonicalUnpadded && CanonicalUnpaddedInput(input, p.altchars) {
      var v;
      v, w := ProbeUnpadded(backend, wide, continueAfterPadding, p, input, output);
      if v.Some? {
        return Done(v.value);
      }
    }
    r := FinishConfigured(backend, wide, continueAfterPadding, p, input, output, before, w);
  }

  lemma PolicyAgrees(p: Policy)
    requires IgnoresNothing(p) && (p.altchars == NoAltchars || p.altchars == URLSAFE_ALTCHARS)
    ensures Agrees(if p.altchars == NoAltchars then Standard else Mixed, PolicyTable(p))
  {
    hide StrictValue, LenientValue, ConfiguredValue;
    var a := if p.altchars == NoAltchars then Standard else Mixed;
    LenientAgrees(p.altchars);
    IgnoresNothingTable(p);
    forall b: byte ensures StrictValue(a, b) < 64 ==> PolicyTable(p)(b) == StrictValue(a, b) {
      assert PolicyTable(p)(b) == LenientTable(p.altchars)(b);
    }
    assert PolicyTable(p)(EQUALS) == LenientTable(p.altchars)(EQUALS);
  }

  /** The unpadded probe: the direct kernels for known altchars, else the configured strict decoder. */
  method ProbeUnpadded(backend: Backend, wide: bool, continueAfterPadding: bool, p: Policy, input: seq<byte>,
                       output: array<byte>)
    returns (v: Option<nat>, ghost w: seq<byte>)
    requires IgnoresNothing(p) && p.canonical && !p.padded && CanonicalUnpaddedInput(input, p.altchars)
    modifies output
    ensures v.Some? ==> Served(old(output[..]), output[..], PolicyMeaning(p, continueAfterPadding, input),
                               DecodedLenUpperBound(PolicyTable(p), input), Done(v.value))
    ensures v.None? ==> Probed(PolicyTable(p), input, old(output[..]), output[..], w)
    ensures v.None? ==> PolicyTable(p)(EQUALS) >= 64 || w == []
  {
    hide StrictValue, LenientValue, ConfiguredValue, Store, Decode, Probed, CanonicalUnpaddedInput, ConfiguredValues,
         StrictValues, IsStrictCustom, StrictDirect, Plain, Agrees, IgnoresNothing;
    ghost var t := PolicyTable(p);
    w := [];
    ProbedNothing(t, input, output[..]);
    if p.altchars == NoAltchars || p.altchars == URLSAFE_ALTCHARS {
      PolicyAgrees(p);
      AgreesOnEquals(if p.altchars == NoAltchars then Standard else Mixed, t);
      DirectExact(p.altchars, false, input);
      v, w := ProbeDirect(backend, wide, if p.altchars == NoAltchars then Standard else Mixed, false, input, output, t,
                          output[..], []);
    } else {
      var d := NewStrictCustom(p.altchars, false);
      assert IsStrictCustom(d, p.altchars, d.padded) by {
        StrictCustomPadded(d, p.altchars, false);
      }
      var policy := ErrorWrites(ProbeAttempt);
      var attempt, _ := DecodeConfiguredStrictInto(backend, wide, policy, d, p.altchars, input, output);
      StrictCustomMeaning(d, p.altchars, false, input);
      v := if attempt.Ok? then Some(attempt.written) else None;
    }
    if v.Some? {
      UnpaddedShortcut(p, continueAfterPadding, input);
    }
  }

  method FinishConfigured(backend: Backend, wide: bool, continueAfterPadding: bool, p: Policy, input: seq<byte>,
                          output: array<byte>, ghost before: seq<byte>, ghost w: seq<byte>)
    returns (r: ExecuteResult)
    requires Probed(PolicyTable(p), input, before, output[..], w) && (PolicyTable(p)(EQUALS) >= 64 || w == [])
    modifies output
    ensures Served(before, output[..], PolicyMeaning(p, continueAfterPadding, input),
                   DecodedLenUpperBound(PolicyTable(p), input), r)
  {
    hide ConfiguredValue, Store, Decode, Probed, Consistent, ConfiguredValues, Served;
    ghost var was := output[..];
    var d := NewConfiguredDecoder(p);
    SameValues(d.table, PolicyTable(p), p.strict, p.padded, p.canonical, continueAfterPadding, input);
    var last := DecodeConfiguredSliceInto(backend, wide, d, input, output, continueAfterPadding);
    StoreNothing(was, 0);
    LastAfterProbes(PolicyTable(p), p.strict, p.padded, p.canonical, continueAfterPadding, input, before, was,
                    output[..], w, last, []);
    r := Finally(last);
  }

  // ----- every policy -----

  /** Decoding into a reusable buffer: whichever route a policy takes, the buffer ends with the policy's
      meaning, and a full custom alphabet only ever comes with an ignore list. */
  method Execute(backend: Backend, wide: bool, semantics: Semantics, p: Policy, emptyExactIgnorechars: bool,
                 input: seq<byte>, output: array<byte>)
    returns (r: ExecuteResult)
    requires p.alphabet.Some? ==> p.ignored.Some?
    requires emptyExactIgnorechars ==> p.ignored == Some({})
    modifies output
    ensures Served(old(output[..]), output[..], PolicyMeaning(p, semantics.continuesAfterPadding, input),
                   DecodedLenUpperBound(PolicyTable(p), input), r)
  {
    hide LenientValue, ConfiguredValue, ConfiguredValues, Store, Decode, Served, Run, StrictScan;
    var continues := semantics.continuesAfterPadding;
    match SelectRoute(p, emptyExactIgnorechars, semantics) {
      case ConfiguredRoute(shortcut) =>
        r := ExecuteConfigured(backend, wide, continues, p, shortcut, input, output);
      case StrictRoute(urlsafe315) =>
        PlainRoutes(p, continues, input);
        r := ExecuteStrict(backend, wide, p.altchars, p.padded, urlsafe315, input, output);
      case LenientDirect(urlsafe315) =>
        PlainRoutes(p, continues, input);
        r := ExecuteLenientDirect(backend, wide, continues, p.altchars, p.padded, urlsafe315, input, output);
      case LenientCustom =>
        PlainRoutes(p, continues, input);
        r := ExecuteLenientCustom(backend, wide, continues, p.altchars, p.padded, input, output);
    }
  }

  /** Without ignore list and canonical demand, a policy means plain strict or plain lenient decoding. */
  lemma PlainRoutes(p: Policy, continueAfterPadding: bool, input: seq<byte>)
    requires p.alphabet.None? && p.ignored.None? && !p.canonical
    ensures PolicyMeaning(p, continueAfterPadding, input)
         == if p.strict then Meaning(StrictValues(LenientTable(p.altchars), p.padded, false, input))
            else LenientMeaning(LenientTable(p.altchars), Mode(p.padded, continueAfterPadding), input)
    ensures DecodedLenUpperBound(PolicyTable(p), input) == DecodedLenUpperBound(LenientTable(p.altchars), input)
  {
    hide LenientValue, ConfiguredValue, Decode, Run, StrictScan, StrictEnd;
    var t := LenientTable(p.altchars);
    IgnoresNothingTable(p);
    SameBound(PolicyTable(p), t, input);
    LenientPlain(p.altchars);
    SameValues(PolicyTable(p), t, p.strict, p.padded, p.canonical, continueAfterPadding, input);
  }
}
