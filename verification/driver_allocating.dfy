/** The same driver for decoding into a fresh object: other decoders behind the same attempt order, and
the same meaning. */
module AllocatingDriver {
  import opened Bytes
  import opened Alphabet
  import opened Quantum
  import opened Strict
  import opened StrictApi
  import opened LenientSpec
  import opened LenientApi
  import opened ConfiguredSpec
  import opened ConfiguredTable
  import opened ConfiguredPlain
  import opened AllocatingConfigured
  import ConfiguredSpace
  import opened DriverSpec
  import opened Driver

  /** A noncanonical but otherwise valid standard input has an error of its own. */
  datatype AllocatingResult = Returned(bytes: seq<byte>) | NoNativeValue | NonzeroPaddingBits

  predicate Returns(meaning: Option<seq<byte>>, r: AllocatingResult) {
    if meaning.Some? then r == Returned(meaning.value) else !r.Returned?
  }

  /** A direct strict attempt; its object has exactly the layout's size, and all stores are inside. */
  method NativeDirect(backend: Backend, wide: bool, a: DecodeAlphabet, padded: bool, input: seq<byte>)
    returns (r: Option<seq<byte>>, ghost inside: bool)
    ensures r == StrictDirect(a, padded, input) && inside
  {
    if padded {
      r, inside := DecodeStrictAllocating(backend, wide, a, input);
    } else {
      r, inside := DecodeUnpaddedAllocating(backend, wide, a, input);
    }
  }

  /** The strict decoder of altchars that have no kernels of their own exceeds its allocation on Neon. */
  ghost predicate StrictOverruns(alt: Altchars, padded: bool, input: seq<byte>) {
    alt != NoAltchars && alt != URLSAFE_ALTCHARS && PolicyOverruns(StrictPolicy(alt, padded), input)
  }

  /** The strict decoder of a policy's altchars. */
  method NativeStrict(backend: Backend, wide: bool, alt: Altchars, padded: bool, input: seq<byte>)
    returns (r: Option<seq<byte>>, ghost inside: bool)
    ensures r == Meaning(StrictValues(LenientTable(alt), padded, false, input))
    ensures inside <==> !(backend == Neon && StrictOverruns(alt, padded, input))
    ensures r.Some? ==> inside
  {
    hide StrictValues, Decode, StrictDirect, LenientValue, Consistent, Prepared, ConfiguredSpace.Overruns, Sized,
         PolicyOverruns;
    if alt == NoAltchars || alt == URLSAFE_ALTCHARS {
      DirectExact(alt, padded, input);
      r, inside := NativeDirect(backend, wide, if alt == NoAltchars then Standard else Mixed, padded, input);
    } else {
      var d := NewStrictCustom(alt, padded);
      StrictCustomMeaning(d, alt, padded, input);
      PolicyDecides(StrictPolicy(alt, padded), d, input);
      r, inside := DecodeConfigured(backend, wide, d, input, false);
    }
  }

  method AllocateStrict(backend: Backend, wide: bool, alt: Altchars, padded: bool, urlsafe315: bool, input: seq<byte>)
    returns (r: AllocatingResult, ghost inside: bool)
    requires urlsafe315 ==> alt == URLSAFE_ALTCHARS
    ensures Returns(Meaning(StrictValues(LenientTable(alt), padded, false, input)), r)
    ensures !r.NonzeroPaddingBits?
    ensures inside <==> !(backend == Neon && StrictOverruns(alt, padded, input))
  {
    hide StrictValues, Decode, StrictDirect, LenientValue, Agrees, Plain, PolicyOverruns;
    inside := true;
    ghost var within;
    if urlsafe315 {
      var probe;
      probe, within := NativeDirect(backend, wide, UrlSafe, padded, input);
      inside := inside && within;
      if probe.Some? {
        LenientAgrees(alt);
        DirectIsPlain(UrlSafe, padded, LenientTable(alt), false, input);
        return Returned(probe.value), inside;
      }
    }
    var v;
    v, within := NativeStrict(backend, wide, alt, padded, input);
    inside := inside && within;
    r := if v.Some? then Returned(v.value) else NoNativeValue;
  }

  method AllocateLenient(backend: Backend, wide: bool, alt: Altchars, m: Mode, direct: bool, urlsafe315: bool,
                         input: seq<byte>)
    returns (r: AllocatingResult, ghost inside: bool)
    requires direct ==> alt == NoAltchars || alt == URLSAFE_ALTCHARS
    requires urlsafe315 ==> alt == URLSAFE_ALTCHARS
    ensures Returns(LenientMeaning(LenientTable(alt), m, input), r)
    ensures !r.NonzeroPaddingBits?
    ensures inside <==> !(backend == Neon && !m.padded && StrictOverruns(alt, false, input))
  {
    hide StrictValues, LenientValues, Decode, StrictDirect, LenientValue, Agrees, Plain, Run, IsLenientSymbol,
         PolicyOverruns;
    inside := true;
    ghost var within;
    ghost var t := LenientTable(alt);
    LenientIsLenient(t, m, input);
    var probe: Option<seq<byte>> := None;
    if urlsafe315 {
      LenientAgrees(alt);
      probe, within := NativeDirect(backend, wide, UrlSafe, true, input);
      inside := inside && within;
      if probe.Some? {
        DirectIsLenient(UrlSafe, true, t, m, false, input);
        return Returned(probe.value), inside;
      }
      if !m.padded {
        probe, within := NativeDirect(backend, wide, UrlSafe, false, input);
        inside := inside && within;
        if probe.Some? {
          DirectIsLenient(UrlSafe, false, t, m, false, input);
          return Returned(probe.value), inside;
        }
      }
    }
    if direct && |input| % 4 == 0 && (|input| < DETACH_THRESHOLD || !HasEdgeNoise(input, alt)) {
      LenientAgrees(alt);
      var a := if alt == NoAltchars then Standard else Mixed;
      probe, within := NativeDirect(backend, wide, a, true, input);
      inside := inside && within;
      if probe.Some? {
        DirectIsLenient(a, true, t, m, false, input);
        return Returned(probe.value), inside;
      }
    }
    if !m.padded {
      probe, within := NativeStrict(backend, wide, alt, false, input);
      inside := inside && within;
      if probe.Some? {
        LenientPlain(alt);
        UnpaddedIsLenient(t, false, false, m.continueAfterPadding, input);
        return Returned(probe.value), inside;
      }
    }
    var v;
    v, within := TryDecodeLenient(backend, wide, alt, m, input);
    inside := inside && within;
    r := if v.Some? then Returned(v.value) else NoNativeValue;
  }

  /** A shortcut's strict attempt or the configured decoder itself. */
  ghost predicate ConfiguredOverruns(p: Policy, shortcut: Shortcut, input: seq<byte>) {
    || PolicyOverruns(p, input)
    || (shortcut == CanonicalUnpadded && CanonicalUnpaddedInput(input, p.altchars) &&
        StrictOverruns(p.altchars, false, input))
  }

  method AllocateConfigured(backend: Backend, wide: bool, continueAfterPadding: bool, p: Policy, shortcut: Shortcut,
                            input: seq<byte>)
    returns (r: AllocatingResult, ghost inside: bool)
    requires shortcut != NoShortcut ==> IgnoresNothing(p)
    requires shortcut == StandardStrict ==> p.altchars == NoAltchars && p.padded
    requires shortcut == CanonicalUnpadded ==> p.canonical && !p.padded
    ensures Returns(PolicyMeaning(p, continueAfterPadding, input), r)
    ensures r.NonzeroPaddingBits? <==>
              && shortcut == StandardStrict && StrictPadded(Standard, input).Some?
              && PolicyMeaning(p, continueAfterPadding, input).None?
    ensures inside <==> !(backend == Neon && ConfiguredOverruns(p, shortcut, input))
  {
    hide StrictValues, Decode, StrictPadded, LenientValue, ConfiguredValue, ConfiguredValues, CanonicalStandard,
         CanonicalUnpaddedInput, Consistent, Prepared, ConfiguredSpace.Overruns, Sized, PolicyOverruns, StrictOverruns;
    PolicyInside(p, continueAfterPadding, input);
    inside := true;
    ghost var within;
    if shortcut == StandardStrict {
      var canonical := CanonicalStandard(p.canonical, input);
      var probe;
      probe, within := NativeDirect(backend, wide, Standard, true, input);
      inside := inside && within;
      if probe.Some? {
        StandardShortcut(p, continueAfterPadding, input);
        return if canonical then Returned(probe.value) else NonzeroPaddingBits, inside;
      }
    }
    if shortcut == CanonicalUnpadded && CanonicalUnpaddedInput(input, p.altchars) {
      var probe;
      probe, within := NativeStrict(backend, wide, p.altchars, false, input);
      inside := inside && within;
      if probe.Some? {
        UnpaddedShortcut(p, continueAfterPadding, input);
        return Returned(probe.value), inside;
      }
    }
    var d := NewConfiguredDecoder(p);
    SameValues(d.table, PolicyTable(p), p.strict, p.padded, p.canonical, continueAfterPadding, input);
    PolicyDecides(p, d, input);
    var v;
    v, within := DecodeConfigured(backend, wide, d, input, continueAfterPadding);
    inside := inside && within;
    r := if v.Some? then Returned(v.value) else NoNativeValue;
  }

  /** The decodes of a policy that exceed an allocation on Neon. */
  ghost predicate RouteOverruns(p: Policy, route: Route, input: seq<byte>) {
    match route
    case ConfiguredRoute(shortcut) => ConfiguredOverruns(p, shortcut, input)
    case StrictRoute(_) => StrictOverruns(p.altchars, p.padded, input)
    case LenientDirect(_) => false
    case LenientCustom => !p.padded && StrictOverruns(p.altchars, false, input)
  }

  /** Every policy, into a fresh object. All stores of all attempts are inside their allocations, with exactly one
      exception. */
  method ExecuteAllocating(backend: Backend, wide: bool, semantics: Semantics, p: Policy, emptyExactIgnorechars: bool,
                           input: seq<byte>)
    returns (r: AllocatingResult, ghost inside: bool)
    requires p.alphabet.Some? ==> p.ignored.Some?
    requires emptyExactIgnorechars ==> p.ignored == Some({})
    ensures Returns(PolicyMeaning(p, semantics.continuesAfterPadding, input), r)
    ensures r.NonzeroPaddingBits? <==>
              && SelectRoute(p, emptyExactIgnorechars, semantics) == ConfiguredRoute(StandardStrict)
              && StrictPadded(Standard, input).Some?
              && PolicyMeaning(p, semantics.continuesAfterPadding, input).None?
    ensures inside <==> !(backend == Neon && RouteOverruns(p, SelectRoute(p, emptyExactIgnorechars, semantics), input))
  {
    hide LenientValue, ConfiguredValue, ConfiguredValues, Decode, Run, StrictScan, StrictValues, PolicyOverruns;
    var continues := semantics.continuesAfterPadding;
    var m := Mode(p.padded, continues);
    match SelectRoute(p, emptyExactIgnorechars, semantics) {
      case ConfiguredRoute(shortcut) =>
        r, inside := AllocateConfigured(backend, wide, continues, p, shortcut, input);
      case StrictRoute(urlsafe315) =>
        PlainRoutes(p, continues, input);
        r, inside := AllocateStrict(backend, wide, p.altchars, p.padded, urlsafe315, input);
      case LenientDirect(urlsafe315) =>
        PlainRoutes(p, continues, input);
        r, inside := AllocateLenient(backend, wide, p.altchars, m, true, urlsafe315, input);
      case LenientCustom =>
        PlainRoutes(p, continues, input);
        r, inside := AllocateLenient(backend, wide, p.altchars, m, false, false, input);
    }
  }
}
