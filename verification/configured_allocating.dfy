/** Configured decoding into a fresh allocation: its size is estimated from the input, and here is which scans stay
inside it. */
module AllocatingConfigured {
  import opened Bytes
  import opened Alphabet
  import opened Quantum
  import opened Vectors
  import opened DecodeNeon
  import opened Strict
  import opened LenientSpec
  import opened LenientApi
  import opened Staging
  import opened ConfiguredSpec
  import opened ConfiguredTable
  import opened ConfiguredSpecials
  import opened ConfiguredSpace
  import opened Configured
  import opened DriverSpec

  lemma {:induction false} StrictShift(t: Table, padded: bool, input: seq<byte>, k: nat, i: nat, values: seq<byte>,
                                       padding: nat)
    requires k <= |input| && i <= |input| - k
    ensures StrictRun(t, padded, input[k..], i, values, padding) == StrictRun(t, padded, input, k + i, values, padding)
    decreases |input| - k - i
  {
    if i < |input| - k {
      if t(input[k + i]) < 64 {
        StrictShift(t, padded, input, k, i + 1, values + [t(input[k + i])], 0);
      } else if t(input[k + i]) == IGNORED_CONFIGURED_VALUE {
        StrictShift(t, padded, input, k, i + 1, values, padding);
      } else {
        StrictShift(t, padded, input, k, i + 1, values, padding + 1);
      }
    }
  }

  lemma {:induction false} CountsShift(t: Table, input: seq<byte>, k: nat, i: nat, pads: nat)
    requires k <= |input| && i <= |input| - k
    ensures SymbolValues(t, input[k..], i) == SymbolValues(t, input, k + i)
    ensures FinalPads(t, input[k..], i, pads) == FinalPads(t, input, k + i, pads)
    decreases |input| - k - i
  {
    if i < |input| - k {
      var b := input[k + i];
      CountsShift(t, input, k, i + 1, if t(b) < 64 then 0 else if b == EQUALS then pads + 1 else pads);
    }
  }

  /** An ignored byte in front changes nothing. */
  lemma LeadingIgnored(d: Decoder, continueAfterPadding: bool, input: seq<byte>)
    requires |input| > 0 && d.table(input[0]) == IGNORED_CONFIGURED_VALUE && input[0] != EQUALS
    ensures Accepted(d, continueAfterPadding, input[1..]) == Accepted(d, continueAfterPadding, input)
  {
    hide IsCanonical, StrictEnd, ExpectedPadding;
    var t := d.table;
    LeadingDiscarded(t, Mode(d.padded, continueAfterPadding), input, 1);
    StrictShift(t, d.padded, input, 1, 0, [], 0);
    StrictShift(t, false, input, 1, 0, [], 0);
    CountsShift(t, input, 1, 0, 0);
  }

  // ----- the space of a scan -----

  /** Unless the whole quartets end with a '=' that is handed over as a symbol, the estimate has room for the whole
      quartets of everything a scan offers. */
  lemma OfferedFits(d: Decoder, continueAfterPadding: bool, input: seq<byte>)
    requires Consistent(d)
    ensures !FinalEquals(d, input) ==>
              Offered(d, continueAfterPadding, input) / 4 * 3 <= CapacityForInput(d.table, input)
    ensures DecodedSymbolLen(Offered(d, continueAfterPadding, input)) <= CapacityForInput(d.table, input) + 2
  {
    hide Offered, TrailingPadding;
    OfferedIsBounded(d, continueAfterPadding, input);
    DecodedSymbolLenMonotone(Offered(d, continueAfterPadding, input), OfferedBound(d, input));
    BoundFits(d, input);
  }

  lemma BoundFits(d: Decoder, input: seq<byte>)
    ensures !FinalEquals(d, input) ==> OfferedBound(d, input) / 4 * 3 <= CapacityForInput(d.table, input)
    ensures DecodedSymbolLen(OfferedBound(d, input)) <= CapacityForInput(d.table, input) + 2
  {
  }

  /** An input whose final '=' is handed over as a symbol is not accepted. */
  lemma FinalEqualsRejected(d: Decoder, continueAfterPadding: bool, input: seq<byte>)
    requires FinalEquals(d, input) && forall b: byte :: d.table(b) <= 65
    ensures Accepted(d, continueAfterPadding, input).None?
  {
    hide Kept, StrictRun;
    var n := |input|;
    DataIsAll(d, input);
    KeptRun(d.table, input, n - 1, n);
    var k := Kept(d.table, input, n);
    assert k[|k| - 1] == input[n - 1];
    StrictData(d.table, d.padded, input, n);
  }

  /** What a failing scan leaves fits the estimate, but for the inputs of `Overruns` on Neon. */
  lemma LeftoversFit(backend: Backend, d: Decoder, continueAfterPadding: bool, input: seq<byte>, w: seq<byte>)
    requires Consistent(d) && Leftovers(backend, d, continueAfterPadding, input, w)
    ensures |w| <= CapacityForInput(d.table, input) <==> !(backend == Neon && Overruns(d, input))
  {
    hide Offered, CapacityForInput, Spilled, Consistent;
    OfferedFits(d, continueAfterPadding, input);
    if FinalEquals(d, input) {
      if backend == Neon {
        OverrunIsExact(d, input, w);
      } else {
        ValidPrefixFits(backend, d, input, w);
      }
    }
  }

  /** One checked pass into memory whose first `CapacityForInput` bytes are the allocation; two more bytes stand for
      what lies behind it. The scan stays inside the allocation with exactly one exception. */
  method DecodeConfiguredAt(backend: Backend, wide: bool, d: Decoder, input: seq<byte>, memory: array<byte>,
                            continueAfterPadding: bool)
    returns (r: Option<nat>, ghost w: seq<byte>)
    requires Consistent(d) && memory.Length >= CapacityForInput(d.table, input) + 2
    modifies memory
    ensures r.Some? <==> Accepted(d, continueAfterPadding, input).Some?
    ensures r.Some? ==> w == Decode(Accepted(d, continueAfterPadding, input).value)
    ensures r.Some? ==> r.value == |w| <= CapacityForInput(d.table, input)
    ensures |w| <= memory.Length && memory[..] == Store(old(memory[..]), 0, w)
    ensures |w| <= CapacityForInput(d.table, input) <==> !(backend == Neon && Overruns(d, input))
  {
    hide Decode, Store, Consistent, ConfiguredValues, Offered, DecodedSymbolLen, CapacityForInput, Overruns, Leftovers;
    OfferedFits(d, continueAfterPadding, input);
    r, w := DecodeInto(backend, wide, d, true, input, memory, continueAfterPadding);
    if r.Some? {
      AcceptedInside(d, continueAfterPadding, input);
    } else {
      LeftoversFit(backend, d, continueAfterPadding, input, w);
    }
  }

  lemma AcceptedInside(d: Decoder, continueAfterPadding: bool, input: seq<byte>)
    requires Consistent(d) && Accepted(d, continueAfterPadding, input).Some?
    ensures |Decode(Accepted(d, continueAfterPadding, input).value)| <= CapacityForInput(d.table, input)
    ensures !Overruns(d, input)
  {
    hide ConfiguredValues, Decode, CapacityForInput;
    AcceptedFits(d.table, d.strict, d.padded, d.canonical, continueAfterPadding, input);
    if FinalEquals(d, input) {
      FinalEqualsRejected(d, continueAfterPadding, input);
    }
  }

  /** The part of an input that is sized and scanned: a long one loses its leading ignored bytes. */
  function Sized(d: Decoder, input: seq<byte>): (rest: seq<byte>) {
    if |input| < DETACH_THRESHOLD then input else WithoutIgnored(d.table, input)
  }

  function WithoutIgnored(t: Table, input: seq<byte>): (rest: seq<byte>) {
    if |input| > 0 && input[0] != EQUALS && t(input[0]) == IGNORED_CONFIGURED_VALUE then WithoutIgnored(t, input[1..])
    else input
  }

  lemma {:induction false} WithoutIgnoredAccepts(d: Decoder, continueAfterPadding: bool, input: seq<byte>)
    ensures Accepted(d, continueAfterPadding, WithoutIgnored(d.table, input))
         == Accepted(d, continueAfterPadding, input)
  {
    hide ConfiguredValues;
    if |input| > 0 && input[0] != EQUALS && d.table(input[0]) == IGNORED_CONFIGURED_VALUE {
      LeadingIgnored(d, continueAfterPadding, input);
      WithoutIgnoredAccepts(d, continueAfterPadding, input[1..]);
    }
  }

  /** Decoding into a fresh allocation: leading ignored bytes of a long input are skipped before sizing. Ghostly it
      says whether all stores, on failure too, were inside. */
  method DecodeConfigured(backend: Backend, wide: bool, d: Decoder, input: seq<byte>, continueAfterPadding: bool)
    returns (r: Option<seq<byte>>, ghost inside: bool)
    requires Consistent(d)
    ensures r == Meaning(Accepted(d, continueAfterPadding, input))
    ensures inside <==> !(backend == Neon && Overruns(d, Sized(d, input)))
    ensures r.Some? ==> inside
  {
    hide Decode, Consistent, ConfiguredValues, Store, CapacityForInput, Overruns;
    var start := 0;
    assert input[0..] == input;
    WithoutIgnoredAccepts(d, continueAfterPadding, input);
    if |input| >= DETACH_THRESHOLD {
      while start < |input| && input[start] != EQUALS && d.table(input[start]) == IGNORED_CONFIGURED_VALUE
        invariant start <= |input|
        invariant WithoutIgnored(d.table, input[start..]) == WithoutIgnored(d.table, input)
      {
        assert input[start..][1..] == input[start + 1..];
        start := start + 1;
      }
    }
    var rest := input[start..];
    var capacity := CapacityForInput(d.table, rest);
    var memory := new byte[capacity + 2](_ => 0);
    ghost var zeros := memory[..];
    var written;
    ghost var w;
    written, w := DecodeConfiguredAt(backend, wide, d, rest, memory, continueAfterPadding);
    inside := |w| <= capacity;
    if written.Some? {
      StoredAtStart(zeros, w);
      r := Some(memory[..written.value]);
    } else {
      r := None;
    }
  }

  lemma StoredAtStart(m: seq<byte>, w: seq<byte>)
    requires |w| <= |m|
    ensures Store(m, 0, w)[..|w|] == w
  {
  }

  // ----- in terms of the policy -----

  lemma {:induction false} KeptSame(t: Table, u: Table, input: seq<byte>, n: nat)
    requires SameTable(t, u) && n <= |input|
    ensures Kept(t, input, n) == Kept(u, input, n)
  {
    if n > 0 {
      var b := input[n - 1];
      assert t(b) == u(b);
      KeptSame(t, u, input, n - 1);
    }
  }

  lemma NextIgnoredSame(t: Table, u: Table, input: seq<byte>, n: nat)
    requires SameTable(t, u) && n <= |input|
    ensures NextIgnored(t, input, 0, n) == NextIgnored(u, input, 0, n)
  {
    hide NextIgnored;
    forall k | 0 <= k < n ensures t(input[k]) == u(input[k]) {
      var b := input[k];
      assert t(b) == u(b);
    }
    NextIgnoredIs(t, input, 0, n, NextIgnored(u, input, 0, n));
  }

  lemma {:induction false} WithoutIgnoredSame(t: Table, u: Table, input: seq<byte>)
    requires SameTable(t, u)
    ensures WithoutIgnored(t, input) == WithoutIgnored(u, input)
  {
    if |input| > 0 {
      var b := input[0];
      assert t(b) == u(b);
      WithoutIgnoredSame(t, u, input[1..]);
    }
  }

  /** Whether the decoder prepared for a policy exceeds its allocation on Neon. */
  ghost predicate PolicyOverruns(p: Policy, input: seq<byte>) {
    exists d: Decoder :: Prepared(p, d) && Overruns(d, Sized(d, input))
  }

  /** It is the same for every decoder prepared for the policy. */
  lemma PolicyDecides(p: Policy, d: Decoder, input: seq<byte>)
    requires Prepared(p, d)
    ensures PolicyOverruns(p, input) <==> Overruns(d, Sized(d, input))
  {
    hide Overruns, Sized, Prepared;
    if PolicyOverruns(p, input) {
      var e :| Prepared(p, e) && Overruns(e, Sized(e, input));
      PreparedAlike(p, d, e, input);
      OverrunsAlike(p, d, e, Sized(e, input));
    }
  }

  lemma PreparedAlike(p: Policy, d: Decoder, e: Decoder, input: seq<byte>)
    requires Prepared(p, d) && Prepared(p, e)
    ensures SameTable(d.table, e.table) && Sized(d, input) == Sized(e, input)
  {
    hide ConfiguredValue;
    WithoutIgnoredSame(d.table, e.table, input);
  }

  lemma OverrunsAlike(p: Policy, d: Decoder, e: Decoder, input: seq<byte>)
    requires Prepared(p, d) && Prepared(p, e) && Overruns(e, input)
    ensures Overruns(d, input)
  {
    hide ConfiguredValue, Kept, NextIgnored, TranslateByte, Valid, StrictValue, ManySpecials, ManyForbidden;
    var n := |input|;
    KeptSame(d.table, e.table, input, n);
    NextIgnoredSame(d.table, e.table, input, n);
    SpecialsAlike(p, d, e);
    var k := Kept(d.table, input, n);
    MapAgree((b: byte) => TranslateByte(d.translation, b), (b: byte) => TranslateByte(e.translation, b), k);
  }

  lemma ManySame(t: Table, u: Table)
    requires SameTable(t, u)
    ensures ManySpecials(t) ==> ManySpecials(u)
    ensures ManyForbidden(t) ==> ManyForbidden(u)
  {
    hide StrictValue;
    if ManySpecials(t) {
      var s :| FourOf(b => t(b) == IGNORED_CONFIGURED_VALUE, s);
      forall k | 0 <= k < 4 ensures u(s[k]) == IGNORED_CONFIGURED_VALUE {
        var b := s[k];
        assert t(b) == u(b);
      }
      assert FourOf(b => u(b) == IGNORED_CONFIGURED_VALUE, s);
    }
    if ManyForbidden(t) {
      var s :| FourOf(b => StrictValue(Standard, b) < 64 && t(b) == INVALID_CONFIGURED_VALUE, s);
      assert FourOf(b => StrictValue(Standard, b) < 64 && u(b) == INVALID_CONFIGURED_VALUE, s);
    }
  }

  lemma SpecialsAlike(p: Policy, d: Decoder, e: Decoder)
    requires Prepared(p, d) && Prepared(p, e)
    ensures UsesSpecials(d) <==> UsesSpecials(e)
    ensures d.forbidden.Few? ==> forall b: byte :: Searches(d.forbidden, b) <==> Searches(e.forbidden, b)
    ensures d.translation.None? <==> e.translation.None?
    ensures forall b: byte :: TranslateByte(d.translation, b) == TranslateByte(e.translation, b)
  {
    hide ConfiguredValue, StrictValue, ManySpecials, ManyForbidden;
    ManySame(d.table, e.table);
    ManySame(e.table, d.table);
    forall b: byte ensures TranslateByte(d.translation, b) == TranslateByte(e.translation, b) {
    }
  }

  /** Padded policies never exceed it, nor do policies that accept the input. */
  lemma PolicyInside(p: Policy, continueAfterPadding: bool, input: seq<byte>)
    ensures p.padded ==> !PolicyOverruns(p, input)
    ensures PolicyMeaning(p, continueAfterPadding, input).Some? ==> !PolicyOverruns(p, input)
  {
    hide Prepared, Overruns, ConfiguredValues, ConfiguredValue, Sized;
    if PolicyOverruns(p, input) {
      var d :| Prepared(p, d) && Overruns(d, Sized(d, input));
      OverrunsRejected(p, d, continueAfterPadding, input);
    }
  }

  lemma OverrunsRejected(p: Policy, d: Decoder, continueAfterPadding: bool, input: seq<byte>)
    requires Prepared(p, d) && Overruns(d, Sized(d, input))
    ensures !p.padded && PolicyMeaning(p, continueAfterPadding, input).None?
  {
    hide ConfiguredValues, ConfiguredValue, Kept, ManySpecials, ManyForbidden, Valid, TranslateByte;
    forall b: byte ensures d.table(b) <= 65 {
      ConfiguredRange(p, b);
    }
    FinalEqualsRejected(d, continueAfterPadding, Sized(d, input));
    WithoutIgnoredAccepts(d, continueAfterPadding, input);
    SameValues(d.table, PolicyTable(p), p.strict, p.padded, p.canonical, continueAfterPadding, input);
  }

  // ----- the exception -----

  /** Strict unpadded decoding of the standard alphabet with an empty ignore list. */
  const EXAMPLE_POLICY: Policy := Policy(NoAltchars, None, true, false, Some({}), false)

  /** 318 symbols 'A' and "==". */
  function ExampleInput(): (input: seq<byte>)
    ensures |input| == 320 && input[318] == EQUALS && input[319] == EQUALS
    ensures forall k :: 0 <= k < 318 ==> input[k] == 65
  {
    seq(318, _ => 65) + [EQUALS, EQUALS]
  }

  lemma ExampleValues(b: byte)
    ensures ConfiguredValue(EXAMPLE_POLICY, b) != IGNORED_CONFIGURED_VALUE
    ensures ConfiguredValue(EXAMPLE_POLICY, EQUALS) == INVALID_CONFIGURED_VALUE
  {
    StandardValues();
  }

  /** On Neon a failing decode of this input stores two bytes behind its allocation: 240 where 238 are reserved. */
  lemma OverrunExample(d: Decoder, continueAfterPadding: bool, w: seq<byte>)
    requires Prepared(EXAMPLE_POLICY, d) && Consistent(d)
    requires Leftovers(Neon, d, continueAfterPadding, ExampleInput(), w)
    ensures PolicyOverruns(EXAMPLE_POLICY, ExampleInput())
    ensures CapacityForInput(d.table, ExampleInput()) == 238 && |w| == 240
  {
    hide ConfiguredValue, Kept, Spilled, Consistent, ManySpecials, ExampleInput, Prepared, Overruns;
    var input := ExampleInput();
    ExampleOverruns(d);
    PolicyDecides(EXAMPLE_POLICY, d, input);
    LeftoversFit(Neon, d, continueAfterPadding, input, w);
    DataIsAll(d, input);
    SpilledLen(Neon, d, input, w);
  }

  lemma ExampleOverruns(d: Decoder)
    requires Prepared(EXAMPLE_POLICY, d)
    ensures FinalEquals(d, ExampleInput()) && Overruns(d, ExampleInput())
    ensures CapacityForInput(d.table, ExampleInput()) == 238
  {
    hide ConfiguredValue, Kept, ExampleInput, TranslateByte, StrictValue, Valid, ManySpecials;
    var input := ExampleInput();
    forall b: byte ensures d.table(b) != IGNORED_CONFIGURED_VALUE {
      ExampleValues(b);
    }
    if ManySpecials(d.table) {
      var _ := SomeIgnored(d.table);
    }
    ExampleValues(EQUALS);
    forall k | 0 <= k < 320 ensures d.table(input[k]) != IGNORED_CONFIGURED_VALUE {
      var b := input[k];
      assert d.table(b) != IGNORED_CONFIGURED_VALUE;
    }
    KeptRun(d.table, input, 0, 320);
    KeptStart(d.table, input);
    ValidNothing(Standard, Stream(d, input, 320), 0);
  }

  lemma SomeIgnored(t: Table) returns (b: byte)
    requires ManySpecials(t)
    ensures t(b) == IGNORED_CONFIGURED_VALUE
  {
    var s :| FourOf(b => t(b) == IGNORED_CONFIGURED_VALUE, s);
    b := s[0];
  }
}
