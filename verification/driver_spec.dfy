/** One meaning for every decode policy, and why each native attempt agrees with it. */
module DriverSpec {
  import opened Bytes
  import opened Alphabet
  import opened Quantum
  import opened Vectors
  import opened Strict
  import opened DecodeKernels
  import opened LenientSpec
  import opened LenientApi
  import opened ConfiguredSpec
  import opened Configured

  function PolicyTable(p: Policy): Table {
    (b: byte) => ConfiguredValue(p, b)
  }

  /** The values a policy accepts: one definition for strict, lenient and configured decoding. */
  function PolicyValues(p: Policy, continueAfterPadding: bool, input: seq<byte>): Option<seq<byte>> {
    ConfiguredValues(PolicyTable(p), p.strict, p.padded, p.canonical, continueAfterPadding, input)
  }

  function PolicyMeaning(p: Policy, continueAfterPadding: bool, input: seq<byte>): Option<seq<byte>> {
    Meaning(PolicyValues(p, continueAfterPadding, input))
  }

  // ----- only the entries of a table matter -----

  ghost predicate SameTable(t: Table, u: Table) {
    forall b: byte :: t(b) == u(b)
  }

  lemma {:induction false} SameRun(t: Table, u: Table, m: Mode, input: seq<byte>, i: nat, values: seq<byte>, pads: nat)
    requires SameTable(t, u) && i <= |input|
    ensures Run(t, m, input, i, values, pads) == Run(u, m, input, i, values, pads)
    decreases |input| - i
  {
    if i < |input| {
      var b := input[i];
      if t(b) < 64 {
        SameRun(t, u, m, input, i + 1, values + [t(b)], 0);
      } else if m.padded && b == EQUALS {
        SameRun(t, u, m, input, i + 1, values, pads + 1);
      } else {
        SameRun(t, u, m, input, i + 1, values, pads);
      }
    }
  }

  lemma {:induction false} SameStrictRun(t: Table, u: Table, padded: bool, input: seq<byte>, i: nat, values: seq<byte>,
                                         padding: nat)
    requires SameTable(t, u) && i <= |input|
    ensures StrictRun(t, padded, input, i, values, padding) == StrictRun(u, padded, input, i, values, padding)
    decreases |input| - i
  {
    if i < |input| {
      var b := input[i];
      if t(b) < 64 {
        SameStrictRun(t, u, padded, input, i + 1, values + [t(b)], 0);
      } else if t(b) == IGNORED_CONFIGURED_VALUE {
        SameStrictRun(t, u, padded, input, i + 1, values, padding);
      } else {
        SameStrictRun(t, u, padded, input, i + 1, values, padding + 1);
      }
    }
  }

  lemma {:induction false} SameCounts(t: Table, u: Table, input: seq<byte>, i: nat, pads: nat)
    requires SameTable(t, u) && i <= |input|
    ensures SymbolValues(t, input, i) == SymbolValues(u, input, i)
    ensures FinalPads(t, input, i, pads) == FinalPads(u, input, i, pads)
    decreases |input| - i
  {
    if i < |input| {
      var b := input[i];
      SameCounts(t, u, input, i + 1, if t(b) < 64 then 0 else if b == EQUALS then pads + 1 else pads);
    }
  }

  lemma SameValues(t: Table, u: Table, strict: bool, padded: bool, canonical: bool, continueAfterPadding: bool,
                   input: seq<byte>)
    requires SameTable(t, u)
    ensures ConfiguredValues(t, strict, padded, canonical, continueAfterPadding, input)
         == ConfiguredValues(u, strict, padded, canonical, continueAfterPadding, input)
  {
    hide IsCanonical, StrictEnd, ExpectedPadding;
    SameRun(t, u, Mode(padded, continueAfterPadding), input, 0, [], 0);
    SameStrictRun(t, u, padded, input, 0, [], 0);
    SameStrictRun(t, u, false, input, 0, [], 0);
    SameCounts(t, u, input, 0, 0);
  }

  // ----- what a strict success means to the other readings -----

  /** The table reads every symbol of the alphabet as the alphabet does, and '=' is not a symbol. */
  ghost predicate Agrees(a: DecodeAlphabet, t: Table) {
    (forall b: byte :: StrictValue(a, b) < 64 ==> t(b) == StrictValue(a, b)) && t(EQUALS) == 64
  }

  lemma AgreeingSymbols(a: DecodeAlphabet, t: Table, s: seq<byte>)
    requires Agrees(a, t) && AllValid(a, s)
    ensures AllSymbols(t, s) && Decoded(a, s) == Decode(Map(t, s))
  {
    hide StrictValue, Decode;
    forall k | 0 <= k < |s| ensures t(s[k]) == StrictTable(a)(s[k]) < 64 {
      var b := s[k];
      assert StrictValue(a, b) < 64;
    }
    MapAgree(StrictTable(a), t, s);
  }

  /** Complete padded input reads the same leniently, whatever the padding policy and mode. */
  lemma LenientOfPadded(t: Table, m: Mode, input: seq<byte>)
    requires t(EQUALS) >= 64 && |input| % 4 == 0
    requires AllSymbols(t, input[..|input| - TrailingPadding(input)])
    ensures Scan(t, m, input) == Outcome(Map(t, input[..|input| - TrailingPadding(input)]), true)
  {
    var n := |input| - TrailingPadding(input);
    var values := Map(t, input[..n]);
    if n > 0 {
      forall k | 0 <= k < n ensures t(input[k]) < 64 {
        assert input[..n][k] == input[k];
      }
      assert input[0..n] == input[..n] && [] + values == values;
      RunSymbols(t, m, input, 0, n, [], 0);
    } else {
      assert input == [];
    }
    PadsRun(t, m, input, n, values);
  }

  lemma PadsRun(t: Table, m: Mode, input: seq<byte>, n: nat, values: seq<byte>)
    requires t(EQUALS) >= 64 && |input| % 4 == 0 && n == |values| == |input| - TrailingPadding(input)
    ensures Run(t, m, input, n, values, 0) == Outcome(values, true)
  {
    hide Run;
    if n == |input| {
      RunEnd(t, m, input, values, 0);
    } else if n + 1 == |input| {
      OnePad(t, m, input, values, 0);
    } else {
      PadStep(t, m, input, n, values);
      OnePad(t, m, input, values, if m.padded then 1 else 0);
    }
  }

  lemma RunEnd(t: Table, m: Mode, input: seq<byte>, values: seq<byte>, pads: nat)
    ensures Run(t, m, input, |input|, values, pads) == Outcome(values, EndsWell(m, |values|, pads))
  {
  }

  lemma PadStep(t: Table, m: Mode, input: seq<byte>, n: nat, values: seq<byte>)
    requires n < |input| && input[n] == EQUALS && t(EQUALS) >= 64 && |values| % 4 == 2
    ensures Run(t, m, input, n, values, 0) == Run(t, m, input, n + 1, values, if m.padded then 1 else 0)
  {
  }

  /** The last padding byte. */
  lemma OnePad(t: Table, m: Mode, input: seq<byte>, values: seq<byte>, pads: nat)
    requires input != [] && input[|input| - 1] == EQUALS && t(EQUALS) >= 64
    requires |values| % 4 >= 2 && (m.padded ==> |values| % 4 + pads + 1 >= 4)
    ensures Run(t, m, input, |input| - 1, values, pads) == Outcome(values, true)
  {
    RunEnd(t, m, input, values, if m.padded then pads + 1 else pads);
  }

  lemma LenientOfUnpadded(t: Table, continueAfterPadding: bool, input: seq<byte>)
    requires AllSymbols(t, input) && |input| % 4 != 1
    ensures Scan(t, Mode(false, continueAfterPadding), input) == Outcome(Map(t, input), true)
  {
    var m := Mode(false, continueAfterPadding);
    if input != [] {
      assert input[0..|input|] == input && [] + Map(t, input) == Map(t, input);
      RunSymbols(t, m, input, 0, |input|, [], 0);
    }
  }

  // ----- what a failed probe may have left behind -----

  /** The first `n` bytes are symbols. */
  predicate SymbolsBefore(t: Table, input: seq<byte>, n: nat) {
    n <= |input| && forall k :: 0 <= k < n ==> t(input[k]) < 64
  }

  lemma LenientHasPrefix(t: Table, m: Mode, input: seq<byte>, n: nat)
    requires SymbolsBefore(t, input, n)
    ensures |Scan(t, m, input).values| >= n
  {
    hide Run;
    if n > 0 {
      RunSymbols(t, m, input, 0, n, [], 0);
      RunExtends(t, m, input, n, [] + Map(t, input[0..n]), 0);
    }
  }

  lemma {:induction false} SymbolValuesPrefix(t: Table, input: seq<byte>, i: nat, n: nat)
    requires i <= n && SymbolsBefore(t, input, n)
    ensures |SymbolValues(t, input, i)| >= n - i
    decreases n - i
  {
    if i < n {
      SymbolValuesPrefix(t, input, i + 1, n);
    }
  }

  /** Accepted values include every leading symbol, and are no more than the bytes before the final
      padding. */
  lemma AcceptedSize(t: Table, strict: bool, padded: bool, canonical: bool, continueAfterPadding: bool,
                     input: seq<byte>, n: nat)
    requires SymbolsBefore(t, input, n)
    requires ConfiguredValues(t, strict, padded, canonical, continueAfterPadding, input).Some?
    ensures var v := ConfiguredValues(t, strict, padded, canonical, continueAfterPadding, input).value;
            n <= |v| && (t(EQUALS) >= 64 ==> |v| <= |input| - TrailingPadding(input)) && |v| <= |input|
  {
    hide Run, StrictRun, SymbolValues, FinalPads, IsCanonical, StrictEnd, ExpectedPadding;
    var m := Mode(padded, continueAfterPadding);
    var stop := |input| - if t(EQUALS) >= 64 then TrailingPadding(input) else 0;
    LenientHasPrefix(t, m, input, n);
    RunCount(t, m, input, 0, [], 0, stop);
    SymbolValuesPrefix(t, input, 0, n);
    SymbolValuesCount(t, input, 0, stop);
    assert [] + SymbolValues(t, input, 0) == SymbolValues(t, input, 0);
    if StrictScan(t, padded, input).Some? {
      StrictRunValues(t, padded, input, 0, [], 0);
    }
    if StrictScan(t, false, input).Some? {
      StrictRunValues(t, false, input, 0, [], 0);
    }
  }

  /** Whatever an input is accepted as fits the capacity that is estimated for it. */
  lemma AcceptedFits(t: Table, strict: bool, padded: bool, canonical: bool, continueAfterPadding: bool,
                     input: seq<byte>)
    requires ConfiguredValues(t, strict, padded, canonical, continueAfterPadding, input).Some?
    ensures |Decode(ConfiguredValues(t, strict, padded, canonical, continueAfterPadding, input).value)|
         <= DecodedLenUpperBound(t, input) <= CapacityForInput(t, input)
  {
    hide ConfiguredValues, Decode, TrailingPadding;
    var v := ConfiguredValues(t, strict, padded, canonical, continueAfterPadding, input).value;
    AcceptedSize(t, strict, padded, canonical, continueAfterPadding, input, 0);
    var pads := if t(EQUALS) >= 64 then TrailingPadding(input) else 0;
    DecodedSymbolLenMonotone(|v|, |input| - pads);
    DecodedSymbolLenMonotone(|input| - pads, |input|);
  }

  /** After failed probes the memory holds `w` over its start. A probe that wrote anything decoded whole
      quartets of leading symbols, and had found room for the whole layout first. */
  ghost predicate Probed(t: Table, input: seq<byte>, before: seq<byte>, now: seq<byte>, w: seq<byte>) {
    && |w| <= |before| && now == Store(before, 0, w)
    && |w| % 3 == 0 && SymbolsBefore(t, input, |w| / 3 * 4)
    && (w != [] ==> DecodedSymbolLen(|input| - TrailingPadding(input)) <= |before|)
  }

  lemma ProbedNothing(t: Table, input: seq<byte>, before: seq<byte>)
    ensures Probed(t, input, before, before, [])
  {
    StoreNothing(before, 0);
  }

  /** What a probe left is covered by any accepted decoding, and there is room for that. */
  lemma ProbeCovered(t: Table, strict: bool, padded: bool, canonical: bool, continueAfterPadding: bool,
                     input: seq<byte>, before: seq<byte>, now: seq<byte>, w: seq<byte>)
    requires Probed(t, input, before, now, w) && (t(EQUALS) >= 64 || w == [])
    requires ConfiguredValues(t, strict, padded, canonical, continueAfterPadding, input).Some?
    ensures var d := Decode(ConfiguredValues(t, strict, padded, canonical, continueAfterPadding, input).value);
            && |w| <= |d|
            && (w != [] ==> |d| <= |before|)
            && (|d| <= |before| ==> Store(now, 0, d) == Store(before, 0, d))
  {
    hide ConfiguredValues, Decode, Store;
    var v := ConfiguredValues(t, strict, padded, canonical, continueAfterPadding, input).value;
    AcceptedSize(t, strict, padded, canonical, continueAfterPadding, input, |w| / 3 * 4);
    DecodedSymbolLenMonotone(|w| / 3 * 4, |v|);
    if t(EQUALS) >= 64 {
      DecodedSymbolLenMonotone(|v|, |input| - TrailingPadding(input));
    }
    if |Decode(v)| <= |before| {
      StoreCover(before, 0, w, Decode(v));
    }
  }

  /** Probes after probes. */
  lemma ProbedAgain(a: DecodeAlphabet, t: Table, input: seq<byte>, before: seq<byte>, was: seq<byte>, now: seq<byte>,
                    w: seq<byte>, q: nat)
    returns (w': seq<byte>)
    requires Probed(t, input, before, was, w) && Agrees(a, t)
    requires Wrote(was, now, 0, a, input, q, [])
    requires q > 0 ==> DecodedSymbolLen(|input| - TrailingPadding(input)) <= |before|
    ensures Probed(t, input, before, now, w')
  {
    hide StrictValue, Decode;
    var d := Decoded(a, input[..4 * q]);
    assert |d| == 3 * q;
    assert d + [] == d && |was| == |before|;
    forall k | 0 <= k < 4 * q ensures t(input[k]) < 64 {
      var b := input[k];
      assert StrictValue(a, b) < 64;
    }
    if |w| <= |d| {
      StoreCover(before, 0, w, d);
      w' := d;
      assert |w'| / 3 * 4 == 4 * q;
    } else {
      w' := d + w[|d|..];
      assert |w'| == |w|;
      assert Store(Store(before, 0, w), 0, d) == Store(before, 0, w');
    }
  }
}
