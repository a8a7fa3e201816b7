/** The meaning of a configured decode: a table of symbols, ignored bytes and forbidden bytes, read
strictly or leniently. */
module ConfiguredSpec {
  import opened Bytes
  import opened Alphabet
  import opened Quantum
  import opened Strict
  import opened LenientSpec
  import opened LenientApi

  const INVALID_CONFIGURED_VALUE: byte := 64
  const IGNORED_CONFIGURED_VALUE: byte := 65

  /** A prepared decode policy. A custom alphabet gives the symbol of each value below 64. */
  datatype Policy = Policy(altchars: Altchars, alphabet: Option<Table>, strict: bool, padded: bool,
                           ignored: Option<set<byte>>, canonical: bool)

  predicate IsIgnored(p: Policy, b: byte) {
    p.ignored.Some? && b in p.ignored.value
  }

  /** The last value below `n` that a custom alphabet gives the symbol `b`; 64 when there is none. */
  function LastValue(alphabet: Table, b: byte, n: byte): (v: byte)
    requires n <= 64
    ensures v <= 64
    decreases n
  {
    if n == 0 then 64 else if alphabet(n - 1) == b then n - 1 else LastValue(alphabet, b, n - 1)
  }

  function IgnoredOrInvalid(p: Policy, b: byte): byte {
    if IsIgnored(p, b) then IGNORED_CONFIGURED_VALUE else INVALID_CONFIGURED_VALUE
  }

  /** What a byte means under a policy, in order of precedence. Altchars win over everything, except
      that next to an explicit ignore list they take '+' and '/' out of the alphabet and '=' is never
      one of them. */
  function ConfiguredValue(p: Policy, b: byte): byte {
    if p.alphabet.Some? then
      if b == EQUALS then INVALID_CONFIGURED_VALUE
      else if LastValue(p.alphabet.value, b, 64) < 64 then LastValue(p.alphabet.value, b, 64)
      else IgnoredOrInvalid(p, b)
    else
      var custom := p.altchars.Altchars? && p.ignored.Some?;
      if p.altchars.Altchars? && b == p.altchars.slash && !(custom && b == EQUALS) then 63
      else if p.altchars.Altchars? && b == p.altchars.plus && !(custom && b == EQUALS) then 62
      else if StrictValue(Standard, b) < 64 && !(custom && (b == 43 || b == 47)) then StrictValue(Standard, b)
      else IgnoredOrInvalid(p, b)
  }

  /** Strict scanning: symbols, then padding; ignored bytes anywhere. */
  function StrictRun(t: Table, padded: bool, input: seq<byte>, i: nat, values: seq<byte>, padding: nat)
    : Option<(seq<byte>, nat)>
    requires i <= |input|
    decreases |input| - i
  {
    if i == |input| then Some((values, padding))
    else if t(input[i]) < 64 then
      if padding > 0 then None else StrictRun(t, padded, input, i + 1, values + [t(input[i])], 0)
    else if t(input[i]) == IGNORED_CONFIGURED_VALUE then StrictRun(t, padded, input, i + 1, values, padding)
    else if input[i] == EQUALS && padded then StrictRun(t, padded, input, i + 1, values, padding + 1)
    else None
  }

  function StrictScan(t: Table, padded: bool, input: seq<byte>): Option<(seq<byte>, nat)> {
    StrictRun(t, padded, input, 0, [], 0)
  }

  function ExpectedPadding(symbols: nat): nat {
    if symbols % 4 == 2 then 2 else if symbols % 4 == 3 then 1 else 0
  }

  predicate IsCanonical(canonical: bool, values: seq<byte>) {
    canonical ==> Leftover(values) == 0
  }

  /** The judgement at the end of a strict scan: a possible length, exactly the padding it needs, and
      (section 3.5 of RFC 4648) no stray bits if the policy demands that. */
  predicate StrictEnd(padded: bool, canonical: bool, values: seq<byte>, padding: nat) {
    && |values| % 4 != 1
    && (padded ==> padding == ExpectedPadding(|values|))
    && IsCanonical(canonical, values)
  }

  function StrictValues(t: Table, padded: bool, canonical: bool, input: seq<byte>): Option<seq<byte>> {
    var s := StrictScan(t, padded, input);
    if s.Some? && StrictEnd(padded, canonical, s.value.0, s.value.1) then Some(s.value.0) else None
  }

  /** Where '=' itself is ignored, padding is checked first: at least what the symbols need must follow
      the last symbol. */
  predicate IgnoredPaddingSuffices(t: Table, input: seq<byte>) {
    var symbols := |SymbolValues(t, input, 0)|;
    symbols % 4 != 1 && FinalPads(t, input, 0, 0) >= ExpectedPadding(symbols)
  }

  function LenientValues(t: Table, m: Mode, canonical: bool, input: seq<byte>): Option<seq<byte>> {
    var o := Scan(t, m, input);
    if o.accepted && IsCanonical(canonical, o.values) then Some(o.values) else None
  }

  /** The values that a configured decode accepts. */
  function ConfiguredValues(t: Table, strict: bool, padded: bool, canonical: bool, continueAfterPadding: bool,
                            input: seq<byte>): Option<seq<byte>>
  {
    if !strict then LenientValues(t, Mode(padded, continueAfterPadding), canonical, input)
    else if padded && t(EQUALS) == IGNORED_CONFIGURED_VALUE then
      if IgnoredPaddingSuffices(t, input) then StrictValues(t, false, canonical, input) else None
    else StrictValues(t, padded, canonical, input)
  }

  function Meaning(values: Option<seq<byte>>): Option<seq<byte>> {
    if values.Some? then Some(Decode(values.value)) else None
  }

  /** The scan of an extension: strict values are appended one by one, and are all the symbols. */
  lemma {:induction false} StrictRunValues(t: Table, padded: bool, input: seq<byte>, i: nat, values: seq<byte>,
                                           padding: nat)
    requires i <= |input| && StrictRun(t, padded, input, i, values, padding).Some?
    ensures StrictRun(t, padded, input, i, values, padding).value.0 == values + SymbolValues(t, input, i)
    decreases |input| - i
  {
    if i < |input| {
      if t(input[i]) < 64 {
        StrictRunValues(t, padded, input, i + 1, values + [t(input[i])], 0);
        ConcatAssociates(values, [t(input[i])], SymbolValues(t, input, i + 1));
      } else if t(input[i]) == IGNORED_CONFIGURED_VALUE {
        StrictRunValues(t, padded, input, i + 1, values, padding);
      } else if input[i] == EQUALS && padded {
        StrictRunValues(t, padded, input, i + 1, values, padding + 1);
      }
    }
  }

  /** While '=' is ignored the padding policy makes no difference to the scan. */
  lemma {:induction false} IgnoredEqualsScan(t: Table, input: seq<byte>, i: nat, values: seq<byte>)
    requires i <= |input| && t(EQUALS) == IGNORED_CONFIGURED_VALUE
    ensures StrictRun(t, true, input, i, values, 0) == StrictRun(t, false, input, i, values, 0)
    decreases |input| - i
  {
    if i < |input| {
      if t(input[i]) < 64 {
        IgnoredEqualsScan(t, input, i + 1, values + [t(input[i])]);
      } else if t(input[i]) == IGNORED_CONFIGURED_VALUE {
        IgnoredEqualsScan(t, input, i + 1, values);
      }
    }
  }
}
