/** The meaning of lenient decoding: a machine that looks at one byte at a time, discards what is not
a symbol, and tracks padding (section 3.3 of RFC 4648 lets a decoder ignore foreign bytes). */
module LenientSpec {
  import opened Bytes
  import opened Alphabet
  import opened Quantum
  import opened Strict

  /** Whether padding is required, and whether decoding goes on after a complete padding sequence. */
  datatype Mode = Mode(padded: bool, continueAfterPadding: bool)

  /** All values scanned, and whether the scan ended well. */
  datatype Outcome = Outcome(values: seq<byte>, accepted: bool)

  /** The judgement at the end of the input. */
  predicate EndsWell(m: Mode, symbols: nat, pads: nat) {
    !(symbols % 4 == 1 || (m.padded && symbols % 4 != 0 && symbols % 4 + pads < 4))
  }

  /** The scan from byte `i` on, after the given values and `pads` padding bytes since the last symbol. */
  function Run(t: Table, m: Mode, input: seq<byte>, i: nat, values: seq<byte>, pads: nat): Outcome
    requires i <= |input|
    decreases |input| - i
  {
    if i == |input| then Outcome(values, EndsWell(m, |values|, pads))
    else if t(input[i]) < 64 then Run(t, m, input, i + 1, values + [t(input[i])], 0)
    else if m.padded && input[i] == EQUALS then
      if !m.continueAfterPadding && |values| % 4 >= 2 && |values| % 4 + pads + 1 >= 4 then Outcome(values, true)
      else Run(t, m, input, i + 1, values, pads + 1)
    else Run(t, m, input, i + 1, values, pads)
  }

  function Scan(t: Table, m: Mode, input: seq<byte>): Outcome {
    Run(t, m, input, 0, [], 0)
  }

  /** The decoded bytes, or no result for malformed input. */
  function LenientMeaning(t: Table, m: Mode, input: seq<byte>): Option<seq<byte>> {
    var o := Scan(t, m, input);
    if o.accepted then Some(Decode(o.values)) else None
  }

  /** A padding count left over from before is harmless while no quartet is open. */
  lemma {:induction false} StalePads(t: Table, m: Mode, input: seq<byte>, i: nat, values: seq<byte>, p: nat, q: nat)
    requires i <= |input| && |values| % 4 == 0
    ensures Run(t, m, input, i, values, p) == Run(t, m, input, i, values, q)
    decreases |input| - i
  {
    if i < |input| && t(input[i]) >= 64 {
      if m.padded && input[i] == EQUALS {
        StalePads(t, m, input, i + 1, values, p + 1, q + 1);
      } else {
        StalePads(t, m, input, i + 1, values, p, q);
      }
    }
  }

  /** A run of symbols is scanned in one step. */
  lemma {:induction false} RunSymbols(t: Table, m: Mode, input: seq<byte>, i: nat, n: nat, values: seq<byte>, pads: nat)
    requires 0 < n && i + n <= |input|
    requires forall k :: i <= k < i + n ==> t(input[k]) < 64
    ensures Run(t, m, input, i, values, pads) == Run(t, m, input, i + n, values + Map(t, input[i..i + n]), 0)
    decreases n
  {
    hide Map;
    MapStep(t, input, i, n);
    var values' := values + [t(input[i])];
    if n == 1 {
      assert values + Map(t, input[i..i + n]) == values';
    } else {
      RunSymbols(t, m, input, i + 1, n - 1, values', 0);
      assert values + Map(t, input[i..i + n]) == values' + Map(t, input[i + 1..i + n]);
    }
  }

  lemma MapStep(t: Table, input: seq<byte>, i: nat, n: nat)
    requires 0 < n && i + n <= |input|
    ensures Map(t, input[i..i + n]) == [t(input[i])] + Map(t, input[i + 1..i + n])
    ensures n == 1 ==> Map(t, input[i..i + n]) == [t(input[i])]
  {
  }

  /** Values are only ever appended, so what was decoded so far is a prefix of the whole decoding. */
  lemma {:induction false} RunExtends(t: Table, m: Mode, input: seq<byte>, i: nat, values: seq<byte>, pads: nat)
    requires i <= |input|
    ensures values <= Run(t, m, input, i, values, pads).values
    ensures Sextets(values) ==> Sextets(Run(t, m, input, i, values, pads).values)
    ensures |Run(t, m, input, i, values, pads).values| <= |values| + |input| - i
    decreases |input| - i
  {
    if i < |input| {
      if t(input[i]) < 64 {
        RunExtends(t, m, input, i + 1, values + [t(input[i])], 0);
      } else if m.padded && input[i] == EQUALS {
        if m.continueAfterPadding || |values| % 4 < 2 || |values| % 4 + pads + 1 < 4 {
          RunExtends(t, m, input, i + 1, values, pads + 1);
        }
      } else {
        RunExtends(t, m, input, i + 1, values, pads);
      }
    }
  }

  lemma DecodeExtends(v: seq<byte>, w: seq<byte>)
    requires v <= w
    ensures Decode(v) <= Decode(w)
  {
    assert w == v + w[|v|..];
    DecodePrefix(v, w[|v|..]);
  }
}
