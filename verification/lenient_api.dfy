/** Sizes and entry points of lenient decoding: the upper bound, the exact length pre-pass with its
two algorithms, decoding into a caller's buffer, and decoding into a fresh one. */
module LenientApi {
  import opened Bytes
  import opened Alphabet
  import opened Quantum
  import opened Strict
  import opened StrictApi
  import opened LenientSpec
  import opened Lenient

  const DETACH_THRESHOLD: nat := 262144

  /** Every byte counts as a symbol except up to two final padding bytes. */
  function DecodedLenUpperBound(t: Table, input: seq<byte>): nat {
    DecodedSymbolLen(|input| - (if t(EQUALS) >= 64 then TrailingPadding(input) else 0))
  }

  function CapacityForInput(t: Table, input: seq<byte>): nat {
    if |input| <= 256 then (|input| + 3) / 4 * 3 else DecodedLenUpperBound(t, input)
  }

  /** No scan collects more values than there are bytes in front of the final non-symbols. */
  lemma {:induction false} RunCount(t: Table, m: Mode, input: seq<byte>, i: nat, values: seq<byte>, pads: nat,
                                    stop: nat)
    requires i <= |input| && stop <= |input|
    requires forall k :: stop <= k < |input| ==> t(input[k]) >= 64
    ensures |Run(t, m, input, i, values, pads).values| <= |values| + if i <= stop then stop - i else 0
    decreases |input| - i
  {
    if i < |input| {
      if t(input[i]) < 64 {
        RunCount(t, m, input, i + 1, values + [t(input[i])], 0, stop);
      } else if m.padded && input[i] == EQUALS {
        if m.continueAfterPadding || |values| % 4 < 2 || |values| % 4 + pads + 1 < 4 {
          RunCount(t, m, input, i + 1, values, pads + 1, stop);
        }
      } else {
        RunCount(t, m, input, i + 1, values, pads, stop);
      }
    }
  }

  /** The bound covers everything a decoder can write, on malformed input too. */
  lemma UpperBoundCovers(t: Table, m: Mode, input: seq<byte>)
    ensures |Decode(Scan(t, m, input).values)| <= DecodedLenUpperBound(t, input) <= CapacityForInput(t, input)
  {
    hide Run, Decode;
    var pads := if t(EQUALS) >= 64 then TrailingPadding(input) else 0;
    RunCount(t, m, input, 0, [], 0, |input| - pads);
    DecodedSymbolLenMonotone(|Scan(t, m, input).values|, |input| - pads);
    DecodedSymbolLenMonotone(|input| - pads, |input|);
  }

  // ----- the exact length -----

  /** The values of all symbols among the input, everything else dropped. */
  function SymbolValues(t: Table, input: seq<byte>, i: nat): seq<byte>
    requires i <= |input|
    decreases |input| - i
  {
    if i == |input| then [] else (if t(input[i]) < 64 then [t(input[i])] else []) + SymbolValues(t, input, i + 1)
  }

  /** The padding bytes since the last symbol, at the end of the input. */
  function FinalPads(t: Table, input: seq<byte>, i: nat, pads: nat): nat
    requires i <= |input|
    decreases |input| - i
  {
    if i == |input| then pads
    else if t(input[i]) < 64 then FinalPads(t, input, i + 1, 0)
    else if input[i] == EQUALS then FinalPads(t, input, i + 1, pads + 1)
    else FinalPads(t, input, i + 1, pads)
  }

  /** Where decoding goes on after padding, the symbols are what is decoded, and only their number and the
      final padding decide acceptance. */
  lemma {:induction false} ContinueOutcome(t: Table, m: Mode, input: seq<byte>, i: nat, values: seq<byte>, pads: nat)
    requires i <= |input| && m.continueAfterPadding
    ensures Run(t, m, input, i, values, pads).values == values + SymbolValues(t, input, i)
    ensures Run(t, m, input, i, values, pads).accepted
        <==> EndsWell(m, |values + SymbolValues(t, input, i)|, if m.padded then FinalPads(t, input, i, pads) else 0)
    decreases |input| - i
  {
    if i < |input| {
      if t(input[i]) < 64 {
        ContinueOutcome(t, m, input, i + 1, values + [t(input[i])], 0);
        ConcatAssociates(values, [t(input[i])], SymbolValues(t, input, i + 1));
      } else if m.padded && input[i] == EQUALS {
        ContinueOutcome(t, m, input, i + 1, values, pads + 1);
      } else {
        ContinueOutcome(t, m, input, i + 1, values, pads);
      }
    }
  }

  /** The last symbol decides from where padding counts. */
  lemma {:induction false} FinalPadsFrom(t: Table, input: seq<byte>, i: nat, pads: nat, last: nat)
    requires i <= last < |input| && t(input[last]) < 64
    ensures FinalPads(t, input, i, pads) == FinalPads(t, input, last + 1, 0)
    decreases last - i
  {
    if i < last {
      if t(input[i]) < 64 {
        FinalPadsFrom(t, input, i + 1, 0, last);
      } else if input[i] == EQUALS {
        FinalPadsFrom(t, input, i + 1, pads + 1, last);
      } else {
        FinalPadsFrom(t, input, i + 1, pads, last);
      }
    }
  }

  lemma {:induction false} FinalPadsAdd(t: Table, input: seq<byte>, i: nat, pads: nat)
    requires i <= |input| && forall k :: i <= k < |input| ==> t(input[k]) >= 64
    ensures FinalPads(t, input, i, pads) == pads + FinalPads(t, input, i, 0)
    decreases |input| - i
  {
    if i < |input| {
      var one := if input[i] == EQUALS then 1 else 0;
      FinalPadsAdd(t, input, i + 1, pads + one);
      FinalPadsAdd(t, input, i + 1, one);
    }
  }

  method CountSymbols(input: seq<byte>, alt: Altchars) returns (symbols: nat)
    ensures symbols == |SymbolValues(LenientTable(alt), input, 0)|
  {
    hide IsLenientSymbol, LenientValue;
    symbols := 0;
    var k := |input|;
    while k > 0
      invariant 0 <= k <= |input| && symbols == |SymbolValues(LenientTable(alt), input, k)|
    {
      k := k - 1;
      SymbolTables(input[k], alt);
      if IsLenientSymbol(input[k], alt) {
        symbols := symbols + 1;
      }
    }
  }

  /** Counts padding backwards until the last symbol. */
  method CountTrailingPads(input: seq<byte>, alt: Altchars) returns (pads: nat)
    ensures pads == FinalPads(LenientTable(alt), input, 0, 0)
  {
    hide IsLenientSymbol, LenientValue;
    var t := LenientTable(alt);
    pads := 0;
    var k := |input|;
    while k > 0
      invariant 0 <= k <= |input| && pads == FinalPads(t, input, k, 0)
      invariant forall j :: k <= j < |input| ==> t(input[j]) >= 64
    {
      SymbolTables(input[k - 1], alt);
      if IsLenientSymbol(input[k - 1], alt) {
        FinalPadsFrom(t, input, 0, 0, k - 1);
        return;
      }
      FinalPadsAdd(t, input, k, 1);
      k := k - 1;
      if input[k] == EQUALS {
        pads := pads + 1;
      }
    }
  }

  /** The length of a lenient decoding without decoding: by counting where decoding goes on after
      padding, else by scanning runs and stopping at the first complete padding. */
  method LenientDecodedLen(input: seq<byte>, alt: Altchars, m: Mode) returns (r: Option<nat>)
    ensures r == match LenientMeaning(LenientTable(alt), m, input) case None => None case Some(d) => Some(|d|)
  {
    hide IsLenientSymbol, LenientValue, Decode;
    var t := LenientTable(alt);
    SymbolTables(EQUALS, alt);
    if m.continueAfterPadding {
      var symbols := CountSymbols(input, alt);
      var quadPos := symbols % 4;
      var pads := 0;
      if m.padded && !IsLenientSymbol(EQUALS, alt) && quadPos != 0 {
        pads := CountTrailingPads(input, alt);
      }
      ContinueOutcome(t, m, input, 0, [], 0);
      if IsLenientSymbol(EQUALS, alt) {
        NoPads(t, input, 0);
      }
      r := if quadPos == 1 || (m.padded && quadPos != 0 && quadPos + pads < 4) then None
           else Some(DecodedSymbolLen(symbols));
    } else {
      r := LenientStoppingLen(input, alt, m);
    }
  }

  lemma {:induction false} NoPads(t: Table, input: seq<byte>, i: nat)
    requires i <= |input| && t(EQUALS) < 64
    ensures FinalPads(t, input, i, 0) == 0
    decreases |input| - i
  {
    if i < |input| {
      NoPads(t, input, i + 1);
    }
  }

  method LenientStoppingLen(input: seq<byte>, alt: Altchars, m: Mode) returns (r: Option<nat>)
    requires !m.continueAfterPadding
    ensures r == match LenientMeaning(LenientTable(alt), m, input) case None => None case Some(d) => Some(|d|)
  {
    hide IsLenientSymbol, LenientValue, Decode;
    var t := LenientTable(alt);
    SymbolTables(EQUALS, alt);
    var source, symbols, pads := 0, 0, 0;
    ghost var values: seq<byte> := [];
    while source < |input|
      invariant source <= |input| && symbols == |values|
      invariant Run(t, m, input, source, values, pads) == Scan(t, m, input)
      decreases |input| - source
    {
      var run := SymbolPrefix(input[source..], alt);
      assert input[source..][0] == input[source];
      SymbolTables(input[source], alt);
      if run != 0 {
        LenientSymbolRun(alt, input, source, run);
        RunSymbols(t, m, input, source, run, values, pads);
        values := values + Map(t, input[source..source + run]);
        symbols, pads, source := symbols + run, 0, source + run;
      } else {
        var b := input[source];
        source := source + 1;
        if m.padded && b == EQUALS && !IsLenientSymbol(EQUALS, alt) {
          pads := pads + 1;
          var quadPos := symbols % 4;
          if quadPos >= 2 && quadPos + pads >= 4 {
            return Some(DecodedSymbolLen(symbols));
          }
        }
      }
    }
    var quadPos := symbols % 4;
    r := if quadPos == 1 || (m.padded && quadPos != 0 && quadPos + pads < 4) then None
         else Some(DecodedSymbolLen(symbols));
  }

  // ----- entry points -----

  /** Lenient decoding into a caller's buffer. When the buffer may be too small the exact length is
      found first, so a capacity error writes nothing. */
  method DecodeLenientSliceInto(backend: Backend, wide: bool, alt: Altchars, m: Mode, input: seq<byte>,
                                output: array<byte>)
    returns (r: DecodeResult, ghost w: seq<byte>)
    modifies output
    ensures Delivered(old(output[..]), output[..], LenientMeaning(LenientTable(alt), m, input), r)
    ensures var meaning := LenientMeaning(LenientTable(alt), m, input);
            && (r.OutputTooSmall? <==> meaning.Some? && |meaning.value| > output.Length)
            && (r.OutputTooSmall? ==> r.required == |meaning.value|)
    ensures |w| <= output.Length && output[..] == Store(old(output[..]), 0, w)
    ensures |w| <= DecodedLenUpperBound(LenientTable(alt), input)
  {
    hide Run, Decode, Store, LenientValue, DecodedLenUpperBound;
    var t := LenientTable(alt);
    var provided := output.Length;
    StoreNothing(output[..], 0);
    w := [];
    UpperBoundCovers(t, m, input);
    if provided < DecodedLenUpperBound(t, input) {
      var required := LenientDecodedLen(input, alt, m);
      if required.None? {
        return InvalidInput, w;
      }
      if provided < required.value {
        return OutputTooSmall(required.value, provided), w;
      }
    }
    var decoded;
    ghost var held;
    decoded, held := DecodeLenientToPtr(backend, wide, alt, m, input, output, 0, provided);
    w := Decode(held);
    DecodedPrefix(held, Scan(t, m, input).values);
    r := if decoded.LenientOk? then Ok(decoded.written) else InvalidInput;
  }

  lemma DecodedPrefix(v: seq<byte>, w: seq<byte>)
    requires v <= w
    ensures |Decode(v)| <= |Decode(w)|
  {
    DecodedSymbolLenMonotone(|v|, |w|);
  }

  /** Scanning a suffix on its own is scanning the whole from there. */
  lemma {:induction false} RunShift(t: Table, m: Mode, input: seq<byte>, k: nat, i: nat, values: seq<byte>, pads: nat)
    requires k <= |input| && i <= |input| - k
    ensures Run(t, m, input[k..], i, values, pads) == Run(t, m, input, k + i, values, pads)
    decreases |input| - k - i
  {
    if i < |input| - k {
      if t(input[k + i]) < 64 {
        RunShift(t, m, input, k, i + 1, values + [t(input[k + i])], 0);
      } else if m.padded && input[k + i] == EQUALS {
        RunShift(t, m, input, k, i + 1, values, pads + 1);
      } else {
        RunShift(t, m, input, k, i + 1, values, pads);
      }
    }
  }

  /** Discarded bytes in front of the first symbol do not matter, padding included. */
  lemma {:induction false} LeadingDiscarded(t: Table, m: Mode, input: seq<byte>, k: nat)
    requires k <= |input| && forall j :: 0 <= j < k ==> t(input[j]) >= 64
    ensures Scan(t, m, input[k..]) == Scan(t, m, input)
  {
    if k == 0 {
      assert input[0..] == input;
    } else {
      LeadingDiscarded(t, m, input[1..], k - 1);
      assert input[1..][k - 1..] == input[k..];
      RunShift(t, m, input, 1, 0, [], 0);
      StalePads(t, m, input, 1, [], 0, 1);
    }
  }

  /** Lenient decoding into a fresh allocation. Long inputs skip leading discarded bytes before sizing;
      the capacity always suffices. */
  method TryDecodeLenient(backend: Backend, wide: bool, alt: Altchars, m: Mode, input: seq<byte>)
    returns (r: Option<seq<byte>>, ghost inside: bool)
    ensures r == LenientMeaning(LenientTable(alt), m, input) && inside
  {
    hide Run, Decode, LenientValue;
    var t := LenientTable(alt);
    var start := 0;
    if |input| >= DETACH_THRESHOLD {
      while start < |input| && t(input[start]) >= 64
        invariant start <= |input| && forall j :: 0 <= j < start ==> t(input[j]) >= 64
      {
        start := start + 1;
      }
    }
    LeadingDiscarded(t, m, input, start);
    var rest := input[start..];
    var capacity := CapacityForInput(t, rest);
    UpperBoundCovers(t, m, rest);
    var output := new byte[capacity](_ => 0);
    var decoded;
    ghost var held;
    decoded, held := DecodeLenientToPtr(backend, wide, alt, m, rest, output, 0, capacity);
    inside := |Decode(held)| <= capacity;
    if decoded.LenientOk? {
      assert output[0..|Decode(held)|] == Decode(held);
      r := Some(output[..decoded.written]);
    } else {
      r := None;
    }
  }
}
