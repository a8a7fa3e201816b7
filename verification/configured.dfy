/** Configured decoding: which scanner runs, counting before writing, and the entry points. */
module Configured {
  import opened Bytes
  import opened Alphabet
  import opened Quantum
  import opened Vectors
  import opened Strict
  import opened StrictApi
  import opened Staging
  import opened LenientSpec
  import opened LenientApi
  import opened ConfiguredSpec
  import opened ConfiguredTable
  import opened ScanSinks
  import opened ConfiguredScan
  import opened ConfiguredSpecials
  import opened ConfiguredPlain
  import opened ConfiguredSpace

  /** The values a prepared decoder accepts from an input. */
  function Accepted(d: Decoder, continueAfterPadding: bool, input: seq<byte>): Option<seq<byte>> {
    ConfiguredValues(d.table, d.strict, d.padded, d.canonical, continueAfterPadding, input)
  }

  /** How many symbols a scan may hand to its sink, before it knows whether the input is valid. */
  function Offered(d: Decoder, continueAfterPadding: bool, input: seq<byte>): nat {
    if !d.strict then |Scan(d.table, Mode(d.padded, continueAfterPadding), input).values|
    else if UsesSpecials(d) then |Kept(d.table, input, DataEnd(d.table, d.padded, input, 0))|
    else |SymbolValues(d.table, input, 0)|
  }

  /** What a failing scan leaves: no more than the whole quartets of what it offered, and exactly what the fast
      scanner spills where that one applies to unpadded input. */
  ghost predicate Leftovers(backend: Backend, d: Decoder, continueAfterPadding: bool, input: seq<byte>, w: seq<byte>) {
    && |w| <= Offered(d, continueAfterPadding, input) / 4 * 3
    && (d.strict && !d.padded && UsesSpecials(d) ==> Spilled(backend, d, input, w))
  }

  /** A failed scan leaves such bytes in a writing sink. */
  ghost predicate FailsWith(d: Decoder, continueAfterPadding: bool, input: seq<byte>, sink: ScanSink)
    reads sink, sink.Footprint()
  {
    sink.writer != null ==>
      sink.writer.Holds() && Leftovers(sink.writer.backend, d, continueAfterPadding, input, sink.writer.stored)
  }

  /** A strict scan by whichever scanner applies. */
  method ScanStrictly(d: Decoder, checked: bool, input: seq<byte>, sink: ScanSink) returns (r: Option<nat>)
    requires Consistent(d) && d.strict && Fresh(sink) && sink.Room(Offered(d, false, input))
    requires !checked ==> sink.writer != null && StrictScan(d.table, d.padded, input).Some?
    requires !checked ==> |StrictScan(d.table, d.padded, input).value.0| % 4 != 1
    modifies sink.Footprint()
    ensures checked ==> (r.Some? <==> StrictValues(d.table, d.padded, d.canonical, input).Some?)
    ensures !checked ==> r.Some?
    ensures r.Some? ==> StrictScan(d.table, d.padded, input).Some?
    ensures r.Some? ==> r.value == |Decode(StrictScan(d.table, d.padded, input).value.0)|
    ensures r.Some? ==> sink.Wrote(Decode(StrictScan(d.table, d.padded, input).value.0))
    ensures r.None? ==> FailsWith(d, false, input, sink)
  {
    hide Kept, SymbolValues, StrictRun, StrictEnd, Consistent, DataEnd, Decode, Spilled, Stream, Store;
    hide ScanSink.Valid, ScanSink.Wrote;
    if StrictScan(d.table, d.padded, input).Some? {
      StrictRunValues(d.table, d.padded, input, 0, [], 0);
      assert [] + SymbolValues(d.table, input, 0) == SymbolValues(d.table, input, 0);
    }
    if d.specials.Few? && d.forbidden.Few? {
      r := ScanStrictSpecials(d, checked, input, sink);
      if r.None? && sink.writer != null {
        SpilledLen(sink.writer.backend, d, input, sink.writer.stored);
      }
    } else {
      r := ScanStrict(d, checked, input, sink);
    }
  }

  /** Where '=' is an ignored byte, padding is counted in a pass of its own. */
  method ScanStrictIgnoredPadding(d: Decoder, input: seq<byte>, sink: ScanSink) returns (r: Option<nat>)
    requires Consistent(d) && d.strict && Fresh(sink) && sink.Room(Offered(d, false, input))
    requires d.padded && d.table(EQUALS) == IGNORED_CONFIGURED_VALUE
    modifies sink.Footprint()
    ensures r.Some? <==> Accepted(d, false, input).Some?
    ensures r.Some? ==> r.value == |Decode(Accepted(d, false, input).value)|
    ensures r.Some? ==> sink.Wrote(Decode(Accepted(d, false, input).value))
    ensures r.None? ==> FailsWith(d, false, input, sink)
  {
    hide Kept, StrictRun, StrictEnd, DataEnd, Decode, SymbolValues, Spilled, Store;
    hide ScanSink.Valid, ScanSink.Wrote;
    NothingLeft(d, input, sink);
    var symbols, padding := CountIgnoredPadding(d.table, input);
    var remainder := symbols % 4;
    if remainder == 1 {
      return None;
    }
    var expected := if remainder == 2 then 2 else if remainder == 3 then 1 else 0;
    if padding < expected {
      return None;
    }
    var unpadded := d.(padded := false);
    IgnoredEqualsData(d.table, input, 0);
    r := ScanStrictly(unpadded, true, input, sink);
  }

  lemma NothingLeft(d: Decoder, input: seq<byte>, sink: ScanSink)
    requires Fresh(sink) && d.padded
    ensures FailsWith(d, false, input, sink)
  {
    hide Offered, Store, Translated, AllValid;
  }

  lemma {:induction false} IgnoredEqualsData(t: Table, input: seq<byte>, i: nat)
    requires i <= |input| && t(EQUALS) == IGNORED_CONFIGURED_VALUE
    ensures DataEnd(t, true, input, i) == DataEnd(t, false, input, i) == |input|
    decreases |input| - i
  {
    if i < |input| {
      IgnoredEqualsData(t, input, i + 1);
    }
  }

  method CountIgnoredPadding(t: Table, input: seq<byte>) returns (symbols: nat, padding: nat)
    ensures symbols == |SymbolValues(t, input, 0)| && padding == FinalPads(t, input, 0, 0)
  {
    symbols, padding := 0, 0;
    var k := 0;
    while k < |input|
      invariant k <= |input|
      invariant symbols + |SymbolValues(t, input, k)| == |SymbolValues(t, input, 0)|
      invariant FinalPads(t, input, k, padding) == FinalPads(t, input, 0, 0)
    {
      if t(input[k]) < 64 {
        symbols, padding := symbols + 1, 0;
      } else if input[k] == EQUALS {
        padding := padding + 1;
      }
      k := k + 1;
    }
  }

  /** Every scan, into either sink: an accepted input yields its values' bytes, and nothing else is
      accepted. An unchecked scan of an accepted input does the same without looking. */
  method ScanInto(d: Decoder, checked: bool, input: seq<byte>, sink: ScanSink, continueAfterPadding: bool)
    returns (r: Option<nat>)
    requires Consistent(d) && Fresh(sink) && sink.Room(Offered(d, continueAfterPadding, input))
    requires !checked ==> sink.writer != null && Accepted(d, continueAfterPadding, input).Some?
    modifies sink.Footprint()
    ensures r.Some? <==> Accepted(d, continueAfterPadding, input).Some?
    ensures r.Some? ==> r.value == |Decode(Accepted(d, continueAfterPadding, input).value)|
    ensures r.Some? ==> sink.Wrote(Decode(Accepted(d, continueAfterPadding, input).value))
    ensures r.None? ==> FailsWith(d, continueAfterPadding, input, sink)
  {
    hide Kept, SymbolValues, StrictRun, DataEnd, Decode, Run, Consistent, Spilled, Store;
    hide ScanSink.Valid, ScanSink.Wrote, ScanSink.Room;
    if checked && d.strict && d.padded && d.table(EQUALS) == IGNORED_CONFIGURED_VALUE {
      r := ScanStrictIgnoredPadding(d, input, sink);
      return;
    }
    if d.strict {
      if d.padded && d.table(EQUALS) == IGNORED_CONFIGURED_VALUE {
        IgnoredEqualsScan(d.table, input, 0, []);
      }
      r := ScanStrictly(d, checked, input, sink);
    } else {
      r := ScanLenient(d, checked, input, sink, continueAfterPadding);
    }
  }

  /** The counting scan. */
  method DecodedLen(backend: Backend, d: Decoder, input: seq<byte>, continueAfterPadding: bool) returns (r: Option<nat>)
    requires Consistent(d)
    ensures r == match Accepted(d, continueAfterPadding, input) case None => None case Some(v) => Some(|Decode(v)|)
  {
    hide Decode, Consistent, ConfiguredValues;
    hide ScanSink.Wrote;
    var sink := new ScanSink.Counting(backend);
    r := ScanInto(d, true, input, sink, continueAfterPadding);
  }

  /** The writing scan, checked in a single pass or unchecked after counting. */
  method DecodeInto(backend: Backend, wide: bool, d: Decoder, checked: bool, input: seq<byte>, output: array<byte>,
                    continueAfterPadding: bool)
    returns (r: Option<nat>, ghost w: seq<byte>)
    requires Consistent(d) && DecodedSymbolLen(Offered(d, continueAfterPadding, input)) <= output.Length
    requires !checked ==> Accepted(d, continueAfterPadding, input).Some?
    modifies output
    ensures r.Some? <==> Accepted(d, continueAfterPadding, input).Some?
    ensures var v := Accepted(d, continueAfterPadding, input);
            r.Some? ==> r.value == |Decode(v.value)| <= output.Length && w == Decode(v.value)
    ensures r.None? ==> Leftovers(backend, d, continueAfterPadding, input, w)
    ensures |w| <= output.Length && output[..] == Store(old(output[..]), 0, w)
  {
    hide Decode, Store, Consistent, ConfiguredValues, Offered, DecodedSymbolLen, Leftovers;
    var writer := new StagingWriter(backend, wide, output, 0, None);
    var sink := new ScanSink.Writing(writer);
    r := ScanInto(d, checked, input, sink, continueAfterPadding);
    w := writer.stored;
  }

  // ----- room -----

  lemma {:induction false} SymbolValuesCount(t: Table, input: seq<byte>, i: nat, stop: nat)
    requires i <= |input| && stop <= |input| && forall k :: stop <= k < |input| ==> t(input[k]) >= 64
    ensures |SymbolValues(t, input, i)| <= if i <= stop then stop - i else 0
    decreases |input| - i
  {
    if i < |input| {
      SymbolValuesCount(t, input, i + 1, stop);
    }
  }

  lemma {:induction false} KeptCount(t: Table, input: seq<byte>, n: nat, stop: nat)
    requires stop <= n <= |input| && forall k :: stop <= k < n ==> t(input[k]) == IGNORED_CONFIGURED_VALUE
    ensures |Kept(t, input, n)| <= stop
    decreases n
  {
    if stop < n {
      KeptCount(t, input, n - 1, stop);
    }
  }

  /** A valid input offers exactly its values. */
  lemma OfferedValid(d: Decoder, continueAfterPadding: bool, input: seq<byte>)
    requires Consistent(d) && Accepted(d, continueAfterPadding, input).Some?
    ensures Offered(d, continueAfterPadding, input) == |Accepted(d, continueAfterPadding, input).value|
  {
    hide Kept, SymbolValues, StrictRun, DataEnd, Run;
    if d.strict {
      if d.padded && d.table(EQUALS) == IGNORED_CONFIGURED_VALUE {
        IgnoredEqualsScan(d.table, input, 0, []);
      }
      StrictScanKept(d.table, d.padded, input);
      StrictRunValues(d.table, d.padded, input, 0, [], 0);
    }
  }

  /** The bytes that may be offered: all but the final padding, unless an unpadded scan of special bytes
      offers '=' as well, to be rejected by the sink. */
  function OfferedBound(d: Decoder, input: seq<byte>): nat {
    if d.table(EQUALS) < 64 || (d.strict && !d.padded && d.table(EQUALS) == INVALID_CONFIGURED_VALUE && UsesSpecials(d))
    then |input| else |input| - TrailingPadding(input)
  }

  lemma OfferedIsBounded(d: Decoder, continueAfterPadding: bool, input: seq<byte>)
    requires Consistent(d)
    ensures Offered(d, continueAfterPadding, input) <= OfferedBound(d, input)
  {
    hide Kept, SymbolValues, DataEnd, Run;
    var pads := if d.table(EQUALS) < 64 then 0 else TrailingPadding(input);
    if !d.strict {
      RunCount(d.table, Mode(d.padded, continueAfterPadding), input, 0, [], 0, |input| - pads);
    } else if !UsesSpecials(d) {
      SymbolValuesCount(d.table, input, 0, |input| - pads);
    } else if d.table(EQUALS) == IGNORED_CONFIGURED_VALUE {
      IgnoredEqualsData(d.table, input, 0);
      KeptCount(d.table, input, |input|, |input| - pads);
    } else if d.padded && pads > 0 {
      DataEndIsFirst(d.table, d.padded, input, 0, |input| - pads);
    }
  }

  // ----- entry points -----

  /** Two passes into a caller's buffer: a malformed input or a small buffer leaves it untouched. */
  method DecodeConfiguredSliceInto(backend: Backend, wide: bool, d: Decoder, input: seq<byte>, output: array<byte>,
                                   continueAfterPadding: bool)
    returns (r: DecodeResult)
    requires Consistent(d)
    modifies output
    ensures Delivered(old(output[..]), output[..], Meaning(Accepted(d, continueAfterPadding, input)), r)
    ensures !r.Ok? ==> output[..] == old(output[..])
    ensures r.OutputTooSmall? ==> Accepted(d, continueAfterPadding, input).Some?
    ensures r.OutputTooSmall? ==> r.required == |Decode(Accepted(d, continueAfterPadding, input).value)|
  {
    hide Decode, Store, Consistent, ConfiguredValues, Offered, DecodedSymbolLen;
    var required := DecodedLen(backend, d, input, continueAfterPadding);
    if required.None? {
      return InvalidInput;
    }
    if output.Length < required.value {
      return OutputTooSmall(required.value, output.Length);
    }
    OfferedValid(d, continueAfterPadding, input);
    var written, _ := DecodeInto(backend, wide, d, false, input, output, continueAfterPadding);
    r := Ok(written.value);
  }

  /** The output size of a strict decode with custom altchars, from the layout alone. */
  function TranslatedStrictDecodedLen(input: seq<byte>, altchars: Altchars, padded: bool): Option<nat>
    requires altchars.Altchars?
  {
    var equalsIsData := altchars.plus == EQUALS || altchars.slash == EQUALS;
    if padded then
      if equalsIsData then if |input| % 4 == 0 then Some(|input| / 4 * 3) else None
      else match DecodeLayout(input) case None => None case Some(l) => Some(l.outputLen)
    else if !equalsIsData && EQUALS in input then None
    else match DecodeUnpaddedLayout(input) case None => None case Some(l) => Some(l.outputLen)
  }

  /** A decoder built for strict decoding with altchars and nothing else. */
  ghost predicate IsStrictCustom(d: Decoder, altchars: Altchars, padded: bool) {
    && altchars.Altchars? && Consistent(d) && d.strict && d.padded == padded && !d.canonical
    && forall b: byte :: d.table(b) == LenientValue(altchars, b)
  }

  /** The layout gives every accepted input exactly the size it needs, and rejects no accepted input. */
  lemma TranslatedLenFits(d: Decoder, input: seq<byte>, altchars: Altchars)
    requires IsStrictCustom(d, altchars, d.padded)
    ensures var required := TranslatedStrictDecodedLen(input, altchars, d.padded);
            && (required.None? ==> Accepted(d, false, input).None?)
            && (required.Some? ==> DecodedSymbolLen(Offered(d, false, input)) <= required.value)
            && (Accepted(d, false, input).Some? ==> required == Some(|Decode(Accepted(d, false, input).value)|))
  {
    hide Kept, DataEnd, Decode, StrictRun, SymbolValues, Searches, TranslateByte, Offered, OfferedBound, StrictScan;
    var t := d.table;
    StrictCustomTable(t, altchars);
    OfferedIsBounded(d, false, input);
    DecodedSymbolLenMonotone(Offered(d, false, input), OfferedBound(d, input));
    StrictCustomBound(d, input);
    if EqualsIsPadding(t, d.padded) {
      PlainPadded(t, d.canonical, input);
      LayoutLen4(input);
    } else {
      PlainUnpadded(t, d.padded, d.canonical, input);
      if EQUALS in input && t(EQUALS) >= 64 {
        var k :| 0 <= k < |input| && input[k] == EQUALS;
        assert !AllSymbols(t, input);
      }
    }
  }

  /** The layout never promises more than the upper bound. */
  lemma TranslatedLenBound(d: Decoder, input: seq<byte>, altchars: Altchars)
    requires IsStrictCustom(d, altchars, d.padded)
    ensures var required := TranslatedStrictDecodedLen(input, altchars, d.padded);
            required.Some? ==> required.value <= DecodedLenUpperBound(d.table, input)
  {
    hide LenientValue, Consistent;
    StrictCustomTable(d.table, altchars);
    LayoutLen4(input);
  }

  lemma WholeQuartetsLen(n: nat)
    ensures n / 4 * 3 <= DecodedSymbolLen(n)
  {
  }

  lemma StrictCustomBound(d: Decoder, input: seq<byte>)
    ensures OfferedBound(d, input) <= |input|
    ensures d.table(EQUALS) >= 64 && d.padded ==> OfferedBound(d, input) == |input| - TrailingPadding(input)
  {
  }

  lemma LayoutLen4(input: seq<byte>)
    ensures |input| % 4 == 0 ==>
              DecodedSymbolLen(|input| - TrailingPadding(input)) == |input| / 4 * 3 - TrailingPadding(input)
  {
  }

  lemma StrictCustomTable(t: Table, altchars: Altchars)
    requires altchars.Altchars? && forall b: byte :: t(b) == LenientValue(altchars, b)
    ensures Plain(t)
    ensures t(EQUALS) < 64 <==> altchars.plus == EQUALS || altchars.slash == EQUALS
  {
  }

  /** Strict decoding with custom altchars into a caller's buffer. A probe counts before it writes; a
      strict attempt sizes by layout and decodes in one checked pass. */
  method DecodeConfiguredStrictInto(backend: Backend, wide: bool, policy: ErrorWritePolicy, d: Decoder,
                                    altchars: Altchars, input: seq<byte>, output: array<byte>)
    returns (r: DecodeResult, ghost w: seq<byte>)
    requires IsStrictCustom(d, altchars, d.padded)
    modifies output
    ensures Delivered(old(output[..]), output[..], Meaning(Accepted(d, false, input)), r)
    ensures policy == ValidatedBlocksOnly && !r.Ok? ==> output[..] == old(output[..])
    ensures r.OutputTooSmall? && Accepted(d, false, input).Some? ==>
              r.required == |Decode(Accepted(d, false, input).value)|
    ensures r.OutputTooSmall? && policy == Partial ==> r.required <= DecodedLenUpperBound(d.table, input)
    ensures r.InvalidInput? ==> |w| <= output.Length && output[..] == Store(old(output[..]), 0, w)
    ensures r.InvalidInput? ==> |w| <= DecodedLenUpperBound(d.table, input)
  {
    hide Decode, Store, Consistent, ConfiguredValues, Offered, DecodedSymbolLen, DecodedLenUpperBound, Spilled;
    w := [];
    StoreNothing(output[..], 0);
    if policy == ValidatedBlocksOnly {
      r := DecodeConfiguredSliceInto(backend, wide, d, input, output, false);
      return;
    }
    var required := TranslatedStrictDecodedLen(input, altchars, d.padded);
    TranslatedLenFits(d, input, altchars);
    TranslatedLenBound(d, input, altchars);
    if required.None? {
      return InvalidInput, w;
    }
    if output.Length < required.value {
      return OutputTooSmall(required.value, output.Length), w;
    }
    var written;
    written, w := DecodeInto(backend, wide, d, true, input, output, false);
    WholeQuartetsLen(Offered(d, false, input));
    r := if written.Some? then Ok(written.value) else InvalidInput;
  }
}
