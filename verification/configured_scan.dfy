/** The general strict scanner and the lenient scanner of configured decoding. */
module ConfiguredScan {
  import opened Bytes
  import opened Alphabet
  import opened Quantum
  import opened Vectors
  import opened Strict
  import opened Staging
  import opened StagingCuts
  import opened LenientSpec
  import opened LenientApi
  import opened ConfiguredSpec
  import opened ConfiguredTable
  import opened ScanSinks

  /** The standard symbols of some values. */
  function AsSymbols(values: seq<byte>): (s: seq<byte>)
    ensures |s| == |values|
  {
    Map((v: byte) => StandardSymbol(v), values)
  }

  lemma AsSymbolsPush(values: seq<byte>, v: byte)
    ensures AsSymbols(values + [v]) == AsSymbols(values) + [StandardSymbol(v)]
    ensures AsSymbols([]) == []
  {
    hide StandardSymbol;
  }

  /** Symbols of given values decode to what the values carry. */
  lemma AsSymbolsDecode(values: seq<byte>)
    requires Sextets(values)
    ensures AllValid(Standard, AsSymbols(values))
    ensures Decoded(Standard, AsSymbols(values)) == Decode(values)
  {
    hide Decode, StandardSymbol, StrictValue;
    forall k | 0 <= k < |values| ensures StrictValue(Standard, AsSymbols(values)[k]) == values[k] {
      SymbolValueInverse(values[k]);
    }
    assert Map(StrictTable(Standard), AsSymbols(values)) == values;
  }

  /** Alphanumeric bytes that keep their standard value are their own standard symbols. */
  lemma AsSymbolsRun(t: Table, values: seq<byte>, x: seq<byte>)
    requires forall k :: 0 <= k < |x| ==> IsAlphanumeric(x[k]) && t(x[k]) == StrictValue(Standard, x[k])
    ensures AllValid(Standard, x) && AllSymbols(t, x)
    ensures AsSymbols(values + Map(t, x)) == AsSymbols(values) + x
  {
    hide StandardSymbol, StrictValue, IsAlphanumeric;
    forall k | 0 <= k < |x|
      ensures t(x[k]) < 64 && StrictValue(Standard, x[k]) < 64 && StandardSymbol(t(x[k])) == x[k]
    {
      Alphanumerics(x[k]);
      ValueSymbolInverse(x[k]);
    }
    assert AsSymbols(values + Map(t, x)) == AsSymbols(values) + AsSymbols(Map(t, x));
    assert AsSymbols(Map(t, x)) == x;
  }

  /** Some prefix of alphanumeric bytes. */
  method AlphanumericPrefix(input: seq<byte>, from: nat) returns (run: nat)
    requires from <= |input|
    ensures from + run <= |input| && forall k :: from <= k < from + run ==> IsAlphanumeric(input[k])
  {
    run := 0;
    while from + run < |input| && IsAlphanumeric(input[from + run])
      invariant from + run <= |input| && forall k :: from <= k < from + run ==> IsAlphanumeric(input[k])
    {
      run := run + 1;
    }
  }

  /** A run of symbols in a strict scan. */
  lemma {:induction false} StrictRunSymbols(t: Table, padded: bool, input: seq<byte>, i: nat, n: nat, values: seq<byte>)
    requires i + n <= |input| && AllSymbols(t, input[i..i + n])
    ensures StrictRun(t, padded, input, i, values, 0)
         == StrictRun(t, padded, input, i + n, values + Map(t, input[i..i + n]), 0)
    ensures SymbolValues(t, input, i) == Map(t, input[i..i + n]) + SymbolValues(t, input, i + n)
    decreases n
  {
    var x := input[i..i + n];
    if n == 0 {
      assert values + Map(t, x) == values;
    } else {
      var v := t(input[i]);
      assert x[0] == input[i] && x[1..] == input[i + 1..i + n];
      assert AllSymbols(t, x[1..]);
      StrictRunSymbols(t, padded, input, i + 1, n - 1, values + [v]);
      assert Map(t, x) == [v] + Map(t, x[1..]);
      ConcatAssociates(values, [v], Map(t, x[1..]));
      ConcatAssociates([v], Map(t, x[1..]), SymbolValues(t, input, i + n));
    }
  }

  /** What a scanner knows between two bytes: its values are the values of the bytes before, and the sink
      holds their standard symbols. */
  ghost predicate Scanned(t: Table, input: seq<byte>, source: nat, values: seq<byte>, pushed: seq<byte>) {
    && source <= |input| && Sextets(values) && pushed == AsSymbols(values)
    && SymbolValues(t, input, 0) == values + SymbolValues(t, input, source)
  }

  lemma ScannedSkip(t: Table, input: seq<byte>, source: nat, values: seq<byte>, pushed: seq<byte>)
    requires Scanned(t, input, source, values, pushed) && source < |input| && t(input[source]) >= 64
    ensures Scanned(t, input, source + 1, values, pushed)
  {
    hide AsSymbols;
    assert SymbolValues(t, input, source) == SymbolValues(t, input, source + 1);
  }

  lemma ScannedSymbol(t: Table, input: seq<byte>, source: nat, values: seq<byte>, pushed: seq<byte>)
    requires Scanned(t, input, source, values, pushed) && source < |input| && t(input[source]) < 64
    ensures var v := t(input[source]); Scanned(t, input, source + 1, values + [v], pushed + [StandardSymbol(v)])
    ensures AllValid(Standard, pushed) && |pushed| == |values| && |values| + 1 <= |SymbolValues(t, input, 0)|
  {
    hide AllValid, StandardSymbol, AsSymbols, Decoded, Decode;
    var v := t(input[source]);
    AsSymbolsDecode(values);
    AsSymbolsPush(values, v);
    assert SymbolValues(t, input, source) == [v] + SymbolValues(t, input, source + 1);
    ConcatAssociates(values, [v], SymbolValues(t, input, source + 1));
  }

  lemma ScannedRun(t: Table, input: seq<byte>, source: nat, run: nat, values: seq<byte>, pushed: seq<byte>)
    requires Scanned(t, input, source, values, pushed) && source + run <= |input|
    requires forall k :: source <= k < source + run ==>
              IsAlphanumeric(input[k]) && t(input[k]) == StrictValue(Standard, input[k])
    ensures var x := input[source..source + run];
            && AllValid(Standard, x) && AllSymbols(t, x) && AllValid(Standard, pushed)
            && AllValid(Standard, pushed + x)
            && |pushed| == |values| && |values| + run <= |SymbolValues(t, input, 0)|
            && Scanned(t, input, source + run, values + Map(t, x), pushed + x)
  {
    hide AllValid, StandardSymbol, StrictValue;
    var x := input[source..source + run];
    AsSymbolsDecode(values);
    AsSymbolsRun(t, values, x);
    AllValidConcat(Standard, pushed, x);
    StrictRunSymbols(t, true, input, source, run, values);
    ConcatAssociates(values, Map(t, x), SymbolValues(t, input, source + run));
  }

  lemma ScannedStart(t: Table, input: seq<byte>)
    ensures Scanned(t, input, 0, [], [])
  {
    assert [] + SymbolValues(t, input, 0) == SymbolValues(t, input, 0);
  }

  /** At the end all symbols are scanned, and decode to what their values carry. */
  lemma ScannedEnd(t: Table, input: seq<byte>, values: seq<byte>, pushed: seq<byte>)
    requires Scanned(t, input, |input|, values, pushed)
    ensures values == SymbolValues(t, input, 0) && |pushed| == |values|
    ensures AllValid(Standard, pushed) && Decoded(Standard, pushed) == Decode(values)
  {
    AsSymbolsDecode(values);
  }

  /** Translation is off and nothing is pushed yet. */
  ghost predicate Fresh(sink: ScanSink)
    reads sink, sink.Footprint()
  {
    sink.Valid() && sink.pushed == [] && sink.translation == None
  }

  /** The strict scanner's variables; unchecked scans keep only the padding flag. */
  datatype StrictState = StrictState(symbols: nat, padding: nat, sawPadding: bool, lastValue: byte)

  ghost predicate Tracks(checked: bool, s: StrictState, values: seq<byte>, pads: nat) {
    && (s.sawPadding <==> pads > 0)
    && (checked ==> s.symbols == |values| && s.padding == pads)
    && (checked && values != [] ==> s.lastValue == values[|values| - 1])
  }

  /** The scan stands at byte `source`, and the rest of it decides the outcome. */
  ghost predicate StrictAt(d: Decoder, input: seq<byte>, source: nat, values: seq<byte>, pads: nat, sink: ScanSink)
    reads sink, sink.Footprint()
  {
    && sink.Valid() && sink.translation == None && sink.Room(|SymbolValues(d.table, input, 0)|)
    && Scanned(d.table, input, source, values, sink.pushed)
    && StrictRun(d.table, d.padded, input, source, values, pads) == StrictScan(d.table, d.padded, input)
  }

  /** A run of alphanumeric bytes goes to the sink as it is. */
  method StrictAlphanumerics(d: Decoder, checked: bool, input: seq<byte>, source: nat, run: nat, s: StrictState,
                             sink: ScanSink, ghost values: seq<byte>)
    returns (s': StrictState, ghost values': seq<byte>)
    requires Consistent(d) && d.preservesAlphanumeric && run > 0 && source + run <= |input|
    requires forall k :: source <= k < source + run ==> IsAlphanumeric(input[k])
    requires StrictAt(d, input, source, values, 0, sink) && Tracks(checked, s, values, 0)
    requires !checked ==> sink.writer != null
    modifies sink.Footprint()
    ensures fresh(sink.Footprint() - old(sink.Footprint()))
    ensures StrictAt(d, input, source + run, values', 0, sink) && Tracks(checked, s', values', 0)
  {
    hide AllValid, StandardSymbol, StrictValue, Scanned, SymbolValues, AsSymbols, Decode, DecodedSymbolLen, Decoded;
    hide ScanSink.Pushes, ScanSink.Valid, StrictRun;
    var x := input[source..source + run];
    ScannedRun(d.table, input, source, run, values, sink.pushed);
    StrictRunSymbols(d.table, d.padded, input, source, run, values);
    TranslatedNone(x);
    RoomWithin(sink, |sink.pushed| + run, |SymbolValues(d.table, input, 0)|);
    var _ := sink.PushSymbols(checked, x, false);
    values' := values + Map(d.table, x);
    s' := if checked then s.(symbols := s.symbols + run, lastValue := d.table(input[source + run - 1])) else s;
  }

  method StrictByte(d: Decoder, checked: bool, input: seq<byte>, source: nat, s: StrictState, sink: ScanSink,
                    ghost values: seq<byte>, ghost pads: nat)
    returns (ok: bool, s': StrictState, ghost values': seq<byte>, ghost pads': nat)
    requires source < |input| && StrictAt(d, input, source, values, pads, sink) && Tracks(checked, s, values, pads)
    requires !checked ==> sink.writer != null && StrictScan(d.table, d.padded, input).Some?
    modifies sink.Footprint()
    ensures fresh(sink.Footprint() - old(sink.Footprint()))
    ensures ok ==> StrictAt(d, input, source + 1, values', pads', sink) && Tracks(checked, s', values', pads')
    ensures !ok ==>
              checked && StrictScan(d.table, d.padded, input).None? && sink.Within(|SymbolValues(d.table, input, 0)|)
  {
    hide AllValid, StandardSymbol, StrictValue, Scanned, SymbolValues, AsSymbols, Decode, DecodedSymbolLen, Decoded;
    hide ScanSink.Valid, ScanSink.Within;
    ok, s', values', pads' := true, s, values, pads;
    StrictWithin(d, input, source, values, pads, sink);
    var b := input[source];
    var value := d.table(b);
    if value < 64 {
      if checked && s.sawPadding {
        return false, s, values, pads;
      }
      ScannedSymbol(d.table, input, source, values, sink.pushed);
      RoomWithin(sink, |sink.pushed| + 1, |SymbolValues(d.table, input, 0)|);
      var _ := sink.PushValue(checked, value);
      values' := values + [value];
      s' := if checked then s.(symbols := s.symbols + 1, lastValue := value) else s;
      return;
    }
    ScannedSkip(d.table, input, source, values, sink.pushed);
    if b == EQUALS && value != IGNORED_CONFIGURED_VALUE {
      if checked && !d.padded {
        return false, s, values, pads;
      }
      s' := s.(sawPadding := true, padding := if checked then s.padding + 1 else s.padding);
      pads' := pads + 1;
    } else if checked && value != IGNORED_CONFIGURED_VALUE {
      return false, s, values, pads;
    }
  }

  /** What is stored is no more than the symbols so far decode to. */
  lemma StrictWithin(d: Decoder, input: seq<byte>, source: nat, values: seq<byte>, pads: nat, sink: ScanSink)
    requires StrictAt(d, input, source, values, pads, sink)
    ensures sink.Within(|SymbolValues(d.table, input, 0)|)
  {
    hide ScanSink.Valid, SymbolValues, AsSymbols, StrictRun;
    sink.ValidWithin(|SymbolValues(d.table, input, 0)|);
  }

  lemma StrictStart(d: Decoder, input: seq<byte>, sink: ScanSink)
    requires Fresh(sink) && sink.Room(|SymbolValues(d.table, input, 0)|)
    ensures StrictAt(d, input, 0, [], 0, sink)
  {
    ScannedStart(d.table, input);
  }

  lemma StrictStop(d: Decoder, input: seq<byte>, values: seq<byte>, pads: nat, sink: ScanSink)
    requires StrictAt(d, input, |input|, values, pads, sink)
    ensures sink.Valid() && sink.Room(|values|) && |sink.pushed| == |values|
    ensures AllValid(Standard, sink.pushed) && Decoded(Standard, sink.pushed) == Decode(values)
    ensures values == SymbolValues(d.table, input, 0) && StrictScan(d.table, d.padded, input) == Some((values, pads))
  {
    hide AllValid, Decode, Decoded, Scanned;
    ScannedEnd(d.table, input, values, sink.pushed);
  }

  /** The scanner that looks at every byte. */
  method ScanStrict(d: Decoder, checked: bool, input: seq<byte>, sink: ScanSink) returns (r: Option<nat>)
    requires Consistent(d) && Fresh(sink) && sink.Room(|SymbolValues(d.table, input, 0)|)
    requires !checked ==> sink.writer != null && StrictScan(d.table, d.padded, input).Some?
    requires !checked ==> |SymbolValues(d.table, input, 0)| % 4 != 1
    modifies sink.Footprint()
    ensures checked ==> (r.Some? <==> StrictValues(d.table, d.padded, d.canonical, input).Some?)
    ensures !checked ==> r.Some?
    ensures r.Some? ==> StrictScan(d.table, d.padded, input).Some?
    ensures r.Some? ==> r.value == |Decode(SymbolValues(d.table, input, 0))|
    ensures r.Some? ==> sink.Wrote(Decode(SymbolValues(d.table, input, 0)))
    ensures r.None? ==> sink.Within(|SymbolValues(d.table, input, 0)|)
  {
    hide AllValid, StandardSymbol, StrictValue, Scanned, SymbolValues, AsSymbols, Decode, DecodedSymbolLen, Decoded;
    hide ScanSink.Valid, ScanSink.Wrote, ScanSink.Within, ScanSink.Stopped, ScanSink.Room, StrictEnd, StrictAt,
         StrictRun, Consistent;
    var source := 0;
    var s := StrictState(0, 0, false, 0);
    ghost var values: seq<byte>, pads := [], 0;
    StrictStart(d, input, sink);
    while source < |input|
      invariant source <= |input| && StrictAt(d, input, source, values, pads, sink) && Tracks(checked, s, values, pads)
      invariant fresh(sink.Footprint() - old(sink.Footprint()))
      decreases |input| - source
    {
      if d.preservesAlphanumeric && !s.sawPadding {
        var run := AlphanumericPrefix(input, source);
        if run != 0 {
          s, values := StrictAlphanumerics(d, checked, input, source, run, s, sink, values);
          source := source + run;
          continue;
        }
      }
      var ok;
      ok, s, values, pads := StrictByte(d, checked, input, source, s, sink, values, pads);
      if !ok {
        return None;
      }
      source := source + 1;
    }
    StrictStop(d, input, values, pads, sink);
    r := FinishStrict(d, checked, sink, s.symbols, s.padding, s.lastValue, values, pads);
  }

  lemma RoomWithin(sink: ScanSink, m: nat, n: nat)
    requires m <= n && sink.Room(n)
    ensures sink.Room(m)
  {
    DecodedSymbolLenMonotone(m, n);
  }

  /** The last value's unused bits, as the scanners mask them. */
  lemma LeftoverMasks(values: seq<byte>)
    ensures |values| % 4 == 2 ==> Leftover(values) == values[|values| - 1] & 0x0f
    ensures |values| % 4 == 3 ==> Leftover(values) == values[|values| - 1] & 0x03
    ensures |values| % 4 == 0 ==> Leftover(values) == 0
  {
  }

  /** Judges length, padding and canonicality, then ends the scan. */
  method FinishStrict(d: Decoder, checked: bool, sink: ScanSink, symbols: nat, padding: nat, lastValue: byte,
                      ghost values: seq<byte>, ghost pads: nat)
    returns (r: Option<nat>)
    requires sink.Valid() && sink.Room(|values|) && |sink.pushed| == |values|
    requires AllValid(Standard, sink.pushed) ==> Decoded(Standard, sink.pushed) == Decode(values)
    requires checked ==> symbols == |values| && padding == pads && (values != [] ==> lastValue == values[|values| - 1])
    requires !checked ==> sink.writer != null && AllValid(Standard, sink.pushed) && |values| % 4 != 1
    modifies sink.Footprint()
    ensures checked ==>
              (r.Some? <==> AllValid(Standard, old(sink.pushed)) && StrictEnd(d.padded, d.canonical, values, pads))
    ensures !checked ==> r.Some?
    ensures r.Some? ==> r.value == |Decode(values)| && sink.Wrote(Decode(values))
    ensures r.None? ==> sink.Within(|values|)
    ensures r.None? ==>
              if StrictEnd(d.padded, d.canonical, values, pads) then
                sink.Stopped(old(sink.pushed), Chunk(old(sink.Flushed()), old(sink.Staged())))
              else sink.Valid() && sink.pushed == old(sink.pushed) && sink.Flushed() == old(sink.Flushed())
  {
    hide AllValid, Decode, Leftover, Decoded;
    hide ScanSink.Valid, ScanSink.Wrote, ScanSink.Within, ScanSink.Stopped;
    LeftoverMasks(values);
    sink.ValidWithin(|values|);
    if checked {
      var remainder := symbols % 4;
      if remainder == 1 {
        return None;
      }
      var expected := if remainder == 2 then 2 else if remainder == 3 then 1 else 0;
      if d.padded && padding != expected {
        return None;
      }
      if d.canonical && ((remainder == 2 && lastValue & 0x0f != 0) || (remainder == 3 && lastValue & 0x03 != 0)) {
        return None;
      }
    }
    ghost var c := Chunk(sink.Flushed(), sink.Staged());
    r := sink.Finish(checked, DecodedSymbolLen(symbols));
    if r.None? {
      sink.StoppedWithin(sink.pushed, c);
    }
  }

  // ----- the lenient scanner -----

  function PartialValue(quadPos: nat, value: byte): byte {
    if quadPos == 0 then 0 else if quadPos == 1 then value else if quadPos == 2 then value & 0x0f else value & 0x03
  }

  datatype LenientState = LenientState(symbols: nat, padding: nat, quadPos: nat, leftchar: byte)

  ghost predicate LenientTracks(d: Decoder, checked: bool, s: LenientState, values: seq<byte>, pads: nat) {
    && s.padding == pads && s.quadPos == |values| % 4
    && (checked ==> s.symbols == |values|)
    && (checked && d.canonical ==> s.leftchar == Leftover(values))
  }

  ghost predicate LenientAt(t: Table, m: Mode, input: seq<byte>, source: nat, values: seq<byte>, pads: nat,
                            sink: ScanSink)
    reads sink, sink.Footprint()
  {
    && source <= |input|
    && sink.Valid() && sink.translation == None && sink.Room(|Scan(t, m, input).values|)
    && Sextets(values) && sink.pushed == AsSymbols(values)
    && Run(t, m, input, source, values, pads) == Scan(t, m, input)
  }

  lemma LenientRunStep(t: Table, m: Mode, input: seq<byte>, source: nat, run: nat, values: seq<byte>, pads: nat)
    requires run > 0 && source + run <= |input| && Sextets(values)
    requires forall k :: source <= k < source + run ==>
              IsAlphanumeric(input[k]) && t(input[k]) == StrictValue(Standard, input[k])
    requires Run(t, m, input, source, values, pads) == Scan(t, m, input)
    ensures var x := input[source..source + run];
            var values' := values + Map(t, x);
            && AllValid(Standard, x) && AllValid(Standard, AsSymbols(values))
            && AllValid(Standard, AsSymbols(values) + x)
            && Sextets(values') && AsSymbols(values') == AsSymbols(values) + x
            && |values| + run <= |Scan(t, m, input).values|
            && Run(t, m, input, source + run, values', 0) == Scan(t, m, input)
            && values'[|values'| - 1] == t(input[source + run - 1])
  {
    hide AllValid, StandardSymbol, StrictValue, AsSymbols, IsAlphanumeric;
    var x := input[source..source + run];
    AsSymbolsRun(t, values, x);
    forall k | source <= k < source + run ensures t(input[k]) < 64 {
      assert input[k] == x[k - source];
    }
    RunSymbols(t, m, input, source, run, values, pads);
    RunExtends(t, m, input, source + run, values + Map(t, x), 0);
    AsSymbolsDecode(values);
    AllValidConcat(Standard, AsSymbols(values), x);
  }

  method LenientAlphanumerics(d: Decoder, m: Mode, checked: bool, input: seq<byte>, source: nat, run: nat,
                              s: LenientState, sink: ScanSink, ghost values: seq<byte>, ghost pads: nat)
    returns (s': LenientState, ghost values': seq<byte>)
    requires Consistent(d) && d.preservesAlphanumeric && run > 0 && source + run <= |input|
    requires forall k :: source <= k < source + run ==> IsAlphanumeric(input[k])
    requires LenientAt(d.table, m, input, source, values, pads, sink) && LenientTracks(d, checked, s, values, pads)
    requires !checked ==> sink.writer != null
    modifies sink.Footprint()
    ensures fresh(sink.Footprint() - old(sink.Footprint()))
    ensures LenientAt(d.table, m, input, source + run, values', 0, sink) && LenientTracks(d, checked, s', values', 0)
  {
    hide AllValid, StandardSymbol, StrictValue, AsSymbols, Decode, DecodedSymbolLen, Decoded, Run;
    hide ScanSink.Pushes, ScanSink.Valid;
    var x := input[source..source + run];
    LenientRunStep(d.table, m, input, source, run, values, pads);
    TranslatedNone(x);
    RoomWithin(sink, |sink.pushed| + run, |Scan(d.table, m, input).values|);
    var _ := sink.PushSymbols(checked, x, false);
    values' := values + Map(d.table, x);
    var quadPos := (s.quadPos + run) % 4;
    s' := LenientState(if checked then s.symbols + run else s.symbols, 0, quadPos,
      if checked && d.canonical then PartialValue(quadPos, d.table(input[source + run - 1])) else s.leftchar);
  }

  /** All values of a finished scan are pushed. */
  ghost predicate LenientDone(sink: ScanSink, values: seq<byte>)
    reads sink, sink.Footprint()
  {
    sink.Valid() && sink.Room(|values|) && sink.pushed == AsSymbols(values) && Sextets(values)
  }

  datatype LenientStep = Next | Stop

  /** One symbol: its value is pushed, and padding is counted afresh. */
  method LenientSymbol(d: Decoder, m: Mode, checked: bool, input: seq<byte>, source: nat, s: LenientState,
                       sink: ScanSink, ghost values: seq<byte>, ghost pads: nat)
    returns (s': LenientState, ghost values': seq<byte>)
    requires source < |input| && d.table(input[source]) < 64
    requires LenientAt(d.table, m, input, source, values, pads, sink) && LenientTracks(d, checked, s, values, pads)
    requires !checked ==> sink.writer != null
    modifies sink.Footprint()
    ensures fresh(sink.Footprint() - old(sink.Footprint()))
    ensures LenientAt(d.table, m, input, source + 1, values', 0, sink) && LenientTracks(d, checked, s', values', 0)
  {
    hide AllValid, StandardSymbol, StrictValue, AsSymbols, Decode, DecodedSymbolLen, Decoded;
    hide ScanSink.Valid;
    var value := d.table(input[source]);
    RunExtends(d.table, m, input, source + 1, values + [value], 0);
    AsSymbolsDecode(values);
    AsSymbolsPush(values, value);
    RoomWithin(sink, |sink.pushed| + 1, |Scan(d.table, m, input).values|);
    var _ := sink.PushValue(checked, value);
    values' := values + [value];
    var quadPos := (s.quadPos + 1) % 4;
    s' := LenientState(if checked then s.symbols + 1 else s.symbols, 0, quadPos,
      if checked && d.canonical then PartialValue(quadPos, value) else s.leftchar);
  }

  method LenientByte(d: Decoder, m: Mode, checked: bool, input: seq<byte>, source: nat, s: LenientState, sink: ScanSink,
                     ghost values: seq<byte>, ghost pads: nat)
    returns (step: LenientStep, s': LenientState, ghost values': seq<byte>, ghost pads': nat)
    requires m.padded == d.padded
    requires source < |input| && LenientAt(d.table, m, input, source, values, pads, sink)
    requires LenientTracks(d, checked, s, values, pads)
    requires !checked ==> sink.writer != null
    modifies sink.Footprint()
    ensures fresh(sink.Footprint() - old(sink.Footprint()))
    ensures LenientTracks(d, checked, s', values', pads')
    ensures step == Next ==> LenientAt(d.table, m, input, source + 1, values', pads', sink)
    ensures step == Stop ==> Scan(d.table, m, input) == Outcome(values', true) && |values'| % 4 >= 2
    ensures step == Stop ==> LenientDone(sink, values')
  {
    hide AllValid, StandardSymbol, StrictValue, AsSymbols, Decode, DecodedSymbolLen, Decoded;
    hide ScanSink.Valid;
    step, s', values', pads' := Next, s, values, pads;
    var b := input[source];
    var value := d.table(b);
    if d.padded && b == EQUALS && d.table(EQUALS) >= 64 {
      s', pads' := s.(padding := s.padding + 1), pads + 1;
      if !m.continueAfterPadding && s.quadPos >= 2 && s.quadPos + s'.padding >= 4 {
        step := Stop;
        LenientStop(d.table, m, input, source, values, pads, sink);
      }
      return;
    }
    if value >= 64 {
      return;
    }
    s', values' := LenientSymbol(d, m, checked, input, source, s, sink, values, pads);
    pads' := 0;
  }

  /** Ends a lenient scan whose values are all pushed: after complete padding only stray bits are
      left to check, at the end of the input the padding too. */
  method LenientFinish(d: Decoder, m: Mode, checked: bool, atEnd: bool, s: LenientState, sink: ScanSink,
                       ghost values: seq<byte>, ghost pads: nat)
    returns (r: Option<nat>)
    requires LenientDone(sink, values) && LenientTracks(d, checked, s, values, pads) && m.padded == d.padded
    requires !atEnd ==> |values| % 4 >= 2
    requires !checked ==> sink.writer != null && (atEnd ==> EndsWell(m, |values|, pads))
    modifies sink.Footprint()
    ensures checked ==> (r.Some? <==> (atEnd ==> EndsWell(m, |values|, pads)) && IsCanonical(d.canonical, values))
    ensures !checked ==> r.Some?
    ensures r.Some? ==> r.value == |Decode(values)| && sink.Wrote(Decode(values))
    ensures r.None? ==> sink.Within(|values|)
  {
    hide AllValid, StandardSymbol, AsSymbols, Decode, Decoded, Leftover;
    hide ScanSink.Valid, ScanSink.Wrote, ScanSink.Within, ScanSink.Stopped;
    sink.ValidWithin(|values|);
    AsSymbolsDecode(values);
    LeftoverMasks(values);
    if !atEnd {
      if checked && d.canonical && s.leftchar != 0 {
        return None;
      }
    } else if checked && (s.quadPos == 1 || (d.padded && s.quadPos != 0 && s.quadPos + s.padding < 4)
                          || (d.canonical && (s.quadPos == 2 || s.quadPos == 3) && s.leftchar != 0)) {
      return None;
    }
    r := sink.Finish(checked, DecodedSymbolLen(s.symbols));
  }

  method ScanLenient(d: Decoder, checked: bool, input: seq<byte>, sink: ScanSink, continueAfterPadding: bool)
    returns (r: Option<nat>)
    requires Consistent(d) && Fresh(sink)
    requires sink.Room(|Scan(d.table, Mode(d.padded, continueAfterPadding), input).values|)
    requires !checked ==> sink.writer != null
    requires !checked ==> Scan(d.table, Mode(d.padded, continueAfterPadding), input).accepted
    modifies sink.Footprint()
    ensures var m := Mode(d.padded, continueAfterPadding);
            && (checked ==> (r.Some? <==> LenientValues(d.table, m, d.canonical, input).Some?))
            && (!checked ==> r.Some?)
            && (r.Some? ==> r.value == |Decode(Scan(d.table, m, input).values)|)
            && (r.Some? ==> sink.Wrote(Decode(Scan(d.table, m, input).values)))
            && (r.None? ==> sink.Within(|Scan(d.table, m, input).values|))
  {
    hide AllValid, StandardSymbol, StrictValue, AsSymbols, Decode, DecodedSymbolLen, Decoded, Run;
    hide ScanSink.Valid, ScanSink.Wrote, ScanSink.Within, ScanSink.Room, LenientAt, LenientTracks, LenientDone,
         Leftover, Consistent;
    var m := Mode(d.padded, continueAfterPadding);
    var source := 0;
    var s := LenientState(0, 0, 0, 0);
    ghost var values: seq<byte>, pads := [], 0;
    LenientStart(d, checked, m, input, sink);
    while source < |input|
      invariant source <= |input| && LenientAt(d.table, m, input, source, values, pads, sink)
      invariant LenientTracks(d, checked, s, values, pads)
      invariant fresh(sink.Footprint() - old(sink.Footprint()))
      decreases |input| - source
    {
      if d.preservesAlphanumeric {
        var run := AlphanumericPrefix(input, source);
        if run != 0 {
          s, values := LenientAlphanumerics(d, m, checked, input, source, run, s, sink, values, pads);
          pads := 0;
          source := source + run;
          continue;
        }
      }
      var step;
      step, s, values, pads := LenientByte(d, m, checked, input, source, s, sink, values, pads);
      if step == Stop {
        r := LenientFinish(d, m, checked, false, s, sink, values, pads);
        return;
      }
      source := source + 1;
    }
    LenientStop(d.table, m, input, source, values, pads, sink);
    r := LenientFinish(d, m, checked, true, s, sink, values, pads);
  }

  lemma LenientStart(d: Decoder, checked: bool, m: Mode, input: seq<byte>, sink: ScanSink)
    requires Fresh(sink) && sink.Room(|Scan(d.table, m, input).values|)
    ensures LenientAt(d.table, m, input, 0, [], 0, sink)
    ensures LenientTracks(d, checked, LenientState(0, 0, 0, 0), [], 0)
  {
    AsSymbolsPush([], 0);
  }

  lemma LenientStop(t: Table, m: Mode, input: seq<byte>, source: nat, values: seq<byte>, pads: nat, sink: ScanSink)
    requires LenientAt(t, m, input, source, values, pads, sink)
    ensures LenientDone(sink, values)
    ensures source == |input| ==> Scan(t, m, input) == Outcome(values, EndsWell(m, |values|, pads))
  {
    hide AsSymbols;
    RunExtends(t, m, input, source, values, pads);
    RoomWithin(sink, |values|, |Scan(t, m, input).values|);
  }
}
