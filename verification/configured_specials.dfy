/** The strict scanner that searches for special bytes and hands everything between them to the sink,
and the proof that it reads every input as the byte-by-byte scanner does. */
module ConfiguredSpecials {
  import opened Bytes
  import opened Alphabet
  import opened Quantum
  import opened Vectors
  import opened Strict
  import opened Staging
  import opened StagingCuts
  import opened ConfiguredSpec
  import opened ConfiguredTable
  import opened ScanSinks
  import opened ConfiguredScan

  /** The bytes in front of `n` that are not ignored. */
  function Kept(t: Table, input: seq<byte>, n: nat): (k: seq<byte>)
    requires n <= |input|
    ensures |k| <= n
  {
    if n == 0 then []
    else Kept(t, input, n - 1) + (if t(input[n - 1]) == IGNORED_CONFIGURED_VALUE then [] else [input[n - 1]])
  }

  lemma {:induction false} KeptMember(t: Table, input: seq<byte>, n: nat, j: nat)
    requires n <= |input| && j < |Kept(t, input, n)|
    ensures var b := Kept(t, input, n)[j];
            t(b) != IGNORED_CONFIGURED_VALUE && exists i :: 0 <= i < n && input[i] == b
  {
    if j < |Kept(t, input, n - 1)| {
      KeptMember(t, input, n - 1, j);
    } else {
      assert input[n - 1] == Kept(t, input, n)[j];
    }
  }

  lemma {:induction false} KeptRun(t: Table, input: seq<byte>, lo: nat, hi: nat)
    requires lo <= hi <= |input|
    requires forall k :: lo <= k < hi ==> t(input[k]) != IGNORED_CONFIGURED_VALUE
    ensures Kept(t, input, hi) == Kept(t, input, lo) + input[lo..hi]
    decreases hi
  {
    if lo < hi {
      KeptRun(t, input, lo, hi - 1);
      assert input[lo..hi] == input[lo..hi - 1] + [input[hi - 1]];
    }
  }

  lemma {:induction false} KeptGrows(t: Table, input: seq<byte>, lo: nat, hi: nat)
    requires lo <= hi <= |input|
    ensures Kept(t, input, lo) <= Kept(t, input, hi)
    decreases hi
  {
    if lo < hi {
      KeptGrows(t, input, lo, hi - 1);
    }
  }

  /** Whether '=' is padding rather than data or an ignored byte. */
  predicate EqualsIsPadding(t: Table, padded: bool) {
    padded && t(EQUALS) == INVALID_CONFIGURED_VALUE
  }

  /** The data ends at the first padding byte. */
  function DataEnd(t: Table, padded: bool, input: seq<byte>, i: nat): (n: nat)
    requires i <= |input|
    ensures i <= n <= |input|
    decreases |input| - i
  {
    if i == |input| || (EqualsIsPadding(t, padded) && input[i] == EQUALS) then i else DataEnd(t, padded, input, i + 1)
  }

  lemma {:induction false} DataEndIsFirst(t: Table, padded: bool, input: seq<byte>, i: nat, k: nat)
    requires i <= |input|
    ensures var n := DataEnd(t, padded, input, i);
            && (n < |input| ==> EqualsIsPadding(t, padded) && input[n] == EQUALS)
            && (i <= k < n ==> !(EqualsIsPadding(t, padded) && input[k] == EQUALS))
    decreases |input| - i
  {
    if i < |input| && !(EqualsIsPadding(t, padded) && input[i] == EQUALS) {
      DataEndIsFirst(t, padded, input, i + 1, k);
    }
  }

  /** In front of any padding, a strict scan collects the kept bytes as long as they are symbols. */
  lemma {:induction false} StrictData(t: Table, padded: bool, input: seq<byte>, n: nat)
    requires n <= DataEnd(t, padded, input, 0)
    requires forall b: byte :: t(b) <= 65
    ensures AllSymbols(t, Kept(t, input, n)) ==>
              StrictScan(t, padded, input) == StrictRun(t, padded, input, n, Map(t, Kept(t, input, n)), 0)
    ensures !AllSymbols(t, Kept(t, input, n)) ==> StrictScan(t, padded, input).None?
  {
    if n == 0 {
      assert Map(t, []) == [];
    } else {
      StrictData(t, padded, input, n - 1);
      DataEndIsFirst(t, padded, input, 0, n - 1);
      var before, kept, b := Kept(t, input, n - 1), Kept(t, input, n), input[n - 1];
      if t(b) != IGNORED_CONFIGURED_VALUE {
        assert kept == before + [b];
        assert AllSymbols(t, kept) <==> AllSymbols(t, before) && t(b) < 64 by {
          assert kept[|before|] == b;
          assert forall k :: 0 <= k < |before| ==> kept[k] == before[k];
        }
        assert Map(t, kept) == Map(t, before) + [t(b)];
      } else {
        assert kept == before;
      }
    }
  }

  /** After padding a strict scan collects nothing. */
  lemma {:induction false} StrictTail(t: Table, padded: bool, input: seq<byte>, i: nat, values: seq<byte>, padding: nat)
    requires i <= |input| && padding > 0
    ensures var r := StrictRun(t, padded, input, i, values, padding); r.Some? ==> r.value.0 == values
    decreases |input| - i
  {
    if i < |input| && t(input[i]) >= 64 {
      if t(input[i]) == IGNORED_CONFIGURED_VALUE {
        StrictTail(t, padded, input, i + 1, values, padding);
      } else if input[i] == EQUALS && padded {
        StrictTail(t, padded, input, i + 1, values, padding + 1);
      }
    }
  }

  /** The values of a strict scan are the values of the kept data bytes. */
  lemma StrictScanKept(t: Table, padded: bool, input: seq<byte>)
    requires forall b: byte :: t(b) <= 65
    ensures var kept := Kept(t, input, DataEnd(t, padded, input, 0));
            StrictScan(t, padded, input).Some? ==>
              AllSymbols(t, kept) && StrictScan(t, padded, input).value.0 == Map(t, kept)
  {
    hide Kept;
    var n := DataEnd(t, padded, input, 0);
    StrictData(t, padded, input, n);
    DataEndIsFirst(t, padded, input, 0, 0);
    if n < |input| && AllSymbols(t, Kept(t, input, n)) {
      StrictTail(t, padded, input, n + 1, Map(t, Kept(t, input, n)), 1);
    }
  }

  /** Kept bytes without forbidden ones translate to standard symbols exactly when all are symbols. */
  lemma KeptTranslated(d: Decoder, k: seq<byte>)
    requires Translatable(d)
    requires forall j :: 0 <= j < |k| ==> d.table(k[j]) != IGNORED_CONFIGURED_VALUE && d.table(k[j]) <= 65
    requires forall j :: 0 <= j < |k| ==> d.table(k[j]) < 64 || !Searches(d.forbidden, k[j])
    ensures AllValid(Standard, Translated(d.translation, k)) <==> AllSymbols(d.table, k)
    ensures AllSymbols(d.table, k) ==> Decoded(Standard, Translated(d.translation, k)) == Decode(Map(d.table, k))
  {
    hide StrictValue, TranslateByte, Decode, Searches;
    var s := Translated(d.translation, k);
    forall j | 0 <= j < |k| ensures StrictValue(Standard, s[j]) < 64 <==> d.table(k[j]) < 64 {
    }
    if AllSymbols(d.table, k) {
      forall j | 0 <= j < |k| ensures Map(StrictTable(Standard), s)[j] == Map(d.table, k)[j] {
        assert d.table(k[j]) < 64;
      }
      assert Map(StrictTable(Standard), s) == Map(d.table, k);
    }
  }

  /** The next ignored byte, or the end of the data. */
  function NextIgnored(t: Table, input: seq<byte>, i: nat, n: nat): (e: nat)
    requires i <= n <= |input|
    ensures i <= e <= n && (e < n ==> t(input[e]) == IGNORED_CONFIGURED_VALUE)
    ensures forall k :: i <= k < e ==> t(input[k]) != IGNORED_CONFIGURED_VALUE
    decreases n - i
  {
    if i == n || t(input[i]) == IGNORED_CONFIGURED_VALUE then i else NextIgnored(t, input, i + 1, n)
  }

  lemma {:induction false} NextIgnoredIs(t: Table, input: seq<byte>, i: nat, n: nat, e: nat)
    requires i <= e <= n <= |input| && (e < n ==> t(input[e]) == IGNORED_CONFIGURED_VALUE)
    requires forall k :: i <= k < e ==> t(input[k]) != IGNORED_CONFIGURED_VALUE
    ensures e == NextIgnored(t, input, i, n)
    decreases n - i
  {
    if i < e {
      NextIgnoredIs(t, input, i + 1, n, e);
    }
  }

  /** What the fast scanner hands to its sink: the kept bytes, translated. */
  function Stream(d: Decoder, input: seq<byte>, n: nat): (s: seq<byte>)
    requires n <= |input|
    ensures |s| == |Kept(d.table, input, n)|
  {
    Translated(d.translation, Kept(d.table, input, n))
  }

  /** Where the pushes from byte `source` on end, run by run. */
  ghost function RunCuts(d: Decoder, input: seq<byte>, n: nat, source: nat, flushed: nat, staged: nat): (c: Cuts)
    requires source <= n <= |input| && staged < CONFIGURED_STAGING_CAPACITY
    requires flushed + staged == |Kept(d.table, input, source)|
    ensures c.Stages? ==> c.count < CONFIGURED_STAGING_CAPACITY && c.count <= |Stream(d, input, n)|
    decreases n - source
  {
    var e := NextIgnored(d.table, input, source, n);
    KeptGrows(d.table, input, source, n);
    if source == n then Stages(staged)
    else if e == source then RunCuts(d, input, n, source + 1, flushed, staged)
    else
      KeptRun(d.table, input, source, e);
      KeptGrows(d.table, input, e, n);
      var halt := Halt(Stream(d, input, n), d.translation.Some?, flushed, staged, e - source);
      if halt.Some? then Stops(halt.value)
      else
        var left := StagedAfter(d.translation.Some?, staged, e - source);
        RunCuts(d, input, n, e, flushed + staged + (e - source) - left, left)
  }

  lemma RunStep(d: Decoder, input: seq<byte>, n: nat, source: nat, flushed: nat, staged: nat)
    requires source < n <= |input| && staged < CONFIGURED_STAGING_CAPACITY
    requires flushed + staged == |Kept(d.table, input, source)|
    ensures var e, s := NextIgnored(d.table, input, source, n), Stream(d, input, n);
            && flushed + staged + (e - source) == |Kept(d.table, input, e)| <= |s|
            && if e == source then
                 && |Kept(d.table, input, source + 1)| == flushed + staged
                 && RunCuts(d, input, n, source, flushed, staged) == RunCuts(d, input, n, source + 1, flushed, staged)
               else
                 var halt := Halt(s, d.translation.Some?, flushed, staged, e - source);
                 var left := StagedAfter(d.translation.Some?, staged, e - source);
                 RunCuts(d, input, n, source, flushed, staged) ==
                 if halt.Some? then Stops(halt.value)
                 else RunCuts(d, input, n, e, flushed + staged + (e - source) - left, left)
  {
    hide Halt, StagedAfter, NextIgnored, Translated;
    var e := NextIgnored(d.table, input, source, n);
    KeptRun(d.table, input, source, e);
    KeptGrows(d.table, input, e, n);
  }

  /** The pushes of a whole scan. */
  ghost function ScanCuts(d: Decoder, input: seq<byte>, n: nat): (c: Cuts)
    requires n <= |input|
    ensures c.Stages? ==> c.count <= |Stream(d, input, n)|
  {
    RunCuts(d, input, n, 0, 0, 0)
  }

  /** The scan stands at byte `source` with that many symbols flushed and staged. */
  ghost predicate CutsAt(d: Decoder, input: seq<byte>, n: nat, source: nat, flushed: nat, staged: nat) {
    && source <= n <= |input| && staged < CONFIGURED_STAGING_CAPACITY
    && flushed + staged == |Kept(d.table, input, source)|
    && RunCuts(d, input, n, source, flushed, staged) == ScanCuts(d, input, n)
  }

  lemma CutsRun(d: Decoder, input: seq<byte>, n: nat, source: nat, flushed: nat, staged: nat, e: nat)
    requires CutsAt(d, input, n, source, flushed, staged) && source < e == NextIgnored(d.table, input, source, n)
    ensures flushed + staged + (e - source) == |Stream(d, input, e)| <= |Stream(d, input, n)|
    ensures Stream(d, input, e) <= Stream(d, input, n)
    ensures var halt := Halt(Stream(d, input, n), d.translation.Some?, flushed, staged, e - source);
            var left := StagedAfter(d.translation.Some?, staged, e - source);
            && halt == Halt(Stream(d, input, e), d.translation.Some?, flushed, staged, e - source)
            && (halt.Some? ==> ScanCuts(d, input, n) == Stops(halt.value))
            && (halt.None? ==> CutsAt(d, input, n, e, flushed + staged + (e - source) - left, left))
  {
    hide Kept, Translated, Halt, StagedAfter, NextIgnored;
    KeptRun(d.table, input, source, e);
    KeptGrows(d.table, input, e, n);
    var k := Kept(d.table, input, n);
    TranslatedSlices(d.translation, k, |Kept(d.table, input, e)|);
    assert k[..|Kept(d.table, input, e)|] == Kept(d.table, input, e);
    HaltPrefix(Stream(d, input, e), Stream(d, input, n), d.translation.Some?, flushed, staged, e - source);
  }

  lemma CutsSkip(d: Decoder, input: seq<byte>, n: nat, source: nat, flushed: nat, staged: nat)
    requires CutsAt(d, input, n, source, flushed, staged) && source < n
    requires d.table(input[source]) == IGNORED_CONFIGURED_VALUE
    ensures CutsAt(d, input, n, source + 1, flushed, staged)
  {
    hide Translated, Halt, StagedAfter;
  }

  lemma CutsEnd(d: Decoder, input: seq<byte>, n: nat, flushed: nat, staged: nat)
    requires CutsAt(d, input, n, n, flushed, staged)
    ensures ScanCuts(d, input, n) == Stages(staged) && flushed + staged == |Stream(d, input, n)|
  {
  }

  /** What a scan leaves in its output when it fails behind the search for forbidden bytes: the decoding of
      the symbols in front of the chunk that stopped it, and what the failing decode left; or, when the end of
      the input is at fault, of all that was flushed. */
  ghost predicate Spills(backend: Backend, d: Decoder, input: seq<byte>, n: nat, w: seq<byte>) {
    n <= |input| &&
    var s, values := Stream(d, input, n), Map(d.table, Kept(d.table, input, n));
    match ScanCuts(d, input, n)
    case Stops(c) => Halted(backend, s, c, w)
    case Stages(count) =>
      var c := Chunk(|s| - count, count);
      && (Halted(backend, s, c, w) || Pushed(s, c.start, w))
      && (!d.padded && StrictEnd(false, d.canonical, values, 0) ==> Halted(backend, s, c, w))
      && (!d.padded && !StrictEnd(false, d.canonical, values, 0) ==> Pushed(s, c.start, w))
  }

  /** The same, with that search: it fails before anything is pushed. */
  ghost predicate Spilled(backend: Backend, d: Decoder, input: seq<byte>, w: seq<byte>) {
    var n := DataEnd(d.table, d.padded, input, 0);
    if HasForbidden(d, input, n) then w == [] else Spills(backend, d, input, n, w)
  }

  predicate HasForbidden(d: Decoder, input: seq<byte>, n: nat)
    requires n <= |input|
  {
    exists k :: 0 <= k < n && Searches(d.forbidden, input[k])
  }

  /** The fast scanner stands at byte `source` of the data. */
  ghost predicate SpecialsAt(d: Decoder, input: seq<byte>, n: nat, source: nat, symbols: nat, lastValue: byte,
                             sink: ScanSink)
    reads sink, sink.Footprint()
  {
    && source <= n <= |input|
    && sink.Valid() && sink.translation == d.translation && sink.Room(|Kept(d.table, input, n)|)
    && sink.pushed == Translated(d.translation, Kept(d.table, input, source))
    && symbols == |Kept(d.table, input, source)|
    && (symbols > 0 ==> lastValue == d.table(Kept(d.table, input, source)[symbols - 1]))
  }

  /** No forbidden byte is in the data, or the data is known to be valid. */
  ghost predicate DataAllowed(d: Decoder, checked: bool, input: seq<byte>, n: nat) {
    n <= |input| &&
    if checked then forall k :: 0 <= k < n ==> !Searches(d.forbidden, input[k])
    else AllSymbols(d.table, Kept(d.table, input, n))
  }

  lemma KeptAllowed(d: Decoder, checked: bool, input: seq<byte>, n: nat, m: nat)
    requires m <= n && Consistent(d) && Translatable(d) && DataAllowed(d, checked, input, n)
    ensures var k := Kept(d.table, input, m);
            && |k| <= |Kept(d.table, input, n)|
            && (!checked ==> AllSymbols(d.table, k))
            && (AllValid(Standard, Translated(d.translation, k)) <==> AllSymbols(d.table, k))
            && (AllSymbols(d.table, k) ==> Decoded(Standard, Translated(d.translation, k)) == Decode(Map(d.table, k)))
  {
    hide Kept, AllValid, Decoded, Decode, Translated, Searches;
    KeptGrows(d.table, input, m, n);
    var k := Kept(d.table, input, m);
    forall j | 0 <= j < |k|
      ensures d.table(k[j]) != IGNORED_CONFIGURED_VALUE
      ensures d.table(k[j]) < 64 || !Searches(d.forbidden, k[j])
    {
      KeptMember(d.table, input, m, j);
      if !checked {
        assert k[j] == Kept(d.table, input, n)[j];
      }
    }
    KeptTranslated(d, k);
  }

  /** The bytes up to the next special one go to the sink. */
  method SpecialsRun(d: Decoder, checked: bool, input: seq<byte>, n: nat, source: nat, runEnd: nat, symbols: nat,
                     lastValue: byte, sink: ScanSink)
    returns (ok: bool, symbols': nat, lastValue': byte)
    requires Consistent(d) && Translatable(d) && DataAllowed(d, checked, input, n) && source < runEnd <= n
    requires forall k :: source <= k < runEnd ==> d.table(input[k]) != IGNORED_CONFIGURED_VALUE
    requires SpecialsAt(d, input, n, source, symbols, lastValue, sink)
    requires !checked ==> sink.writer != null
    modifies sink.Footprint()
    ensures fresh(sink.Footprint() - old(sink.Footprint()))
    ensures ok ==> SpecialsAt(d, input, n, runEnd, symbols', lastValue', sink)
    ensures !ok ==> checked && !AllSymbols(d.table, Kept(d.table, input, runEnd))
    ensures sink.translation == d.translation
    ensures sink.Pushes(Stream(d, input, runEnd), old(sink.Flushed()), old(sink.Staged()), runEnd - source, ok)
  {
    hide Kept, AllValid, Decoded, Decode, Translated, Searches, DecodedSymbolLen, TranslateByte;
    hide ScanSink.Valid, ScanSink.Pushes;
    var x := input[source..runEnd];
    KeptRun(d.table, input, source, runEnd);
    KeptAllowed(d, checked, input, n, runEnd);
    TranslatedConcat(d.translation, Kept(d.table, input, source), x);
    RoomWithin(sink, |Kept(d.table, input, runEnd)|, |Kept(d.table, input, n)|);
    ok := sink.PushSymbols(checked, x, true);
    symbols', lastValue' := symbols + |x|, d.table(input[runEnd - 1]);
  }

  method FindDataEnd(d: Decoder, input: seq<byte>) returns (n: nat)
    ensures n == DataEnd(d.table, d.padded, input, 0)
  {
    n := 0;
    if d.padded && d.table(EQUALS) == INVALID_CONFIGURED_VALUE {
      while n < |input| && input[n] != EQUALS
        invariant n <= |input| && DataEnd(d.table, d.padded, input, n) == DataEnd(d.table, d.padded, input, 0)
      {
        n := n + 1;
      }
    } else {
      n := |input|;
      DataEndIsFirst(d.table, d.padded, input, 0, 0);
    }
  }

  /** A forbidden byte in the data fails the scan. */
  lemma ForbiddenData(d: Decoder, input: seq<byte>, n: nat, bad: nat)
    requires Consistent(d) && Translatable(d) && bad < n == DataEnd(d.table, d.padded, input, 0)
    requires Searches(d.forbidden, input[bad])
    ensures StrictScan(d.table, d.padded, input).None?
  {
    hide Kept, StrictRun;
    KeptRun(d.table, input, bad, bad + 1);
    StrictData(d.table, d.padded, input, bad + 1);
    var k := Kept(d.table, input, bad + 1);
    assert k[|k| - 1] == input[bad];
  }

  lemma SpecialsStart(d: Decoder, input: seq<byte>, n: nat, sink: ScanSink)
    requires n <= |input| && sink.Valid() && sink.pushed == [] && sink.translation == d.translation
    requires sink.Room(|Kept(d.table, input, n)|)
    ensures SpecialsAt(d, input, n, 0, 0, 0, sink)
  {
  }

  /** Where the bytes that need no attention end. */
  method NextSpecial(d: Decoder, input: seq<byte>, source: nat, n: nat) returns (runEnd: nat)
    requires Translatable(d) && d.specials.Few? && source <= n <= |input|
    ensures source <= runEnd <= n
    ensures forall k :: source <= k < runEnd ==> d.table(input[k]) != IGNORED_CONFIGURED_VALUE
    ensures runEnd < n ==> d.table(input[runEnd]) == IGNORED_CONFIGURED_VALUE
    ensures runEnd == NextIgnored(d.table, input, source, n)
  {
    hide Searches, NextIgnored;
    var special := Find(d.specials, input, source, n);
    runEnd := if special.None? then n else special.value;
    NextIgnoredIs(d.table, input, source, n, runEnd);
  }

  lemma SpecialsSkip(d: Decoder, input: seq<byte>, n: nat, source: nat, symbols: nat, lastValue: byte, sink: ScanSink)
    requires SpecialsAt(d, input, n, source, symbols, lastValue, sink)
    requires source < n && d.table(input[source]) == IGNORED_CONFIGURED_VALUE
    ensures SpecialsAt(d, input, n, source + 1, symbols, lastValue, sink)
  {
    assert Kept(d.table, input, source + 1) == Kept(d.table, input, source);
  }

  /** How a scan fails whose pushes all succeeded. */
  ghost predicate Fails(d: Decoder, input: seq<byte>, n: nat, flushed: nat, staged: nat, sink: ScanSink)
    reads sink, sink.Footprint()
  {
    n <= |input| &&
    var s, c := Stream(d, input, n), Chunk(flushed, staged);
    var finished := StrictEnd(false, d.canonical, Map(d.table, Kept(d.table, input, n)), 0);
    sink.writer != null ==>
      && sink.writer.Holds() && flushed + staged == |s|
      && (sink.Stopped(s, c) || Pushed(s, flushed, sink.writer.stored))
      && (!d.padded && finished ==> sink.Stopped(s, c))
      && (!d.padded && !finished ==> Pushed(s, flushed, sink.writer.stored))
  }

  lemma EndFails(d: Decoder, input: seq<byte>, n: nat, flushed: nat, staged: nat, padding: nat, sink: ScanSink)
    requires n <= |input| && (sink.writer != null ==> flushed + staged == |Stream(d, input, n)|)
    requires if StrictEnd(d.padded, d.canonical, Map(d.table, Kept(d.table, input, n)), padding) then
               sink.Stopped(Stream(d, input, n), Chunk(flushed, staged))
             else
               sink.Valid() && sink.pushed == Stream(d, input, n) && sink.Flushed() == flushed
    ensures Fails(d, input, n, flushed, staged, sink)
  {
    hide Stream, Kept, Halted, Pushed, IsCanonical, AllValid, Translated, Store;
    if sink.writer != null && !StrictEnd(d.padded, d.canonical, Map(d.table, Kept(d.table, input, n)), padding) {
      sink.PushedSoFar(flushed);
    }
  }

  lemma TailFails(d: Decoder, input: seq<byte>, n: nat, sink: ScanSink)
    requires n <= |input| && d.padded && sink.Valid() && sink.pushed == Stream(d, input, n)
    ensures Fails(d, input, n, sink.Flushed(), sink.Staged(), sink)
  {
    hide Stream, Kept, Halted, Pushed, IsCanonical, AllValid, Translated, Store;
    if sink.writer != null {
      sink.PushedSoFar(sink.Flushed());
    }
  }

  /** All data is pushed: the rest of the input is padding and ignored bytes, or an error. */
  method SpecialsEnd(d: Decoder, checked: bool, input: seq<byte>, n: nat, symbols: nat, lastValue: byte, sink: ScanSink)
    returns (r: Option<nat>)
    requires Consistent(d) && Translatable(d) && DataAllowed(d, checked, input, n)
    requires n == DataEnd(d.table, d.padded, input, 0) && SpecialsAt(d, input, n, n, symbols, lastValue, sink)
    requires !checked ==> sink.writer != null && StrictScan(d.table, d.padded, input).Some?
    requires !checked ==> |StrictScan(d.table, d.padded, input).value.0| % 4 != 1
    modifies sink.Footprint()
    ensures checked ==> (r.Some? <==> StrictValues(d.table, d.padded, d.canonical, input).Some?)
    ensures !checked ==> r.Some?
    ensures r.Some? ==> StrictScan(d.table, d.padded, input).Some?
    ensures r.Some? ==> r.value == |Decode(StrictScan(d.table, d.padded, input).value.0)|
    ensures r.Some? ==> sink.Wrote(Decode(StrictScan(d.table, d.padded, input).value.0))
    ensures r.None? ==> Fails(d, input, n, old(sink.Flushed()), old(sink.Staged()), sink)
  {
    hide Kept, AllValid, Decoded, Decode, Translated, Searches, DecodedSymbolLen, TranslateByte, StrictEnd;
    hide ScanSink.Valid, ScanSink.Wrote, ScanSink.Stopped, ScanSink.Within, Fails;
    if sink.writer != null {
      sink.PushedSoFar(sink.Flushed());
    }
    ghost var kept := Kept(d.table, input, n);
    ghost var values := Map(d.table, kept);
    KeptAllowed(d, checked, input, n, n);
    StrictScanKept(d.table, d.padded, input);
    StrictData(d.table, d.padded, input, n);
    DataEndIsFirst(d.table, d.padded, input, 0, 0);
    var padding := 0;
    if checked {
      var k := n;
      while k < |input|
        invariant n <= k <= |input| && (padding > 0 <==> k > n)
        invariant AllSymbols(d.table, kept) ==>
                    StrictRun(d.table, d.padded, input, k, values, padding) == StrictScan(d.table, d.padded, input)
      {
        var b := input[k];
        if b == EQUALS {
          padding := padding + 1;
        } else if d.table(b) < 64 || d.table(b) != IGNORED_CONFIGURED_VALUE {
          TailFails(d, input, n, sink);
          return None;
        }
        k := k + 1;
      }
    }
    ghost var flushed, staged := sink.Flushed(), sink.Staged();
    r := FinishStrict(d, checked, sink, symbols, padding, lastValue, values, padding);
    if r.None? {
      EndFails(d, input, n, flushed, staged, padding, sink);
    }
  }

  lemma RunFails(d: Decoder, input: seq<byte>, n: nat)
    requires Consistent(d) && n <= DataEnd(d.table, d.padded, input, 0) && !AllSymbols(d.table, Kept(d.table, input, n))
    ensures StrictScan(d.table, d.padded, input).None?
  {
    StrictData(d.table, d.padded, input, n);
  }

  lemma CutsFirst(d: Decoder, input: seq<byte>, n: nat, sink: ScanSink)
    requires SpecialsAt(d, input, n, 0, 0, 0, sink)
    ensures sink.writer != null ==> CutsAt(d, input, n, 0, sink.Flushed(), sink.Staged())
  {
    hide Translated, AllValid, Decoded, Store;
  }

  /** One run was handed over. */
  lemma RunCut(d: Decoder, input: seq<byte>, n: nat, source: nat, e: nat, flushed: nat, staged: nat, ok: bool,
               symbols: nat, lastValue: byte, sink: ScanSink)
    requires sink.writer != null ==> CutsAt(d, input, n, source, flushed, staged)
    requires source < e <= n <= |input| && e == NextIgnored(d.table, input, source, n)
    requires sink.Pushes(Stream(d, input, e), flushed, staged, e - source, ok) && sink.translation == d.translation
    requires ok ==> SpecialsAt(d, input, n, e, symbols, lastValue, sink)
    ensures sink.writer != null && ok ==> CutsAt(d, input, n, e, sink.Flushed(), sink.Staged())
    ensures sink.writer != null && !ok ==>
              ScanCuts(d, input, n).Stops? && sink.Stopped(Stream(d, input, n), ScanCuts(d, input, n).chunk)
  {
    hide Translated, AllValid, Decoded, Store, Halt, StagedAfter, Halted, NextIgnored, Kept, CutsAt, ScanCuts, RunCuts,
         Stream;
    if sink.writer != null {
      CutsRun(d, input, n, source, flushed, staged, e);
      if ok {
        sink.PushedSoFar(sink.Flushed());
      } else {
        var c := ScanCuts(d, input, n).chunk;
        HaltedPrefix(sink.writer.backend, Stream(d, input, e), Stream(d, input, n), c, sink.writer.stored);
      }
    }
  }

  /** Hands all data between special bytes to the sink. */
  method SpecialsLoop(d: Decoder, checked: bool, input: seq<byte>, n: nat, sink: ScanSink)
    returns (ok: bool, symbols: nat, lastValue: byte)
    requires Consistent(d) && Translatable(d) && d.specials.Few? && DataAllowed(d, checked, input, n)
    requires SpecialsAt(d, input, n, 0, 0, 0, sink) && n == DataEnd(d.table, d.padded, input, 0)
    requires !checked ==> sink.writer != null
    modifies sink.Footprint()
    ensures fresh(sink.Footprint() - old(sink.Footprint()))
    ensures ok ==> SpecialsAt(d, input, n, n, symbols, lastValue, sink)
    ensures !ok ==> checked && StrictScan(d.table, d.padded, input).None?
    ensures sink.writer != null && ok ==> CutsAt(d, input, n, n, sink.Flushed(), sink.Staged())
    ensures sink.writer != null && !ok ==>
              ScanCuts(d, input, n).Stops? && sink.Stopped(Stream(d, input, n), ScanCuts(d, input, n).chunk)
  {
    hide Kept, StrictScan, Consistent, Translatable, DataAllowed, SpecialsAt, DataEnd, AllSymbols, CutsAt, ScanCuts,
         RunCuts;
    hide Stream, NextIgnored, StagedAfter, Halt;
    hide ScanSink.Pushes, ScanSink.Stopped;
    ok, symbols, lastValue := true, 0, 0;
    var source := 0;
    CutsFirst(d, input, n, sink);
    while source < n
      invariant source <= n && SpecialsAt(d, input, n, source, symbols, lastValue, sink)
      invariant sink.writer != null ==> CutsAt(d, input, n, source, sink.Flushed(), sink.Staged())
      invariant fresh(sink.Footprint() - old(sink.Footprint()))
      decreases n - source
    {
      var runEnd := NextSpecial(d, input, source, n);
      if source != runEnd {
        ghost var flushed, staged := sink.Flushed(), sink.Staged();
        ok, symbols, lastValue := SpecialsRun(d, checked, input, n, source, runEnd, symbols, lastValue, sink);
        RunCut(d, input, n, source, runEnd, flushed, staged, ok, symbols, lastValue, sink);
        if !ok {
          RunFails(d, input, runEnd);
          return;
        }
      }
      source := runEnd;
      if source != n {
        if sink.writer != null {
          CutsSkip(d, input, n, source, sink.Flushed(), sink.Staged());
        }
        SpecialsSkip(d, input, n, source, symbols, lastValue, sink);
        source := source + 1;
      }
    }
  }

  /** What the scan may rely on at its start. */
  lemma SpecialsApply(d: Decoder, checked: bool, input: seq<byte>, n: nat)
    requires Consistent(d) && UsesSpecials(d) && n == DataEnd(d.table, d.padded, input, 0)
    requires !checked ==> StrictScan(d.table, d.padded, input).Some?
    ensures Translatable(d)
    ensures !checked ==> DataAllowed(d, checked, input, n)
    ensures checked && (forall k :: 0 <= k < n ==> !Searches(d.forbidden, input[k])) ==>
              DataAllowed(d, checked, input, n)
  {
    hide Kept, Searches;
    StrictScanKept(d.table, d.padded, input);
  }

  lemma NothingSpilled(d: Decoder, input: seq<byte>, n: nat, bad: nat, sink: ScanSink)
    requires sink.Valid() && sink.pushed == [] && bad < n == DataEnd(d.table, d.padded, input, 0)
    requires Searches(d.forbidden, input[bad])
    ensures sink.writer != null ==> sink.writer.Holds() && Spilled(sink.writer.backend, d, input, sink.writer.stored)
  {
    hide Searches, Spills, Store, Translated, AllValid;
  }

  lemma StopSpilled(d: Decoder, input: seq<byte>, n: nat, sink: ScanSink)
    requires n == DataEnd(d.table, d.padded, input, 0) && !HasForbidden(d, input, n)
    requires sink.writer != null ==>
               ScanCuts(d, input, n).Stops? && sink.Stopped(Stream(d, input, n), ScanCuts(d, input, n).chunk)
    ensures sink.writer != null ==> sink.writer.Holds() && Spilled(sink.writer.backend, d, input, sink.writer.stored)
  {
    hide HasForbidden, ScanCuts, Stream, Halted, Kept, DataEnd;
  }

  lemma EndSpilled(d: Decoder, input: seq<byte>, n: nat, flushed: nat, staged: nat, sink: ScanSink)
    requires n == DataEnd(d.table, d.padded, input, 0) && !HasForbidden(d, input, n)
    requires sink.writer != null ==> CutsAt(d, input, n, n, flushed, staged)
    requires Fails(d, input, n, flushed, staged, sink)
    ensures sink.writer != null ==> sink.writer.Holds() && Spilled(sink.writer.backend, d, input, sink.writer.stored)
  {
    hide HasForbidden, Stream, Halted, Kept, DataEnd, ScanCuts, CutsAt, Pushed;
    if sink.writer != null {
      CutsEnd(d, input, n, flushed, staged);
    }
  }

  method ScanStrictSpecials(d: Decoder, checked: bool, input: seq<byte>, sink: ScanSink) returns (r: Option<nat>)
    requires Consistent(d) && UsesSpecials(d) && Fresh(sink)
    requires sink.Room(|Kept(d.table, input, DataEnd(d.table, d.padded, input, 0))|)
    requires !checked ==> sink.writer != null && StrictScan(d.table, d.padded, input).Some?
    requires !checked ==> |StrictScan(d.table, d.padded, input).value.0| % 4 != 1
    modifies sink.Footprint()
    ensures checked ==> (r.Some? <==> StrictValues(d.table, d.padded, d.canonical, input).Some?)
    ensures !checked ==> r.Some?
    ensures r.Some? ==> StrictScan(d.table, d.padded, input).Some?
    ensures r.Some? ==> r.value == |Decode(StrictScan(d.table, d.padded, input).value.0)|
    ensures r.Some? ==> sink.Wrote(Decode(StrictScan(d.table, d.padded, input).value.0))
    ensures r.None? && sink.writer != null ==>
              sink.writer.Holds() && Spilled(sink.writer.backend, d, input, sink.writer.stored)
  {
    hide Kept, AllValid, Decoded, Decode, Translated, Searches, DecodedSymbolLen, TranslateByte, StrictRun, StrictEnd;
    hide CutsAt, ScanCuts, Stream, Spilled, Fails;
    hide ScanSink.Valid, ScanSink.Wrote, ScanSink.Stopped, ScanSink.Room, SpecialsAt, Consistent, Translatable,
         StrictScan;
    hide DataEnd, AllSymbols, DataAllowed;
    var n := FindDataEnd(d, input);
    SpecialsApply(d, checked, input, n);
    sink.SetTranslation(d.translation);
    if checked {
      var bad := Find(d.forbidden, input, 0, n);
      if bad.Some? {
        ForbiddenData(d, input, n, bad.value);
        NothingSpilled(d, input, n, bad.value, sink);
        return None;
      }
    }
    SpecialsStart(d, input, n, sink);
    var ok, symbols, lastValue := SpecialsLoop(d, checked, input, n, sink);
    if !ok {
      StopSpilled(d, input, n, sink);
      return None;
    }
    ghost var flushed, staged := sink.Flushed(), sink.Staged();
    r := SpecialsEnd(d, checked, input, n, symbols, lastValue, sink);
    if r.None? {
      EndSpilled(d, input, n, flushed, staged, sink);
    }
  }
}
