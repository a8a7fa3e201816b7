/** Round trips between the encoder's texts and every decoder's meaning. */
module RoundTrip {
  import opened Bytes
  import opened Alphabet
  import opened Quantum
  import opened Vectors
  import opened Strict
  import opened StrictApi
  import opened LenientSpec
  import LenientApi
  import opened ConfiguredSpec
  import opened ConfiguredPlain
  import opened ConfiguredSpecials
  import opened DriverSpec
  import opened Driver
  import opened EncodeSpec
  import opened EncodeApi

  /** The table reads every symbol back. */
  ghost predicate ReadsBack(sym: Table, t: Table) {
    forall v: byte :: v < 64 ==> t(sym(v)) == v
  }

  /** The table reads every symbol back, and '=' is not one. */
  ghost predicate UnlikePadding(sym: Table, t: Table) {
    ReadsBack(sym, t) && t(EQUALS) >= 64
  }

  /** The table reads every symbol back, and neither padding nor newline is a symbol. */
  ghost predicate Inverse(sym: Table, t: Table) {
    UnlikePadding(sym, t) && t(NEWLINE) >= 64
  }

  lemma SymbolsReadBack(sym: Table, t: Table, s: seq<byte>)
    requires ReadsBack(sym, t)
    ensures Map(t, Symbols(sym, s)) == Values(s) && AllSymbols(t, Symbols(sym, s))
    ensures forall b: byte :: t(b) >= 64 ==> b !in Symbols(sym, s)
  {
    hide Values;
    ValuesSextets(s);
    var values, x := Values(s), Symbols(sym, s);
    forall k | 0 <= k < |x| ensures t(x[k]) == values[k] {
      var v := values[k];
      assert v < 64;
    }
    assert Map(t, x) == values;
    forall k | 0 <= k < |x| ensures t(x[k]) < 64 {
      assert t(x[k]) == values[k] < 64;
    }
  }

  /** The padding of an encoding is what the decoder's layout finds. */
  lemma EncodedLayout(sym: Table, t: Table, s: seq<byte>)
    requires UnlikePadding(sym, t)
    ensures var x := Encoded(sym, true, s);
            && |x| % 4 == 0 && TrailingPadding(x) == |Pads(|s|)|
            && x[..|x| - TrailingPadding(x)] == Symbols(sym, s)
  {
    hide Values;
    SymbolsReadBack(sym, t, s);
    var x, data := Encoded(sym, true, s), Symbols(sym, s);
    assert x == data + Pads(|s|);
    if data != [] {
      assert x[|data| - 1] == data[|data| - 1] && data[|data| - 1] in data;
    }
  }

  // ----- strict -----

  predicate Reads(a: DecodeAlphabet, urlsafe: bool) {
    a == Mixed || (a == UrlSafe <==> urlsafe)
  }

  function EncodeTable(urlsafe: bool): Table {
    (v: byte) => if urlsafe then UrlSafeSymbol(v) else StandardSymbol(v)
  }

  lemma StrictInverse(a: DecodeAlphabet, urlsafe: bool)
    requires Reads(a, urlsafe)
    ensures Inverse(EncodeTable(urlsafe), StrictTable(a))
  {
    hide StandardSymbol, UrlSafeSymbol;
    forall v: byte | v < 64
      ensures StrictTable(a)(EncodeTable(urlsafe)(v)) == v
    {
      SymbolValueInverse(v);
    }
  }

  /** Strict decoding of an encoding is the identity, padded and unpadded, for either alphabet. */
  lemma StrictOfEncoded(a: DecodeAlphabet, urlsafe: bool, s: seq<byte>)
    requires Reads(a, urlsafe)
    ensures StrictPadded(a, Encoded(EncodeTable(urlsafe), true, s)) == Some(s)
    ensures StrictUnpadded(a, Encoded(EncodeTable(urlsafe), false, s)) == Some(s)
    ensures B64DecodedLen(Encoded(EncodeTable(urlsafe), true, s)) == Some(|s|)
  {
    hide Values, Decode, StrictValue, EncodeTable;
    var sym := EncodeTable(urlsafe);
    var data := Symbols(sym, s);
    StrictInverse(a, urlsafe);
    SymbolsReadBack(sym, StrictTable(a), s);
    EncodedLayout(sym, StrictTable(a), s);
    DecodeValues(s);
    EncodedLengths(|s|);
    AllSymbolsValid(a, data);
    assert Encoded(sym, false, s) == data;
    var x := Encoded(sym, true, s);
    ValidSlice(a, x, 0, |data|);
    assert x[0..|data|] == data;
    DecodedLenIsExact(a, x);
  }

  lemma AllSymbolsValid(a: DecodeAlphabet, s: seq<byte>)
    requires AllSymbols(StrictTable(a), s)
    ensures AllValid(a, s)
  {
    hide StrictValue;
    forall k | 0 <= k < |s| ensures StrictValue(a, s[k]) < 64 {
      assert StrictTable(a)(s[k]) < 64;
    }
  }

  /** Encoding a strict decoding gives the text back exactly when its unused bits are zero. */
  lemma EncodedOfStrict(a: DecodeAlphabet, x: seq<byte>)
    requires a != Mixed && StrictPadded(a, x).Some?
    ensures (Encoded(EncodeTable(a == UrlSafe), true, StrictPadded(a, x).value) == x)
            == (Leftover(Map(StrictTable(a), x[..|x| - TrailingPadding(x)])) == 0)
  {
    hide Values, Decode, StrictValue, EncodeTable, Leftover;
    var sym, n := EncodeTable(a == UrlSafe), |x| - TrailingPadding(x);
    var data, d := x[..n], StrictPadded(a, x).value;
    ValidSlice(a, x, 0, n);
    assert x[0..n] == data;
    SymbolsOfDecoded(a, data);
    PaddingOfLength(n);
    assert x == data + Pads(|d|);
    var y := Encoded(sym, true, d);
    if y == x {
      assert Symbols(sym, d) == y[..n] == data;
    }
  }

  /** The same without padding. */
  lemma EncodedOfStrictUnpadded(a: DecodeAlphabet, x: seq<byte>)
    requires a != Mixed && StrictUnpadded(a, x).Some?
    ensures (Encoded(EncodeTable(a == UrlSafe), false, StrictUnpadded(a, x).value) == x)
            == (Leftover(Map(StrictTable(a), x)) == 0)
  {
    hide Values, Decode, StrictValue, EncodeTable, Leftover;
    var sym, d := EncodeTable(a == UrlSafe), StrictUnpadded(a, x).value;
    SymbolsOfDecoded(a, x);
    assert Encoded(sym, false, d) == Symbols(sym, d);
  }

  /** The symbols of what some symbols decode to are these symbols exactly when no bits are left over. */
  lemma SymbolsOfDecoded(a: DecodeAlphabet, data: seq<byte>)
    requires a != Mixed && AllValid(a, data) && |data| % 4 != 1
    ensures |Symbols(EncodeTable(a == UrlSafe), Decoded(a, data))| == |data|
    ensures (Symbols(EncodeTable(a == UrlSafe), Decoded(a, data)) == data) == (Leftover(Map(StrictTable(a), data)) == 0)
  {
    hide Values, Decode, StrictValue, EncodeTable, Leftover;
    var sym, values, d := EncodeTable(a == UrlSafe), Map(StrictTable(a), data), Decoded(a, data);
    forall k | 0 <= k < |data| ensures values[k] < 64 && sym(values[k]) == data[k] {
      assert StrictValue(a, data[k]) < 64;
      SymbolOfValue(a, data[k]);
    }
    ValuesDecode(values);
    assert Map(sym, values) == data;
    PaddingOfLength(|data|);
    ValuesSextets(d);
    if Symbols(sym, d) == data {
      SameSymbols(a, Values(d), values);
    }
  }

  lemma SymbolOfValue(a: DecodeAlphabet, b: byte)
    requires a != Mixed && StrictValue(a, b) < 64
    ensures EncodeTable(a == UrlSafe)(StrictValue(a, b)) == b
  {
    ValueSymbolInverse(b);
  }

  lemma PaddingOfLength(n: nat)
    requires n % 4 != 1
    ensures |Pads(DecodedSymbolLen(n))| == if n % 4 == 0 then 0 else 4 - n % 4
    ensures UnpaddedLen(DecodedSymbolLen(n)) == n
  {
  }

  lemma SameSymbols(a: DecodeAlphabet, v: seq<byte>, w: seq<byte>)
    requires a != Mixed && Sextets(v) && Sextets(w)
    requires Map(EncodeTable(a == UrlSafe), v) == Map(EncodeTable(a == UrlSafe), w)
    ensures v == w
  {
    hide StandardSymbol, UrlSafeSymbol;
    var sym := EncodeTable(a == UrlSafe);
    assert |v| == |Map(sym, v)| == |w|;
    forall k | 0 <= k < |v| ensures v[k] == w[k] {
      assert sym(v[k]) == Map(sym, v)[k] == Map(sym, w)[k] == sym(w[k]);
      SymbolValueInverse(v[k]);
      SymbolValueInverse(w[k]);
    }
  }

  // ----- line breaks -----

  function Stripped(x: seq<byte>): seq<byte> {
    if x == [] then [] else (if x[0] == NEWLINE then [] else [x[0]]) + Stripped(x[1..])
  }

  lemma {:induction false} StrippedConcat(x: seq<byte>, y: seq<byte>)
    ensures Stripped(x + y) == Stripped(x) + Stripped(y)
  {
    if x == [] {
      assert x + y == y;
    } else {
      assert (x + y)[1..] == x[1..] + y;
      StrippedConcat(x[1..], y);
      ConcatAssociates(if x[0] == NEWLINE then [] else [x[0]], Stripped(x[1..]), Stripped(y));
    }
  }

  lemma {:induction false} StrippedNothing(x: seq<byte>)
    requires NEWLINE !in x
    ensures Stripped(x) == x
  {
    if x != [] {
      StrippedNothing(x[1..]);
    }
  }

  /** Taking the newlines out of a wrapped text gives the text. */
  lemma {:induction false} StrippedWrapped(x: seq<byte>, width: nat)
    requires width > 0 && NEWLINE !in x
    ensures Stripped(Wrapped(x, width)) == x
    decreases |x|
  {
    if |x| <= width {
      StrippedNothing(x);
    } else {
      var line, rest := x[..width], x[width..];
      StrippedWrapped(rest, width);
      StrippedNothing(line);
      StrippedConcat(line + [NEWLINE], Wrapped(rest, width));
      StrippedConcat(line, [NEWLINE]);
      assert Stripped([NEWLINE]) == [];
      assert line + [] + rest == x;
    }
  }

  /** Newlines do not matter to a lenient scan. */
  lemma {:induction false} ScanIgnoresNewlines(t: Table, m: Mode, x: seq<byte>, values: seq<byte>, pads: nat)
    requires t(NEWLINE) >= 64
    ensures Run(t, m, x, 0, values, pads) == Run(t, m, Stripped(x), 0, values, pads)
    decreases |x|
  {
    if x == [] {
    } else {
      var b, y := x[0], Stripped(x);
      if b == NEWLINE {
        assert y == Stripped(x[1..]);
        LenientApi.RunShift(t, m, x, 1, 0, values, pads);
        ScanIgnoresNewlines(t, m, x[1..], values, pads);
      } else {
        assert y[0] == b && y[1..] == Stripped(x[1..]);
        var values', pads' := if t(b) < 64 then values + [t(b)] else values,
                              if t(b) < 64 then 0 else if m.padded && b == EQUALS then pads + 1 else pads;
        LenientApi.RunShift(t, m, x, 1, 0, values', pads');
        LenientApi.RunShift(t, m, y, 1, 0, values', pads');
        ScanIgnoresNewlines(t, m, x[1..], values', pads');
      }
    }
  }

  /** Lenient decoding of an encoding, with or without line breaks, is the identity: padded text under any
      policy, unpadded text where padding is not required. */
  lemma LenientOfEncoded(sym: Table, t: Table, padded: bool, m: Mode, width: nat, s: seq<byte>)
    requires Inverse(sym, t) && (padded || !m.padded) && width > 0
    ensures LenientMeaning(t, m, Encoded(sym, padded, s)) == Some(s)
    ensures LenientMeaning(t, m, Wrapped(Encoded(sym, padded, s), width)) == Some(s)
  {
    hide Values, Decode, Run, Wrapped, Inverse;
    var x := Encoded(sym, padded, s);
    InverseNewline(sym, t);
    EncodedScan(sym, t, padded, m, s);
    DecodeValues(s);
    SymbolsReadBack(sym, t, s);
    assert NEWLINE !in x;
    ScanIgnoresNewlines(t, m, Wrapped(x, width), [], 0);
    StrippedWrapped(x, width);
  }

  lemma InverseNewline(sym: Table, t: Table)
    requires Inverse(sym, t)
    ensures t(NEWLINE) >= 64 && UnlikePadding(sym, t) && ReadsBack(sym, t)
  {
  }

  lemma EncodedScan(sym: Table, t: Table, padded: bool, m: Mode, s: seq<byte>)
    requires ReadsBack(sym, t) && if padded then UnlikePadding(sym, t) else !m.padded
    ensures Scan(t, m, Encoded(sym, padded, s)) == Outcome(Values(s), true)
  {
    hide Values, Run;
    SymbolsReadBack(sym, t, s);
    if padded {
      EncodedLayout(sym, t, s);
      LenientOfPadded(t, m, Encoded(sym, padded, s));
    } else {
      EncodedLengths(|s|);
      assert Encoded(sym, false, s) == Symbols(sym, s);
      LenientOfUnpadded(t, m.continueAfterPadding, Symbols(sym, s));
    }
  }

  // ----- every policy -----

  /** Altchars that the decoder can tell from each other, from the other symbols, and from padding if there is any. */
  predicate RoundTrips(alt: Altchars, padded: bool) {
    alt.Altchars? ==>
      && alt.plus != alt.slash && !IsAlphanumeric(alt.plus) && !IsAlphanumeric(alt.slash)
      && (padded ==> alt.plus != EQUALS && alt.slash != EQUALS)
  }

  function AltTable(alt: Altchars): Table {
    (v: byte) => AltSymbol(alt, v)
  }

  lemma AltReadsBack(alt: Altchars, padded: bool)
    requires RoundTrips(alt, padded)
    ensures ReadsBack(AltTable(alt), LenientTable(alt))
    ensures padded ==> UnlikePadding(AltTable(alt), LenientTable(alt))
  {
    forall v: byte | v < 64 ensures LenientTable(alt)(AltTable(alt)(v)) == v {
      AltSymbolReads(alt, padded, v);
    }
  }

  lemma AltSymbolReads(alt: Altchars, padded: bool, v: byte)
    requires RoundTrips(alt, padded) && v < 64
    ensures LenientValue(alt, AltSymbol(alt, v)) == v
  {
  }

  /** Whatever the policy — strict or lenient, padded or not, canonical or not — decoding what the encoder
      writes for the same altchars and padding gives the bytes back. */
  lemma EncodedMeaning(p: Policy, continueAfterPadding: bool, s: seq<byte>)
    requires IgnoresNothing(p) && RoundTrips(p.altchars, p.padded)
    ensures PolicyMeaning(p, continueAfterPadding, Encoded(AltTable(p.altchars), p.padded, s)) == Some(s)
  {
    hide Values, Decode, Run, StrictScan, StrictEnd, LenientValue, ConfiguredValue, ReadsBack, AltTable, RoundTrips;
    var sym, t := AltTable(p.altchars), LenientTable(p.altchars);
    var x := Encoded(sym, p.padded, s);
    AltReadsBack(p.altchars, p.padded);
    LenientPlain(p.altchars);
    IgnoresNothingTable(p);
    SameValues(PolicyTable(p), t, p.strict, p.padded, p.canonical, continueAfterPadding, x);
    DecodeValues(s);
    SymbolsReadBack(sym, t, s);
    EncodedLengths(|s|);
    if !p.strict {
      EncodedScan(sym, t, p.padded, Mode(p.padded, continueAfterPadding), s);
    } else if p.padded {
      EncodedLayout(sym, t, s);
      PlainEquals(t);
      PlainPadded(t, p.canonical, x);
    } else {
      assert x == Symbols(sym, s);
      PlainUnpadded(t, false, p.canonical, x);
    }
  }

  lemma PlainEquals(t: Table)
    requires Plain(t) && t(EQUALS) >= 64
    ensures t(EQUALS) == 64
  {
  }

  /** Whole quartets of symbols are accepted as they are, strictly and leniently. */
  lemma QuartetsStrict(t: Table, padded: bool, canonical: bool, x: seq<byte>)
    requires Plain(t) && AllSymbols(t, x) && |x| % 4 == 0 < |x|
    ensures StrictValues(t, padded, canonical, x) == Some(Map(t, x))
  {
    hide StrictValues, Plain;
    assert t(x[|x| - 1]) < 64;
    if EqualsIsPadding(t, padded) {
      assert TrailingPadding(x) == 0 && x[..|x|] == x;
      PlainPadded(t, canonical, x);
    } else {
      PlainUnpadded(t, padded, canonical, x);
    }
  }

  lemma QuartetsLenient(t: Table, m: Mode, canonical: bool, x: seq<byte>)
    requires AllSymbols(t, x) && |x| % 4 == 0 < |x|
    ensures LenientValues(t, m, canonical, x) == Some(Map(t, x))
  {
    hide Run;
    var values := Map(t, x);
    assert x[0..|x|] == x && [] + values == values;
    RunSymbols(t, m, x, 0, |x|, [], 0);
    RunStops(t, m, x, values);
  }

  /** So they mean what their values carry, under every policy that ignores nothing. */
  lemma QuartetsMeaning(p: Policy, continueAfterPadding: bool, x: seq<byte>)
    requires IgnoresNothing(p) && AllSymbols(LenientTable(p.altchars), x) && |x| % 4 == 0 < |x|
    ensures PolicyMeaning(p, continueAfterPadding, x) == Some(Decode(Map(LenientTable(p.altchars), x)))
  {
    hide Decode, StrictValues, LenientValues, LenientValue, ConfiguredValue, Plain, IgnoresNothing;
    var t := LenientTable(p.altchars);
    LenientPlain(p.altchars);
    IgnoresNothingTable(p);
    SameValues(PolicyTable(p), t, p.strict, p.padded, p.canonical, continueAfterPadding, x);
    NothingIgnored(t);
    QuartetsStrict(t, p.padded, p.canonical, x);
    QuartetsLenient(t, Mode(p.padded, continueAfterPadding), p.canonical, x);
  }

  lemma NothingIgnored(t: Table)
    requires Plain(t)
    ensures t(EQUALS) != IGNORED_CONFIGURED_VALUE
  {
  }

  lemma RunStops(t: Table, m: Mode, x: seq<byte>, values: seq<byte>)
    requires |values| == |x| && |x| % 4 == 0
    ensures Run(t, m, x, |x|, values, 0) == Outcome(values, true)
  {
  }

  /** A symbol that the decoder reads as another value breaks the round trip of the bytes that start with it. */
  lemma MisreadSymbol(p: Policy, continueAfterPadding: bool, v: byte)
    requires IgnoresNothing(p) && v < 64
    requires var t := LenientTable(p.altchars); t(AltSymbol(p.altchars, v)) < 64 && t(AltSymbol(p.altchars, v)) != v
    ensures var s := [v << 2, 0, 0];
            PolicyMeaning(p, continueAfterPadding, Encoded(AltTable(p.altchars), p.padded, s)) != Some(s)
  {
    hide AltSymbol, LenientValue, PolicyMeaning, First, Second, Third, SextetA, SextetB, SextetC, SextetD;
    var sym, t, s := AltTable(p.altchars), LenientTable(p.altchars), [v << 2, 0, 0];
    GroupOfValue(v);
    ValuesStep(s);
    assert s[3..] == [];
    var x := Encoded(sym, p.padded, s);
    assert x == [sym(v), sym(0), sym(0), sym(0)];
    LetterA(p.altchars);
    QuartetsMeaning(p, continueAfterPadding, x);
    var values := Map(t, x);
    DecodeStep(values);
    FirstOf(values[0], values[1], v);
  }

  lemma GroupOfValue(v: byte)
    requires v < 64
    ensures Group(v << 2, 0, 0) == [v, 0, 0, 0]
  {
  }

  lemma LetterA(alt: Altchars)
    ensures LenientValue(alt, AltSymbol(alt, 0)) < 64
  {
  }

  lemma FirstOf(a: byte, b: byte, v: byte)
    requires a < 64 && b < 64 && v < 64 && a != v
    ensures First(a, b) != v << 2
  {
  }

  /** An altchar '=' makes a symbol of padding: the text of a single byte is read as three. */
  lemma PaddingRead(p: Policy, continueAfterPadding: bool)
    requires IgnoresNothing(p) && p.padded && p.altchars.Altchars?
    requires p.altchars.plus == EQUALS || p.altchars.slash == EQUALS
    ensures PolicyMeaning(p, continueAfterPadding, Encoded(AltTable(p.altchars), p.padded, [0])) != Some([0])
  {
    hide PolicyMeaning, Decode, SextetA, SextetB;
    var sym, t := AltTable(p.altchars), LenientTable(p.altchars);
    var x := Encoded(sym, true, [0]);
    ZeroValues();
    assert x == [sym(0), sym(0), EQUALS, EQUALS];
    LetterA(p.altchars);
    QuartetsMeaning(p, continueAfterPadding, x);
  }

  lemma ZeroValues()
    ensures Values([0]) == [0, 0]
  {
  }

  lemma MisreadAltchar(alt: Altchars, v: byte)
    requires alt.Altchars?
    ensures alt.plus == alt.slash ==> LenientValue(alt, AltSymbol(alt, 62)) == 63
    ensures v < 62 && (StandardSymbol(v) == alt.plus || StandardSymbol(v) == alt.slash) ==>
              62 <= LenientValue(alt, AltSymbol(alt, v)) < 64
  {
  }

  /** Which altchars an encoding survives: under every policy that ignores nothing, decoding what the encoder writes
      for the same altchars and padding gives all bytes back exactly for these. */
  lemma PolicyRoundTrip(p: Policy, continueAfterPadding: bool)
    requires IgnoresNothing(p)
    ensures (forall s: seq<byte> ::
               PolicyMeaning(p, continueAfterPadding, Encoded(AltTable(p.altchars), p.padded, s)) == Some(s))
            <==> RoundTrips(p.altchars, p.padded)
  {
    hide PolicyMeaning, Encoded, AltTable, LenientValue, StandardSymbol, IgnoresNothing;
    var alt := p.altchars;
    if RoundTrips(alt, p.padded) {
      forall s: seq<byte>
        ensures PolicyMeaning(p, continueAfterPadding, Encoded(AltTable(alt), p.padded, s)) == Some(s)
      {
        EncodedMeaning(p, continueAfterPadding, s);
      }
    } else if alt.plus == alt.slash {
      MisreadAltchar(alt, 0);
      MisreadSymbol(p, continueAfterPadding, 62);
    } else if IsAlphanumeric(alt.plus) || IsAlphanumeric(alt.slash) {
      var b := if IsAlphanumeric(alt.plus) then alt.plus else alt.slash;
      var v := StrictValue(Standard, b);
      ValueSymbolInverse(b);
      MisreadAltchar(alt, v);
      MisreadSymbol(p, continueAfterPadding, v);
    } else {
      PaddingRead(p, continueAfterPadding);
    }
  }
}
