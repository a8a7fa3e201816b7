/** What a decode policy makes of an input, in terms of the input alone: which bytes are symbols and for which values,
which are skipped, and which texts have a meaning. */
module PolicyLaws {
  import opened Bytes
  import opened Alphabet
  import opened Quantum
  import opened Strict
  import opened LenientSpec
  import LenientApi
  import opened ConfiguredSpec
  import opened DriverSpec
  import opened EncodeSpec
  import opened EncodeApi
  import opened RoundTrip
  import opened Characters
  import opened ScanLaws
  import opened Division

  // ----- bytes -----

  /** The bytes that stand for values. Without a custom alphabet these are the letters and digits, and: '+' and '/' when
      there are no altchars; these two and the altchars when there is no ignore list; with both, the altchars only, and
      never '='. */
  ghost predicate IsSymbol(p: Policy, b: byte) {
    if p.alphabet.Some? then b != 61 && exists v: byte :: v < 64 && p.alphabet.value(v) == b
    else if p.altchars.NoAltchars? then b as char in ALPHABET
    else if p.ignored.None? then b as char in ALPHABET || b == p.altchars.plus || b == p.altchars.slash
    else IsLetterOrDigit(b) || (b != 61 && (b == p.altchars.plus || b == p.altchars.slash))
  }

  /** The bytes that are skipped: listed, and no symbols. Next to a custom alphabet '=' never is. */
  ghost predicate IsSkipped(p: Policy, b: byte) {
    p.ignored.Some? && b in p.ignored.value && !IsSymbol(p, b) && !(p.alphabet.Some? && b == 61)
  }

  /** The value that a symbol stands for: of equal altchars the one for 63 counts, altchars come before letters, and of
      equal symbols of a custom alphabet the last one counts. */
  ghost predicate StandsFor(p: Policy, b: byte, v: byte) {
    if p.alphabet.Some? then
      v < 64 && p.alphabet.value(v) == b && forall u: byte :: v < u < 64 ==> p.alphabet.value(u) != b
    else if p.altchars.Altchars? && b == p.altchars.slash && (b != 61 || p.ignored.None?) then v == 63
    else if p.altchars.Altchars? && b == p.altchars.plus && (b != 61 || p.ignored.None?) then v == 62
    else v < 64 && ALPHABET[v as nat] == b as char
  }

  predicate Gives(alphabet: Table, b: byte, v: byte) {
    alphabet(v) == b
  }

  lemma {:induction false} LastValueIs(alphabet: Table, b: byte, n: byte)
    requires n <= 64
    ensures var v := LastValue(alphabet, b, n); v < 64 ==> v < n && Gives(alphabet, b, v)
    ensures forall u: byte :: u < n && Gives(alphabet, b, u) ==> u <= LastValue(alphabet, b, n) < 64
    decreases n
  {
    if n > 0 && !Gives(alphabet, b, n - 1) {
      LastValueIs(alphabet, b, n - 1);
      forall u: byte | u < n && Gives(alphabet, b, u) ensures u <= LastValue(alphabet, b, n) < 64 {
        BelowLast(u, n);
      }
    }
  }

  lemma BelowLast(u: byte, n: byte)
    requires u < n
    ensures u == n - 1 || u < n - 1
  {
  }

  lemma LastGives(alphabet: Table, b: byte)
    requires var v := LastValue(alphabet, b, 64); v < 64 ==> Gives(alphabet, b, v)
    requires forall u: byte :: u < 64 && Gives(alphabet, b, u) ==> u <= LastValue(alphabet, b, 64) < 64
    ensures var v := LastValue(alphabet, b, 64);
            (exists u: byte :: u < 64 && alphabet(u) == b) <==>
            v < 64 && alphabet(v) == b && forall u: byte :: v < u < 64 ==> alphabet(u) != b
  {
    hide LastValue;
    forall u: byte | u < 64 ensures Gives(alphabet, b, u) <==> alphabet(u) == b {
    }
  }

  /** The table of a policy, class by class. */
  lemma TableIs(p: Policy, b: byte)
    ensures IsSymbol(p, b) ==> PolicyTable(p)(b) < 64 && StandsFor(p, b, PolicyTable(p)(b))
    ensures IsSkipped(p, b) ==> PolicyTable(p)(b) == 65
    ensures !IsSymbol(p, b) && !IsSkipped(p, b) ==> PolicyTable(p)(b) == 64
  {
    hide StrictValue, ALPHABET, IsLetterOrDigit, LastValue;
    if p.alphabet.Some? {
      LastValueIs(p.alphabet.value, b, 64);
      LastGives(p.alphabet.value, b);
    } else {
      ValueIs(b);
      PlusAndSlash(b);
    }
  }

  lemma PlusAndSlash(b: byte)
    ensures b == 43 || b == 47 ==> !IsLetterOrDigit(b) && b as char in ALPHABET
    ensures b as char in ALPHABET <==> IsLetterOrDigit(b) || b == 43 || b == 47
    ensures b == 61 ==> b as char !in ALPHABET
  {
    hide UPPER, LOWER, DIGITS, ALPHABET;
    AlphabetParts(b);
    LetterOrDigit(b);
  }

  // ----- strict meanings -----

  /** All symbols stand in front of `j`, the last of them right in front. */
  ghost predicate SymbolsEndAt(p: Policy, x: seq<byte>, j: nat) {
    && j <= |x| && (j > 0 ==> IsSymbol(p, x[j - 1]))
    && (forall k :: j <= k < |x| ==> !IsSymbol(p, x[k]))
  }

  lemma EndsTogether(p: Policy, x: seq<byte>, j: nat)
    ensures SymbolsEndAt(p, x, j) <==> EndsAt(PolicyTable(p), x, j)
  {
    hide IsSymbol, IsSkipped, StandsFor, PolicyTable;
    if j <= |x| {
      if j > 0 {
        TableIs(p, x[j - 1]);
      }
      forall k | j <= k < |x| ensures IsSymbol(p, x[k]) <==> PolicyTable(p)(x[k]) < 64 {
        TableIs(p, x[k]);
      }
    }
  }

  /** There always is such a place. */
  lemma {:induction false} SymbolsEnd(p: Policy, x: seq<byte>) returns (j: nat)
    ensures SymbolsEndAt(p, x, j)
  {
    hide IsSymbol;
    j := |x|;
    while j > 0 && !IsSymbol(p, x[j - 1])
      invariant 0 <= j <= |x| && forall k :: j <= k < |x| ==> !IsSymbol(p, x[k])
    {
      j := j - 1;
    }
  }

  /** Symbols and skipped bytes up to `j`, then '=' and skipped bytes. */
  ghost predicate DataThenPadding(p: Policy, x: seq<byte>, j: nat)
    requires j <= |x|
  {
    && (forall k :: 0 <= k < j ==> IsSymbol(p, x[k]) || IsSkipped(p, x[k]))
    && (forall k :: j <= k < |x| ==> IsSkipped(p, x[k]) || (x[k] == 61 && p.padded))
  }

  lemma ShapesAgree(p: Policy, x: seq<byte>, j: nat)
    requires j <= |x|
    ensures DataThenPadding(p, x, j) <==> IsData(PolicyTable(p), x[..j]) && IsPadding(PolicyTable(p), p.padded, x[j..])
  {
    hide IsSymbol, IsSkipped, StandsFor, PolicyTable;
    var t := PolicyTable(p);
    forall b: byte
      ensures IsSymbol(p, b) || IsSkipped(p, b) <==> t(b) < 64 || t(b) == 65
      ensures IsSkipped(p, b) <==> t(b) == 65
    {
      TableIs(p, b);
    }
    if IsData(t, x[..j]) && IsPadding(t, p.padded, x[j..]) {
      forall k | 0 <= k < j ensures IsSymbol(p, x[k]) || IsSkipped(p, x[k]) {
        assert x[..j][k] == x[k];
      }
      forall k | j <= k < |x| ensures IsSkipped(p, x[k]) || (x[k] == 61 && p.padded) {
        assert x[j..][k - j] == x[k];
      }
    }
  }

  /** What a strict policy accepts, and what it makes of it: symbols, then '=', with skipped bytes anywhere; a
      possible number of symbols with exactly the padding it needs, or at least that where '=' is skipped; and no
      stray bits where the policy demands that. */
  lemma StrictMeaning(p: Policy, continueAfterPadding: bool, x: seq<byte>, j: nat)
    requires p.strict && SymbolsEndAt(p, x, j)
    ensures var v := Picked(PolicyTable(p), x);
            PolicyMeaning(p, continueAfterPadding, x)
            == if && DataThenPadding(p, x, j) && StrictCounts(|v|, EqualsIn(x[j..]), p.padded, IsSkipped(p, 61))
                  && (p.canonical ==> ZeroTail(v))
               then Some(Decode(v)) else None
  {
    hide Decode, Picked, EqualsIn, IsData, IsPadding, ZeroTail, EndsAt, DataThenPadding, ConfiguredValues, IsSymbol,
         IsSkipped, StandsFor, PolicyTable;
    EndsTogether(p, x, j);
    ShapesAgree(p, x, j);
    TableIs(p, 61);
    StrictIs(PolicyTable(p), p.padded, p.canonical, continueAfterPadding, x, j);
  }

  /** So a strict policy accepts no other bytes than its symbols, those it skips, and '=' as padding. */
  lemma StrictBytes(p: Policy, continueAfterPadding: bool, x: seq<byte>, k: nat)
    requires p.strict && PolicyMeaning(p, continueAfterPadding, x).Some? && k < |x|
    ensures IsSymbol(p, x[k]) || IsSkipped(p, x[k]) || (x[k] == 61 && p.padded)
  {
    hide PolicyMeaning, Picked, EqualsIn, ZeroTail, IsSymbol, IsSkipped, PolicyTable;
    var j := SymbolsEnd(p, x);
    StrictMeaning(p, continueAfterPadding, x, j);
  }

  // ----- lenient meanings -----

  /** What a lenient policy accepts, and what it makes of it, where it goes on behind padding or needs none: the
      number of symbols and of '=' behind the last one decide; everything else is dropped. */
  lemma LenientMeaningIs(p: Policy, continueAfterPadding: bool, x: seq<byte>, j: nat)
    requires !p.strict && (continueAfterPadding || !p.padded) && SymbolsEndAt(p, x, j)
    ensures var v := Picked(PolicyTable(p), x);
            PolicyMeaning(p, continueAfterPadding, x)
            == if LenientCounts(|v|, EqualsIn(x[j..]), p.padded) && (p.canonical ==> ZeroTail(v))
               then Some(Decode(v)) else None
  {
    hide Decode, Picked, EqualsIn, ZeroTail, EndsAt, SymbolsEndAt, LenientValues, PolicyTable;
    EndsTogether(p, x, j);
    LenientIs(PolicyTable(p), Mode(p.padded, continueAfterPadding), p.canonical, x, j);
  }

  /** Two continuations that read alike from every state read alike behind any beginning. */
  lemma {:induction false} SameContinuation(t: Table, m: Mode, x: seq<byte>, y: seq<byte>, z: seq<byte>, i: nat,
                                            values: seq<byte>, pads: nat)
    requires i <= |x|
    requires forall v: seq<byte>, n: nat :: Run(t, m, y, 0, v, n) == Run(t, m, z, 0, v, n)
    ensures Run(t, m, x + y, i, values, pads) == Run(t, m, x + z, i, values, pads)
    decreases |x| - i
  {
    if i == |x| {
      assert (x + y)[i..] == y && (x + z)[i..] == z;
      LenientApi.RunShift(t, m, x + y, i, 0, values, pads);
      LenientApi.RunShift(t, m, x + z, i, 0, values, pads);
    } else {
      var b := x[i];
      assert (x + y)[i] == b == (x + z)[i];
      if t(b) < 64 {
        SameContinuation(t, m, x, y, z, i + 1, values + [t(b)], 0);
      } else if m.padded && b == EQUALS {
        SameContinuation(t, m, x, y, z, i + 1, values, pads + 1);
      } else {
        SameContinuation(t, m, x, y, z, i + 1, values, pads);
      }
    }
  }

  /** A lenient policy drops whatever is no symbol and no padding, in every mode. */
  lemma LenientDrops(p: Policy, continueAfterPadding: bool, x: seq<byte>, b: byte, y: seq<byte>)
    requires !p.strict && !IsSymbol(p, b) && (b != 61 || !p.padded)
    ensures PolicyMeaning(p, continueAfterPadding, x + [b] + y) == PolicyMeaning(p, continueAfterPadding, x + y)
  {
    hide Run, Decode, IsSymbol, IsSkipped, StandsFor, PolicyTable;
    var t, m := PolicyTable(p), Mode(p.padded, continueAfterPadding);
    TableIs(p, b);
    forall v: seq<byte>, n: nat ensures Run(t, m, [b] + y, 0, v, n) == Run(t, m, y, 0, v, n) {
      DroppedFirst(t, m, b, y, v, n);
    }
    SameContinuation(t, m, x, [b] + y, y, 0, [], 0);
    assert x + [b] + y == x + ([b] + y);
  }

  lemma DroppedFirst(t: Table, m: Mode, b: byte, y: seq<byte>, values: seq<byte>, pads: nat)
    requires t(b) >= 64 && (b != EQUALS || !m.padded)
    ensures Run(t, m, [b] + y, 0, values, pads) == Run(t, m, y, 0, values, pads)
  {
    LenientApi.RunShift(t, m, [b] + y, 1, 0, values, pads);
    assert ([b] + y)[1..] == y;
  }

  // ----- '+' and '/' next to altchars and an ignore list -----

  /** Next to altchars and an ignore list '+' and '/' are out of the alphabet: a strict policy refuses any input with
      one of them, unless it is an altchar or listed, and a lenient policy reads as if it were not there. */
  lemma PlusAndSlashLeave(p: Policy, continueAfterPadding: bool, x: seq<byte>, b: byte, y: seq<byte>)
    requires p.alphabet.None? && p.altchars.Altchars? && p.ignored.Some? && (b == 43 || b == 47)
    requires b != p.altchars.plus && b != p.altchars.slash && b !in p.ignored.value
    ensures p.strict ==> PolicyMeaning(p, continueAfterPadding, x + [b] + y).None?
    ensures !p.strict ==>
              PolicyMeaning(p, continueAfterPadding, x + [b] + y) == PolicyMeaning(p, continueAfterPadding, x + y)
  {
    hide PolicyMeaning, IsLetterOrDigit;
    PlusAndSlash(b);
    if p.strict {
      var z := x + [b] + y;
      assert z[|x|] == b;
      if PolicyMeaning(p, continueAfterPadding, z).Some? {
        StrictBytes(p, continueAfterPadding, z, |x|);
      }
    } else {
      LenientDrops(p, continueAfterPadding, x, b, y);
    }
  }

  // ----- how much padding -----

  /** How many '=' the text of some bytes needs. */
  function MissingPads(bytes: nat): nat {
    if bytes % 3 == 0 then 0 else 3 - bytes % 3
  }

  lemma OpenSymbols(n: nat)
    ensures UnpaddedLen(n) % 4 == if n % 3 == 0 then 0 else n % 3 + 1
  {
    var q, r := n / 3, n % 3;
    QuotientUnique(UnpaddedLen(n), 4, q, if r == 0 then 0 else r + 1);
  }

  lemma MissingIs(n: nat)
    ensures Missing(UnpaddedLen(n)) == MissingPads(n) && UnpaddedLen(n) % 4 != 1
    ensures n % 3 != 0 ==> MissingPads(n) > 0 && UnpaddedLen(n) % 4 >= 2
  {
    hide UnpaddedLen;
    OpenSymbols(n);
  }

  lemma ValuesHaveZeroTail(s: seq<byte>)
    ensures ZeroTail(Values(s)) && |Values(s)| == UnpaddedLen(|s|)
  {
    hide Values, Leftover, ZeroTail;
    DecodeValues(s);
    ValuesSextets(s);
    EncodedLengths(|s|);
    ZeroTailIs(Values(s));
  }

  /** The symbols of some bytes with any number of '=' behind them: a padded policy gives the bytes back exactly when
      that reaches what is missing, or, strictly, is just that unless '=' is skipped; an unpadded one when there is
      none, or, if it is lenient or skips '=', in any case. */
  lemma PaddingDemand(p: Policy, continueAfterPadding: bool, sym: Table, s: seq<byte>, k: nat)
    requires ReadsBack(sym, PolicyTable(p)) && !IsSymbol(p, 61)
    ensures PolicyMeaning(p, continueAfterPadding, Symbols(sym, s) + Repeat(61, k))
         == if if p.strict && !IsSkipped(p, 61) then k == if p.padded then MissingPads(|s|) else 0
               else p.padded ==> k >= MissingPads(|s|)
            then Some(s) else None
  {
    hide Values, Decode, ConfiguredValues, LenientValues, ZeroTail, ReadsBack, IsSymbol, IsSkipped, StandsFor,
         PolicyTable, Missing, MissingPads;
    var t, x := PolicyTable(p), Symbols(sym, s);
    TableIs(p, 61);
    SymbolsReadBack(sym, t, s);
    ValuesHaveZeroTail(s);
    MissingIs(|s|);
    DecodeValues(s);
    if p.strict {
      StrictDemand(t, p.padded, p.canonical, continueAfterPadding, x, k);
    } else {
      LenientDemand(t, Mode(p.padded, continueAfterPadding), p.canonical, x, k);
      LenientIsConfigured(p, continueAfterPadding, x + Repeat(61, k));
    }
  }

  lemma LenientIsConfigured(p: Policy, continueAfterPadding: bool, x: seq<byte>)
    requires !p.strict
    ensures ConfiguredValues(PolicyTable(p), p.strict, p.padded, p.canonical, continueAfterPadding, x)
         == LenientValues(PolicyTable(p), Mode(p.padded, continueAfterPadding), p.canonical, x)
  {
  }

  /** The same of the plain lenient decoder. */
  lemma LenientPaddingDemand(sym: Table, t: Table, m: Mode, s: seq<byte>, k: nat)
    requires UnlikePadding(sym, t)
    ensures LenientMeaning(t, m, Symbols(sym, s) + Repeat(61, k))
         == if m.padded ==> k >= MissingPads(|s|) then Some(s) else None
  {
    hide Values, Decode, Scan, ZeroTail, ReadsBack, Missing, MissingPads;
    SymbolsReadBack(sym, t, s);
    ValuesHaveZeroTail(s);
    MissingIs(|s|);
    DecodeValues(s);
    LenientDemand(t, m, false, Symbols(sym, s), k);
  }

  /** Where decoding stops behind padding, a text with complete padding means itself whatever follows. */
  lemma StopsBehindPadding(sym: Table, t: Table, s: seq<byte>, rest: seq<byte>)
    requires UnlikePadding(sym, t) && |s| % 3 != 0
    ensures LenientMeaning(t, Mode(true, false), Encoded(sym, true, s) + rest) == Some(s)
  {
    hide Values, Decode, Scan, UnlikePadding;
    StoppedScan(sym, t, s, rest);
    DecodeValues(s);
  }

  lemma StoppedScan(sym: Table, t: Table, s: seq<byte>, rest: seq<byte>)
    requires UnlikePadding(sym, t) && |s| % 3 != 0
    ensures Scan(t, Mode(true, false), Encoded(sym, true, s) + rest) == Outcome(Values(s), true)
  {
    hide Values, Scan, Picked, Completes, ReadsBack, Missing, MissingPads;
    var x, k := Symbols(sym, s), MissingPads(|s|);
    var y := x + Repeat(61, k);
    SymbolsReadBack(sym, t, s);
    MissingIs(|s|);
    PadsRepeated(|s|);
    assert Encoded(sym, true, s) == y;
    CompletedBy(t, x, k);
    var e := |x| + k - 1;
    forall i | 0 <= i <= e ensures Completes(t, y + rest, i) == Completes(t, y, i) {
      CompletesLocal(t, y, rest, i);
    }
    StoppingScan(t, Mode(true, false), y + rest, e);
    assert (y + rest)[..e] == x + Repeat(61, k - 1);
    PaddedText(t, x, k - 1);
  }

  /** So does a lenient policy. */
  lemma PolicyStopsBehindPadding(p: Policy, sym: Table, s: seq<byte>, rest: seq<byte>)
    requires !p.strict && p.padded && ReadsBack(sym, PolicyTable(p)) && !IsSymbol(p, 61) && |s| % 3 != 0
    ensures PolicyMeaning(p, false, Encoded(sym, true, s) + rest) == Some(s)
  {
    hide Values, Decode, Scan, Leftover, ReadsBack, IsSymbol, IsSkipped, StandsFor, PolicyTable;
    TableIs(p, 61);
    StoppedScan(sym, PolicyTable(p), s, rest);
    DecodeValues(s);
  }

  lemma PadsRepeated(n: nat)
    ensures EncodeSpec.Pads(n) == Repeat(61, MissingPads(n))
  {
  }

  lemma CompletesLocal(t: Table, y: seq<byte>, rest: seq<byte>, i: nat)
    requires i < |y|
    ensures Completes(t, y + rest, i) == Completes(t, y, i)
  {
    hide Picked, ScanLaws.Pads;
    assert (y + rest)[..i] == y[..i];
  }

  /** The estimate of the decoded length is exact on what the encoder writes. */
  lemma UpperBoundExact(sym: Table, t: Table, padded: bool, s: seq<byte>)
    requires UnlikePadding(sym, t)
    ensures LenientApi.DecodedLenUpperBound(t, Encoded(sym, padded, s)) == |s|
  {
    hide Values, ReadsBack;
    EncodedLayout(sym, t, s);
    SymbolsReadBack(sym, t, s);
    var x := Symbols(sym, s);
    DecodeValues(s);
    assert x != [] ==> x[|x| - 1] in x;
    assert Encoded(sym, false, s) == x;
  }

  // ----- policies whose symbols read back -----

  /** The encoder's symbols for the same altchars, whatever is ignored. */
  lemma AltcharsReadBack(p: Policy)
    requires p.alphabet.None? && RoundTrips(p.altchars, true)
    ensures ReadsBack(AltTable(p.altchars), PolicyTable(p)) && !IsSymbol(p, 61)
  {
    hide StandardSymbol, StrictValue, ALPHABET, IsLetterOrDigit;
    PlusAndSlash(61);
    LetterOrDigitIs(61);
    forall v: byte | v < 64 ensures PolicyTable(p)(AltTable(p.altchars)(v)) == v {
      AltcharReadsBack(p, v);
    }
  }

  lemma LetterOrDigitIs(b: byte)
    ensures IsLetterOrDigit(b) <==> IsAlphanumeric(b)
  {
    hide IsLetterOrDigit;
    LetterOrDigit(b);
  }

  lemma AltcharReadsBack(p: Policy, v: byte)
    requires p.alphabet.None? && RoundTrips(p.altchars, true) && v < 64
    ensures ConfiguredValue(p, AltSymbol(p.altchars, v)) == v
  {
  }

  /** A custom alphabet of different symbols without '='. */
  lemma AlphabetReadsBack(p: Policy)
    requires p.alphabet.Some?
    requires forall u: byte, v: byte :: u < v < 64 ==> p.alphabet.value(u) != p.alphabet.value(v)
    requires forall v: byte :: v < 64 ==> p.alphabet.value(v) != 61
    ensures ReadsBack(p.alphabet.value, PolicyTable(p)) && !IsSymbol(p, 61)
  {
    hide PolicyTable;
    var alphabet := p.alphabet.value;
    forall v: byte | v < 64 ensures PolicyTable(p)(alphabet(v)) == v {
      TableIs(p, alphabet(v));
      var u := PolicyTable(p)(alphabet(v));
      assert u < v || u == v || v < u;
    }
  }

  // ----- canonical texts -----

  /** A strict policy that skips nothing, demands canonical text and has one symbol for each value accepts exactly what
      the encoder writes: decoding and encoding are inverses. */
  lemma CanonicalExactly(p: Policy, continueAfterPadding: bool, sym: Table, s: seq<byte>, x: seq<byte>)
    requires p.strict && p.canonical && ReadsBack(sym, PolicyTable(p)) && !IsSymbol(p, 61)
    requires forall b: byte :: IsSymbol(p, b) ==> sym(PolicyTable(p)(b)) == b
    requires forall b: byte :: !IsSkipped(p, b)
    ensures PolicyMeaning(p, continueAfterPadding, x) == Some(s) <==> x == Encoded(sym, p.padded, s)
  {
    hide PolicyMeaning, Values, ReadsBack, IsSymbol, IsSkipped, PolicyTable, MissingPads;
    if x == Encoded(sym, p.padded, s) {
      var k := if p.padded then MissingPads(|s|) else 0;
      PadsRepeated(|s|);
      assert x == Symbols(sym, s) + Repeat(61, k);
      PaddingDemand(p, continueAfterPadding, sym, s, k);
    }
    if PolicyMeaning(p, continueAfterPadding, x) == Some(s) {
      CanonicalText(p, continueAfterPadding, sym, s, x);
    }
  }

  lemma CanonicalText(p: Policy, continueAfterPadding: bool, sym: Table, s: seq<byte>, x: seq<byte>)
    requires p.strict && p.canonical && !IsSymbol(p, 61)
    requires forall b: byte :: IsSymbol(p, b) ==> sym(PolicyTable(p)(b)) == b
    requires forall b: byte :: !IsSkipped(p, b)
    requires PolicyMeaning(p, continueAfterPadding, x) == Some(s)
    ensures x == Encoded(sym, p.padded, s)
  {
    hide PolicyMeaning, Picked, EqualsIn, ZeroTail, Decode, Values, Leftover, IsSymbol, IsSkipped, PolicyTable, Missing,
         MissingPads;
    var t := PolicyTable(p);
    var j := SymbolsEnd(p, x);
    var v := Picked(t, x);
    StrictMeaning(p, continueAfterPadding, x, j);
    EndsTogether(p, x, j);
    PickedTo(t, x, j);
    SymbolsOnly(p, x[..j]);
    AllPicked(t, x[..j]);
    assert v == Map(t, x[..j]);
    forall k | 0 <= k < j ensures sym(v[k]) == x[k] {
      assert v[k] == t(x[k]);
    }
    assert Map(sym, v) == x[..j];
    ZeroTailIs(v);
    ValuesDecode(v);
    OnlyPads(x[j..]);
    MissingIs(|s|);
    assert Values(s) == v;
    assert Symbols(sym, s) == x[..j];
    PadsRepeated(|s|);
    if p.padded {
      assert x[j..] == EncodeSpec.Pads(|s|);
    } else {
      SkippedBehind(p, x, j);
      NothingSkipped(p, x, j);
    }
    assert x == x[..j] + x[j..];
  }

  lemma SkippedBehind(p: Policy, x: seq<byte>, j: nat)
    requires j <= |x| && !p.padded && DataThenPadding(p, x, j)
    ensures forall k :: j <= k < |x| ==> IsSkipped(p, x[k])
  {
    hide IsSymbol, IsSkipped;
  }

  lemma NothingSkipped(p: Policy, x: seq<byte>, j: nat)
    requires j <= |x| && (forall k :: j <= k < |x| ==> IsSkipped(p, x[k])) && forall b: byte :: !IsSkipped(p, b)
    ensures j == |x|
  {
    hide IsSkipped;
    var b := if j < |x| then x[j] else 0;
    assert !IsSkipped(p, b);
  }

  lemma SymbolsOnly(p: Policy, x: seq<byte>)
    requires forall k :: 0 <= k < |x| ==> IsSymbol(p, x[k])
    ensures AllSymbols(PolicyTable(p), x)
  {
    hide IsSymbol, IsSkipped, StandsFor, PolicyTable;
    forall k | 0 <= k < |x| ensures PolicyTable(p)(x[k]) < 64 {
      TableIs(p, x[k]);
    }
  }

  lemma {:induction false} OnlyPads(x: seq<byte>)
    requires forall k :: 0 <= k < |x| ==> x[k] == 61
    ensures x == Repeat(61, EqualsIn(x)) && EqualsIn(x) == |x|
  {
    if x != [] {
      OnlyPads(x[..|x| - 1]);
    }
  }

  /** Standard text, and any altchars next to an empty ignore list. */
  predicate OneSymbolEach(p: Policy) {
    && p.alphabet.None? && RoundTrips(p.altchars, true)
    && ((p.altchars == NoAltchars && p.ignored.None?) || p.ignored == Some({}))
  }

  lemma SymbolWrites(p: Policy, b: byte)
    requires OneSymbolEach(p) && ConfiguredValue(p, b) < 64
    ensures AltSymbol(p.altchars, ConfiguredValue(p, b)) == b
  {
  }

  /** For these policies strict canonical decoding is the inverse of encoding. */
  lemma CanonicalInverse(p: Policy, continueAfterPadding: bool, s: seq<byte>, x: seq<byte>)
    requires p.strict && p.canonical && OneSymbolEach(p)
    ensures PolicyMeaning(p, continueAfterPadding, x) == Some(s) <==> x == Encoded(AltTable(p.altchars), p.padded, s)
  {
    hide PolicyMeaning, Encoded, ReadsBack, IsSymbol, StandsFor, ConfiguredValue, AltSymbol;
    AltcharsReadBack(p);
    forall b: byte | IsSymbol(p, b) ensures AltTable(p.altchars)(PolicyTable(p)(b)) == b {
      TableIs(p, b);
      SymbolWrites(p, b);
    }
    CanonicalExactly(p, continueAfterPadding, AltTable(p.altchars), s, x);
  }
}
