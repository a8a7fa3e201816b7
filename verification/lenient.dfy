/** The lenient decoder with its three fast paths: the longest-prefix kernel, runs of sixteen or more
symbols, and the quartet loop. */
module Lenient {
  import opened Bytes
  import opened Alphabet
  import opened Quantum
  import opened Vectors
  import opened DecodeKernels
  import opened Strict
  import opened StrictApi
  import opened Staging
  import opened TranslationTable
  import opened LenientSpec

  datatype LenientResult = LenientOk(written: nat) | LenientInvalid | LenientTooSmall

  /** The decoder's loop variables. */
  datatype State = State(source: nat, written: nat, quadPos: nat, leftchar: byte, pads: nat)

  /** What holds between any two steps: the rest of the scan from here has the outcome of the whole
      scan, and the memory holds exactly the decoding of the values seen. */
  ghost predicate Inv(s: State, values: seq<byte>, t: Table, m: Mode, input: seq<byte>,
                      before: seq<byte>, now: seq<byte>, base: nat, provided: nat)
  {
    && s.source <= |input|
    && Run(t, m, input, s.source, values, s.pads) == Scan(t, m, input)
    && s.quadPos == |values| % 4 && s.leftchar == Leftover(values)
    && s.written == |Decode(values)| <= provided
    && base + provided <= |before|
    && now == Store(before, base, Decode(values))
  }

  /** Why a step may stop. */
  datatype Status = Going | Full | Complete

  lemma LeftoverPacks(v: seq<byte>, x: byte)
    ensures |v| % 4 == 1 ==> First(Leftover(v), x) == First(v[|v| - 1], x)
    ensures |v| % 4 == 2 ==> Second(Leftover(v), x) == Second(v[|v| - 1], x)
    ensures |v| % 4 == 3 ==> Third(Leftover(v), x) == Third(v[|v| - 1], x)
    ensures Leftover(v + [x]) == if |v| % 4 == 0 then x else if |v| % 4 == 1 then x & 0x0f
                                 else if |v| % 4 == 2 then x & 0x03 else 0
  {
    if |v| > 0 {
      MaskedShifts(v[|v| - 1], x);
    }
  }

  lemma MaskedShifts(a: byte, x: byte)
    ensures Second(a & 0x0f, x) == Second(a, x) && Third(a & 0x03, x) == Third(a, x)
  {
  }

  /** The current symbol's value is stored, or the destination is full. */
  method PushValue(s: State, value: byte, output: array<byte>, base: nat, provided: nat,
                   ghost values: seq<byte>, ghost before: seq<byte>)
    returns (s': State, full: bool)
    requires s.quadPos == |values| % 4 && s.leftchar == Leftover(values) && s.written == |Decode(values)| <= provided
    requires base + provided <= |before| == output.Length
    requires output[..] == Store(before, base, Decode(values))
    modifies output
    ensures full <==> |Decode(values + [value])| > provided
    ensures full ==> output[..] == old(output[..])
    ensures !full ==> s'.source == s.source && s'.pads == 0
    ensures !full ==> s'.quadPos == |values + [value]| % 4 && s'.leftchar == Leftover(values + [value])
    ensures !full ==> s'.written == |Decode(values + [value])|
    ensures !full ==> output[..] == Store(before, base, Decode(values + [value]))
  {
    hide First, Second, Third, Decode, Store, Leftover;
    DecodePush(values, value);
    LeftoverPacks(values, value);
    ghost var d, more := Decode(values), Completed(values, value);
    s', full := s, false;
    match s.quadPos {
      case 0 =>
        s' := State(s.source, s.written, 1, value, 0);
        assert d + more == d;
      case _ =>
        if s.written == provided {
          full := true;
          return;
        }
        var b := if s.quadPos == 1 then First(s.leftchar, value)
                 else if s.quadPos == 2 then Second(s.leftchar, value) else Third(s.leftchar, value);
        StoreInto(output, base + s.written, [b]);
        StoreJoin(before, base, d, [b]);
        var left := if s.quadPos == 1 then value & 0x0f else if s.quadPos == 2 then value & 0x03 else 0;
        s' := State(s.source, s.written + 1, (s.quadPos + 1) % 4, left, 0);
    }
  }

  /** One byte, handled like the specification does. */
  method ByteStep(s: State, t: Table, m: Mode, input: seq<byte>, output: array<byte>, base: nat, provided: nat,
                  ghost values: seq<byte>, ghost before: seq<byte>)
    returns (s': State, status: Status, ghost values': seq<byte>)
    requires Inv(s, values, t, m, input, before, output[..], base, provided) && s.source < |input|
    requires |before| == output.Length
    modifies output
    ensures status == Going ==>
              s'.source == s.source + 1 && Inv(s', values', t, m, input, before, output[..], base, provided)
    ensures status == Full ==> values <= values' <= Scan(t, m, input).values && |Decode(values')| > provided
    ensures status == Full ==> output[..] == old(output[..])
    ensures status == Complete ==> s' == s && values' == values && Scan(t, m, input) == Outcome(values, true)
    ensures status == Complete ==> output[..] == old(output[..])
  {
    hide Decode, Store, Leftover;
    var b := input[s.source];
    s', status, values' := s, Going, values;
    if m.padded && b == EQUALS && t(EQUALS) >= 64 {
      if !m.continueAfterPadding && s.quadPos >= 2 && s.quadPos + s.pads + 1 >= 4 {
        status := Complete;
      } else {
        s' := s.(source := s.source + 1, pads := s.pads + 1);
      }
      return;
    }
    var value := t(b);
    if value >= 64 {
      s' := s.(source := s.source + 1);
      return;
    }
    values' := values + [value];
    var full;
    RunExtends(t, m, input, s.source + 1, values', 0);
    s', full := PushValue(s, value, output, base, provided, values, before);
    if full {
      status := Full;
    } else {
      s' := s'.(source := s.source + 1);
    }
  }

  // ----- fast paths: whole quartets at once, while no quartet is open -----

  predicate SymbolsAt(t: Table, input: seq<byte>, lo: nat, hi: nat)
    requires lo <= hi <= |input|
  {
    forall k :: lo <= k < hi ==> t(input[k]) < 64
  }

  /** Taking `n` symbols, a multiple of four, in one step. */
  lemma TakeSymbols(s: State, values: seq<byte>, t: Table, m: Mode, input: seq<byte>, before: seq<byte>,
                    now: seq<byte>, base: nat, provided: nat, n: nat, pads: nat)
    requires Inv(s, values, t, m, input, before, now, base, provided) && s.quadPos == 0
    requires 0 < n && n % 4 == 0 && s.source + n <= |input| && SymbolsAt(t, input, s.source, s.source + n)
    ensures var run := Map(t, input[s.source..s.source + n]);
            var values' := values + run;
            && Decode(values') == Decode(values) + Decode(run) && |Decode(run)| == n / 4 * 3
            && values' <= Scan(t, m, input).values
            && (s.written + n / 4 * 3 <= provided ==>
                  && base + s.written + |Decode(run)| <= |now|
                  && Inv(State(s.source + n, s.written + n / 4 * 3, 0, 0, pads), values', t, m, input, before,
                         Store(now, base + s.written, Decode(run)), base, provided))
  {
    hide Decode, Store, Run, Map, Leftover;
    var run := Map(t, input[s.source..s.source + n]);
    RunTaken(s.source, n, values, s.pads, pads, t, m, input);
    DecodeConcat(values, run);
    NoLeftover(values + run);
    if s.written + n / 4 * 3 <= provided {
      StoreJoin(before, base, Decode(values), Decode(run));
    }
  }

  lemma NoLeftover(v: seq<byte>)
    requires |v| % 4 == 0
    ensures Leftover(v) == 0
  {
  }

  /** What the specification's scan does with such symbols, whatever padding count is kept. */
  lemma RunTaken(source: nat, n: nat, values: seq<byte>, p: nat, q: nat, t: Table, m: Mode, input: seq<byte>)
    requires 0 < n && n % 4 == 0 && source + n <= |input| && SymbolsAt(t, input, source, source + n)
    requires |values| % 4 == 0
    ensures var values' := values + Map(t, input[source..source + n]);
            && values' <= Run(t, m, input, source, values, p).values
            && Run(t, m, input, source, values, p) == Run(t, m, input, source + n, values', q)
  {
    hide Run;
    var values' := values + Map(t, input[source..source + n]);
    RunSymbols(t, m, input, source, n, values, p);
    StalePads(t, m, input, source + n, values', 0, q);
    RunExtends(t, m, input, source + n, values', 0);
  }

  /** Symbols of a kernel's alphabet decode as the lenient table says. */
  lemma FastAgrees(a: DecodeAlphabet, alt: Altchars, x: seq<byte>)
    requires FastAlphabet(alt, a) || (alt == URLSAFE_ALTCHARS && a == UrlSafe)
    requires AllValid(a, x)
    ensures SymbolsAt(LenientTable(alt), x, 0, |x|)
    ensures Decoded(a, x) == Decode(Map(LenientTable(alt), x))
  {
    hide Decode;
    forall k | 0 <= k < |x| ensures LenientTable(alt)(x[k]) == StrictTable(a)(x[k]) < 64 {
      StrictValuesAreSymbols(a, alt, x[k]);
    }
    MapAgree(StrictTable(a), LenientTable(alt), x);
  }

  /** Bytes that translate to the standard symbols of a custom table decode as that table says. */
  lemma TranslatedAgrees(alt: Altchars, tr: Option<Translation>, x: seq<byte>)
    requires forall b: byte :: TranslateByte(tr, b) == AltTarget(LenientTable(alt), alt, b)
    requires SymbolsAt(LenientTable(alt), x, 0, |x|)
    ensures AllValid(Standard, Translated(tr, x))
    ensures Decoded(Standard, Translated(tr, x)) == Decode(Map(LenientTable(alt), x))
  {
    hide Decode, TranslateByte, AltTarget, StrictValue, LenientValue;
    forall k | 0 <= k < |x|
      ensures StrictValue(Standard, Translated(tr, x)[k]) == LenientValue(alt, x[k]) < 64
    {
      assert LenientTable(alt)(x[k]) < 64;
      LenientTranslates(alt, x[k]);
    }
    assert Map(StrictTable(Standard), Translated(tr, x)) == Map(LenientTable(alt), x);
  }

  /** Bytes that are discarded between quartets; only padding is counted. */
  method SkipDiscarded(s: State, t: Table, m: Mode, input: seq<byte>, ghost values: seq<byte>,
                       ghost before: seq<byte>, ghost now: seq<byte>, ghost base: nat, ghost provided: nat)
    returns (s': State)
    requires Inv(s, values, t, m, input, before, now, base, provided) && s.quadPos == 0
    ensures Inv(s', values, t, m, input, before, now, base, provided) && s'.quadPos == 0
    ensures s'.source >= s.source && (s'.source < |input| ==> t(input[s'.source]) < 64)
  {
    hide Decode, Store, Leftover;
    s' := s;
    while s'.source < |input| && t(input[s'.source]) >= 64
      invariant Inv(s', values, t, m, input, before, now, base, provided) && s'.quadPos == 0 && s'.source >= s.source
      decreases |input| - s'.source
    {
      if m.padded && input[s'.source] == EQUALS {
        s' := s'.(pads := s'.pads + 1);
      }
      s' := s'.(source := s'.source + 1);
    }
  }

  /** What a longest-prefix kernel wrote is one step of the decoder. */
  lemma KernelTaken(a: DecodeAlphabet, alt: Altchars, s: State, m: Mode, input: seq<byte>, candidate: nat, base: nat,
                    provided: nat, values: seq<byte>, before: seq<byte>, was: seq<byte>, now: seq<byte>, q: nat)
    requires FastAlphabet(alt, a)
    requires Inv(s, values, LenientTable(alt), m, input, before, was, base, provided) && s.quadPos == 0
    requires s.source + candidate <= |input| && s.written + candidate / 4 * 3 <= provided
    requires Wrote(was, now, base + s.written, a, input[s.source..s.source + candidate], q, [])
    ensures 4 * q <= candidate
    ensures q == 0 ==> now == was
    ensures q > 0 ==> Inv(State(s.source + 4 * q, s.written + 3 * q, 0, 0, 0),
                          values + Map(LenientTable(alt), input[s.source..s.source + 4 * q]),
                          LenientTable(alt), m, input, before, now, base, provided)
  {
    hide Inv, Decode, Store, Wrote, StrictValue, LenientValue, LenientTable, FastAlphabet;
    var slice, n := input[s.source..s.source + candidate], 4 * q;
    WroteExactly(was, now, base + s.written, a, slice, q);
    if q == 0 {
      assert slice[..0] == [];
      assert Decoded(a, slice[..0]) == [];
      StoreNothing(was, base + s.written);
    } else {
      WroteValid(was, now, base + s.written, a, slice, q, []);
      ValidSlice(a, slice, 0, n);
      assert slice[0..n] == slice[..n] == input[s.source..s.source + n];
      FastAgrees(a, alt, slice[..n]);
      SymbolsWithin(LenientTable(alt), input, s.source, n);
      TakeSymbols(s, values, LenientTable(alt), m, input, before, was, base, provided, n, 0);
    }
  }

  /** The longest-prefix kernel, offered no more input than the destination has room for. */
  method KernelStep(backend: Backend, wide: bool, a: DecodeAlphabet, alt: Altchars, s: State, m: Mode, input: seq<byte>,
                    output: array<byte>, base: nat, provided: nat, ghost values: seq<byte>, ghost before: seq<byte>)
    returns (s': State, available: bool, ghost values': seq<byte>)
    requires FastAlphabet(alt, a)
    requires Inv(s, values, LenientTable(alt), m, input, before, output[..], base, provided) && s.quadPos == 0
    requires |before| == output.Length
    modifies output
    ensures Inv(s', values', LenientTable(alt), m, input, before, output[..], base, provided) && s'.quadPos == 0
    ensures s'.source >= s.source
  {
    hide Inv, Wrote, LenientTable, LongestPrefix, FastAlphabet;
    Bounds(s, values, LenientTable(alt), m, input, before, output[..], base, provided);
    var room := (provided - s.written) / 12 * 16;
    var candidate := if |input| - s.source < room then |input| - s.source else room;
    ghost var was := output[..];
    var r;
    ghost var q;
    r, q := DecodeValidPrefix(backend, wide, a, input[s.source..s.source + candidate], output, base + s.written);
    available := r.Some?;
    s', values' := s, values;
    KernelTaken(a, alt, s, m, input, candidate, base, provided, values, before, was, output[..], q);
    if r.Some? && r.value.0 != 0 {
      var consumed, decoded := r.value.0, r.value.1;
      s' := State(s.source + consumed, s.written + decoded, 0, 0, 0);
      values' := values + Map(LenientTable(alt), input[s.source..s.source + consumed]);
    }
  }

  lemma Bounds(s: State, values: seq<byte>, t: Table, m: Mode, input: seq<byte>, before: seq<byte>, now: seq<byte>,
               base: nat, provided: nat)
    requires Inv(s, values, t, m, input, before, now, base, provided)
    ensures s.source <= |input| && s.written <= provided && base + provided <= |before| == |now|
  {
  }

  lemma SymbolsWithin(t: Table, input: seq<byte>, lo: nat, n: nat)
    requires lo + n <= |input| && SymbolsAt(t, input[lo..lo + n], 0, n)
    ensures SymbolsAt(t, input, lo, lo + n)
  {
    forall k | lo <= k < lo + n ensures t(input[k]) < 64 {
      assert input[lo..lo + n][k - lo] == input[k];
    }
  }

  /** Some prefix of symbols; nonempty when the first byte is one. */
  method SymbolPrefix(input: seq<byte>, alt: Altchars) returns (run: nat)
    ensures run <= |input| && forall k :: 0 <= k < run ==> IsLenientSymbol(input[k], alt)
    ensures input != [] && IsLenientSymbol(input[0], alt) ==> run > 0
  {
    run := 0;
    while run < |input| && IsLenientSymbol(input[run], alt)
      invariant run <= |input| && forall k :: 0 <= k < run ==> IsLenientSymbol(input[k], alt)
    {
      run := run + 1;
    }
  }

  /** A run of at least sixteen symbols, decoded by the strict kernels or, for custom altchars, through
      the translating staging writer. */
  method RunStep(backend: Backend, wide: bool, alt: Altchars, s: State, m: Mode, input: seq<byte>,
                 output: array<byte>, base: nat, provided: nat, ghost values: seq<byte>, ghost before: seq<byte>)
    returns (s': State, taken: bool, full: bool, ghost values': seq<byte>)
    requires Inv(s, values, LenientTable(alt), m, input, before, output[..], base, provided) && s.quadPos == 0
    requires |before| == output.Length
    modifies output
    ensures !full ==>
              Inv(s', values', LenientTable(alt), m, input, before, output[..], base, provided) && s'.quadPos == 0
    ensures !full ==> if taken then s'.source > s.source else s' == s
    ensures full ==> values <= values' <= Scan(LenientTable(alt), m, input).values && |Decode(values')| > provided
    ensures full ==> output[..] == old(output[..])
  {
    hide Decode, Store, Leftover, StrictValue, LenientValue, Run, IsLenientSymbol;
    var t := LenientTable(alt);
    s', taken, full, values' := s, false, false, values;
    var run := SymbolPrefix(input[s.source..], alt);
    run := run / 4 * 4;
    if run < 16 {
      return;
    }
    ghost var was := output[..];
    var symbols := input[s.source..s.source + run];
    LenientSymbolRun(alt, input, s.source, run);
    TakeSymbols(s, values, t, m, input, before, was, base, provided, run, 0);
    values' := values + Map(t, symbols);
    var decoded := run / 4 * 3;
    if provided - s.written < decoded {
      full := true;
      return;
    }
    DecodeRun(backend, wide, alt, symbols, output, base + s.written);
    s' := State(s.source + run, s.written + decoded, 0, 0, 0);
    taken := true;
  }

  lemma LenientSymbolRun(alt: Altchars, input: seq<byte>, lo: nat, n: nat)
    requires lo + n <= |input|
    requires forall k :: 0 <= k < n ==> IsLenientSymbol(input[lo..][k], alt)
    ensures SymbolsAt(LenientTable(alt), input, lo, lo + n)
    ensures SymbolsAt(LenientTable(alt), input[lo..lo + n], 0, n)
  {
    hide LenientValue, IsLenientSymbol;
    forall k | lo <= k < lo + n ensures LenientTable(alt)(input[k]) < 64 {
      assert input[lo..][k - lo] == input[k];
      SymbolTables(input[k], alt);
    }
  }

  method DecodeRun(backend: Backend, wide: bool, alt: Altchars, symbols: seq<byte>, output: array<byte>, at: nat)
    requires |symbols| % 4 == 0 && SymbolsAt(LenientTable(alt), symbols, 0, |symbols|)
    requires at + |symbols| / 4 * 3 <= output.Length
    modifies output
    ensures |Decode(Map(LenientTable(alt), symbols))| == |symbols| / 4 * 3
    ensures output[..] == Store(old(output[..]), at, Decode(Map(LenientTable(alt), symbols)))
  {
    hide Decode, Store, StrictValue, LenientValue, TranslateByte, AltTarget;
    if alt == NoAltchars || alt == URLSAFE_ALTCHARS {
      var a := if alt == NoAltchars then Standard else Mixed;
      LenientSymbolsAreValid(a, alt, symbols);
      FastAgrees(a, alt, symbols);
      var ok;
      ghost var q, w;
      ok, q, w := DecodeUnpaddedToPtr(backend, wide, Partial, a, symbols, output, at);
    } else {
      var translation := NewTranslation(LenientTable(alt), alt);
      TranslatedAgrees(alt, translation, symbols);
      var writer := new StagingWriter(backend, wide, output, at, translation);
      assert writer.Symbols() + Translated(translation, symbols) == Translated(translation, symbols);
      var _ := writer.PushSymbols(false, symbols);
      var _ := writer.Finish(false);
    }
  }

  lemma LenientSymbolsAreValid(a: DecodeAlphabet, alt: Altchars, x: seq<byte>)
    requires FastAlphabet(alt, a) && SymbolsAt(LenientTable(alt), x, 0, |x|)
    ensures AllValid(a, x)
  {
    forall k | 0 <= k < |x| ensures StrictValue(a, x[k]) < 64 {
      assert LenientTable(alt)(x[k]) < 64;
      StrictValuesAreSymbols(a, alt, x[k]);
    }
  }

  lemma OrBelow64(a: byte, b: byte, c: byte, d: byte)
    ensures a | b | c | d >= 64 <==> a >= 64 || b >= 64 || c >= 64 || d >= 64
  {
  }

  /** Four symbols decode to three bytes, and the scan takes them in one step. */
  lemma TakeQuartet(s: State, values: seq<byte>, t: Table, m: Mode, input: seq<byte>, before: seq<byte>, now: seq<byte>,
                    base: nat, provided: nat)
    requires Inv(s, values, t, m, input, before, now, base, provided) && s.quadPos == 0
    requires s.source + 4 <= |input| && SymbolsAt(t, input, s.source, s.source + 4)
    ensures var x := Map(t, input[s.source..s.source + 4]);
            && |x| == 4 && values + x <= Scan(t, m, input).values && |Decode(values + x)| == s.written + 3
            && (s.written + 3 <= provided ==>
                  && base + s.written + 3 <= |now|
                  && Inv(s.(source := s.source + 4, written := s.written + 3), values + x, t, m, input, before,
                         Store(now, base + s.written, [First(x[0], x[1]), Second(x[1], x[2]), Third(x[2], x[3])]),
                         base, provided))
  {
    hide Decode, Store, Run, Scan, First, Second, Third, Map;
    TakeSymbols(s, values, t, m, input, before, now, base, provided, 4, s.pads);
    DecodeQuartet(Map(t, input[s.source..s.source + 4]));
    assert s.leftchar == 0 by {
      NoLeftover(values);
    }
  }

  /** One quartet: nothing happens unless all four bytes are symbols. The padding count is left as it
      is: it is stale, and harmless while no quartet is open. */
  method QuartetStep(s: State, t: Table, m: Mode, input: seq<byte>, output: array<byte>, base: nat, provided: nat,
                     ghost values: seq<byte>, ghost before: seq<byte>)
    returns (s': State, taken: bool, full: bool, ghost values': seq<byte>)
    requires Inv(s, values, t, m, input, before, output[..], base, provided) && |before| == output.Length
    requires s.quadPos == 0 && s.source + 4 <= |input|
    modifies output
    ensures !full ==> Inv(s', values', t, m, input, before, output[..], base, provided)
    ensures !full ==> if taken then s'.source == s.source + 4 else s' == s
    ensures full ==> values <= values' <= Scan(t, m, input).values && |Decode(values')| > provided
    ensures full ==> output[..] == old(output[..])
  {
    hide Inv, Map, Decode, Store, Run, Scan, First, Second, Third;
    s', taken, full, values' := s, false, false, values;
    var first, second := t(input[s.source]), t(input[s.source + 1]);
    var third, fourth := t(input[s.source + 2]), t(input[s.source + 3]);
    OrBelow64(first, second, third, fourth);
    if first | second | third | fourth >= 64 {
      return;
    }
    TakeQuartet(s, values, t, m, input, before, output[..], base, provided);
    values' := values + Map(t, input[s.source..s.source + 4]);
    if provided - s.written < 3 {
      full := true;
      return;
    }
    assert Map(t, input[s.source..s.source + 4]) == [first, second, third, fourth] by {
      FourMapped(t, input, s.source);
    }
    StoreInto(output, base + s.written, [First(first, second), Second(second, third), Third(third, fourth)]);
    s' := s.(source := s.source + 4, written := s.written + 3);
    taken := true;
  }

  lemma FourMapped(t: Table, input: seq<byte>, i: nat)
    requires i + 4 <= |input|
    ensures Map(t, input[i..i + 4]) == [t(input[i]), t(input[i + 1]), t(input[i + 2]), t(input[i + 3])]
  {
  }

  method QuartetLoop(s: State, t: Table, m: Mode, input: seq<byte>, output: array<byte>, base: nat, provided: nat,
                     ghost values: seq<byte>, ghost before: seq<byte>)
    returns (s': State, full: bool, ghost values': seq<byte>, ghost held: seq<byte>)
    requires Inv(s, values, t, m, input, before, output[..], base, provided) && |before| == output.Length
    modifies output
    ensures !full ==> Inv(s', values', t, m, input, before, output[..], base, provided) && s'.source >= s.source
    ensures full ==> held <= values' <= Scan(t, m, input).values && |Decode(values')| > provided
    ensures full ==> |Decode(held)| <= provided && output[..] == Store(before, base, Decode(held))
  {
    hide Decode, Store, Run, Leftover;
    s', full, values', held := s, false, values, values;
    while s'.quadPos == 0 && s'.source + 4 <= |input|
      invariant Inv(s', values', t, m, input, before, output[..], base, provided) && s'.source >= s.source
      decreases |input| - s'.source
    {
      var taken;
      held := values';
      s', taken, full, values' := QuartetStep(s', t, m, input, output, base, provided, values', before);
      if full {
        return;
      }
      if !taken {
        break;
      }
    }
  }

  lemma DecodeQuartet(v: seq<byte>)
    requires |v| == 4
    ensures Decode(v) == [First(v[0], v[1]), Second(v[1], v[2]), Third(v[2], v[3])]
  {
    hide First, Second, Third;
    DecodeStep(v);
    assert v[4..] == [] && Decode(v[4..]) == [];
  }

  /** The two block paths, tried while no quartet is open: the kernel first, else a run of symbols. */
  method BlockPaths(backend: Backend, wide: bool, alt: Altchars, s: State, m: Mode, input: seq<byte>,
                    output: array<byte>, base: nat, provided: nat, ghost values: seq<byte>, ghost before: seq<byte>)
    returns (s': State, taken: bool, full: bool, ghost values': seq<byte>, ghost held: seq<byte>)
    requires Inv(s, values, LenientTable(alt), m, input, before, output[..], base, provided)
    requires |before| == output.Length
    modifies output
    ensures !full ==> Inv(s', values', LenientTable(alt), m, input, before, output[..], base, provided)
    ensures !full ==> if taken then s'.source > s.source else s'.source >= s.source
    ensures full ==> held <= values' <= Scan(LenientTable(alt), m, input).values && |Decode(values')| > provided
    ensures full ==> |Decode(held)| <= provided && output[..] == Store(before, base, Decode(held))
  {
    hide Decode, Store, Leftover, LenientValue, Run;
    s', taken, full, values', held := s, false, false, values, values;
    if s.quadPos != 0 {
      return;
    }
    var available := false;
    if alt == NoAltchars || alt == URLSAFE_ALTCHARS {
      var a := if alt == NoAltchars then Standard else Mixed;
      s', available, values' := KernelStep(backend, wide, a, alt, s, m, input, output, base, provided, values, before);
    }
    if !available {
      held := values';
      s', taken, full, values' := RunStep(backend, wide, alt, s', m, input, output, base, provided, values', before);
    }
  }

  // ----- the whole decoder -----

  /** Decodes with every fast path. Success and the bytes are those of the one-byte machine; the
      destination is too small exactly when the values scanned need more room than `provided`. */
  method DecodeLenientToPtr(backend: Backend, wide: bool, alt: Altchars, m: Mode, input: seq<byte>,
                            output: array<byte>, base: nat, provided: nat)
    returns (r: LenientResult, ghost held: seq<byte>)
    requires base + provided <= output.Length
    modifies output
    ensures var o := Scan(LenientTable(alt), m, input);
            && (r == LenientTooSmall <==> |Decode(o.values)| > provided)
            && (r.LenientOk? ==> o.accepted && r.written == |Decode(o.values)|)
            && (r == LenientInvalid ==> !o.accepted)
            && held <= o.values && (r != LenientTooSmall ==> held == o.values)
    ensures |Decode(held)| <= provided && output[..] == Store(old(output[..]), base, Decode(held))
  {
    hide Decode, Store, Leftover, LenientValue, Run;
    ghost var before := output[..];
    var t := LenientTable(alt);
    var s := State(0, 0, 0, 0, 0);
    ghost var values: seq<byte> := [];
    ghost var o := Scan(t, m, input);
    InitialState(t, m, input, before, base, provided);
    while s.source < |input|
      invariant Inv(s, values, t, m, input, before, output[..], base, provided)
      decreases |input| - s.source
    {
      ghost var start := s.source;
      if s.quadPos == 0 {
        s := SkipDiscarded(s, t, m, input, values, before, output[..], base, provided);
        if s.source == |input| {
          break;
        }
      }
      var full, taken;
      s, taken, full, values, held :=
        BlockPaths(backend, wide, alt, s, m, input, output, base, provided, values, before);
      if full {
        TooSmall(o.values, held, values, provided);
        return LenientTooSmall, held;
      }
      if taken {
        continue;
      }
      s, full, values, held := QuartetLoop(s, t, m, input, output, base, provided, values, before);
      if full {
        TooSmall(o.values, held, values, provided);
        return LenientTooSmall, held;
      }
      if s.source == |input| {
        break;
      }
      var status;
      held := values;
      s, status, values := ByteStep(s, t, m, input, output, base, provided, values, before);
      if status == Full {
        TooSmall(o.values, held, values, provided);
        return LenientTooSmall, held;
      }
      if status == Complete {
        return LenientOk(s.written), held;
      }
    }
    held := values;
    FinalState(s, values, t, m, input, before, output[..], base, provided);
    r := if s.quadPos == 1 || (m.padded && s.quadPos != 0 && s.quadPos + s.pads < 4) then LenientInvalid
         else LenientOk(s.written);
  }

  lemma InitialState(t: Table, m: Mode, input: seq<byte>, before: seq<byte>, base: nat, provided: nat)
    requires base + provided <= |before|
    ensures Inv(State(0, 0, 0, 0, 0), [], t, m, input, before, before, base, provided)
  {
    StoreNothing(before, base);
  }

  lemma FinalState(s: State, values: seq<byte>, t: Table, m: Mode, input: seq<byte>, before: seq<byte>, now: seq<byte>,
                   base: nat, provided: nat)
    requires Inv(s, values, t, m, input, before, now, base, provided) && s.source == |input|
    ensures Scan(t, m, input) == Outcome(values, EndsWell(m, |values|, s.pads))
    ensures s.quadPos == |values| % 4
  {
  }

  /** Values that do not fit are among the values of the whole scan. */
  lemma TooSmall(all: seq<byte>, held: seq<byte>, values: seq<byte>, provided: nat)
    requires values <= all && |Decode(values)| > provided
    ensures |Decode(all)| > provided
  {
    DecodeExtends(values, all);
  }
}
