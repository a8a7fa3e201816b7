/** Building a configured decoder: its table, the special bytes its fast scanner searches for, and
the translation that lets it reuse the standard kernels. */
module ConfiguredTable {
  import opened Bytes
  import opened Alphabet
  import opened Strict
  import opened Staging
  import opened TranslationTable
  import opened ConfiguredSpec

  /** Up to three bytes to search for, or too many for that. */
  datatype Specials = Few(bytes: seq<byte>) | Many

  predicate Searches(s: Specials, b: byte) {
    s.Few? && b in s.bytes
  }

  datatype Decoder = Decoder(table: Table, preservesAlphanumeric: bool, strict: bool, padded: bool, canonical: bool,
                             specials: Specials, forbidden: Specials, translation: Option<Translation>)

  /** Whether the special-byte scanner applies. */
  predicate UsesSpecials(d: Decoder) {
    d.specials.Few? && d.forbidden.Few?
  }

  /** What the scanners rely on. */
  ghost predicate Consistent(d: Decoder) {
    && (forall b: byte :: d.table(b) <= 65)
    && (d.preservesAlphanumeric ==> forall b: byte :: IsAlphanumeric(b) ==> d.table(b) == StrictValue(Standard, b))
    && (UsesSpecials(d) ==> Translatable(d))
  }

  /** Bytes that are neither special nor forbidden are symbols exactly when their translation is a
      standard symbol, and then the values agree. */
  ghost predicate Translatable(d: Decoder) {
    && (forall b: byte :: Searches(d.specials, b) <==> d.table(b) == IGNORED_CONFIGURED_VALUE)
    && (forall b: byte :: Searches(d.forbidden, b) ==> d.table(b) == INVALID_CONFIGURED_VALUE)
    && (forall b: byte :: d.table(b) < 64 ==> StrictValue(Standard, TranslateByte(d.translation, b)) == d.table(b))
    && (forall b: byte :: d.table(b) == INVALID_CONFIGURED_VALUE && !Searches(d.forbidden, b) ==>
          StrictValue(Standard, TranslateByte(d.translation, b)) == INVALID_VALUE)
  }

  /** The bytes that a loop over all of them has seen when it stands at `b`. */
  predicate Passed(c: byte, b: byte, last: bool) {
    c < b || (last && c == b)
  }

  lemma PassedNext(b: byte)
    ensures forall c: byte :: Passed(c, b, true) <==> Passed(c, b, false) || c == b
    ensures b < 255 ==> forall c: byte :: Passed(c, b + 1, false) <==> Passed(c, b, true)
    ensures b == 255 ==> forall c: byte :: Passed(c, b, true)
    ensures (forall c: byte :: !Passed(c, 0, false)) && !Passed(b, b, false)
  {
  }

  ghost predicate FourOf(p: byte -> bool, s: seq<byte>) {
    |s| == 4 && Distinct(s) && forall k :: 0 <= k < 4 ==> p(s[k])
  }

  ghost predicate MoreThanThree(p: byte -> bool) {
    exists s: seq<byte> :: FourOf(p, s)
  }

  ghost predicate ManySpecials(t: Table) {
    MoreThanThree(b => t(b) == IGNORED_CONFIGURED_VALUE)
  }

  ghost predicate ManyForbidden(t: Table) {
    MoreThanThree(b => StrictValue(Standard, b) < 64 && t(b) == INVALID_CONFIGURED_VALUE)
  }

  predicate Distinct(s: seq<byte>) {
    forall j, k :: 0 <= j < k < |s| ==> s[j] != s[k]
  }

  lemma FourMore(p: byte -> bool, s: seq<byte>, b: byte)
    requires |s| == 3 && Distinct(s) && b !in s && p(b) && forall c: byte :: c in s ==> p(c)
    ensures MoreThanThree(p)
  {
    assert FourOf(p, s + [b]);
  }

  lemma FourOfThree(s: seq<byte>, a: byte, b: byte, c: byte, d: byte)
    requires |s| <= 3 && a != b && a != c && a != d && b != c && b != d && c != d
    ensures a !in s || b !in s || c !in s || d !in s
  {
    if |s| == 3 {
      assert s == [s[0], s[1], s[2]];
    } else if |s| == 2 {
      assert s == [s[0], s[1]];
    }
  }

  lemma NoFourth(p: byte -> bool, s: seq<byte>)
    requires |s| <= 3 && forall c: byte :: p(c) ==> c in s
    ensures !MoreThanThree(p)
  {
    if MoreThanThree(p) {
      var u :| FourOf(p, u);
      FourOfThree(s, u[0], u[1], u[2], u[3]);
    }
  }

  /** All bytes with the ignored value, unless there are more than three. */
  method NewSpecials(t: Table) returns (r: Specials)
    ensures r.Many? <==> ManySpecials(t)
    ensures r.Few? ==> |r.bytes| <= 3 && forall b: byte :: b in r.bytes <==> t(b) == IGNORED_CONFIGURED_VALUE
  {
    hide Passed, MoreThanThree;
    var bytes: seq<byte> := [];
    var b: byte, last := 0, false;
    PassedNext(0);
    while !last
      invariant |bytes| <= 3 && Distinct(bytes)
      invariant forall c: byte :: c in bytes <==> Passed(c, b, last) && t(c) == IGNORED_CONFIGURED_VALUE
      invariant last ==> b == 255
      decreases !last, 255 - b
    {
      PassedNext(b);
      if t(b) == IGNORED_CONFIGURED_VALUE {
        if |bytes| == 3 {
          FourMore(c => t(c) == IGNORED_CONFIGURED_VALUE, bytes, b);
          return Many;
        }
        bytes := bytes + [b];
      }
      if b == 255 {
        last := true;
      } else {
        b := b + 1;
      }
    }
    PassedNext(b);
    NoFourth(c => t(c) == IGNORED_CONFIGURED_VALUE, bytes);
    r := Few(bytes);
  }

  /** All standard symbols that the table makes invalid, unless there are more than three. */
  method ForbiddenSymbols(t: Table) returns (r: Specials)
    ensures r.Many? <==> ManyForbidden(t)
    ensures r.Few? ==> |r.bytes| <= 3
    ensures r.Few? ==>
              forall b: byte :: b in r.bytes <==> StrictValue(Standard, b) < 64 && t(b) == INVALID_CONFIGURED_VALUE
  {
    hide StandardSymbol, StrictValue, MoreThanThree;
    var bytes: seq<byte> := [];
    var v: byte := 0;
    while v < 64
      invariant v <= 64 && |bytes| <= 3 && Distinct(bytes)
      invariant forall c: byte :: c in bytes <==> StrictValue(Standard, c) < v && t(c) == INVALID_CONFIGURED_VALUE
      decreases 64 - v
    {
      var b := StandardSymbol(v);
      SymbolValueInverse(v);
      forall c: byte ensures StrictValue(Standard, c) < v + 1 <==> StrictValue(Standard, c) < v || c == b {
        ValueSymbolInverse(c);
      }
      if t(b) == INVALID_CONFIGURED_VALUE {
        if |bytes| == 3 {
          FourMore(c => StrictValue(Standard, c) < 64 && t(c) == INVALID_CONFIGURED_VALUE, bytes, b);
          return Many;
        }
        bytes := bytes + [b];
      }
      v := v + 1;
    }
    NoFourth(c => StrictValue(Standard, c) < 64 && t(c) == INVALID_CONFIGURED_VALUE, bytes);
    r := Few(bytes);
  }

  /** The first special byte of a range. */
  method Find(s: Specials, input: seq<byte>, lo: nat, hi: nat) returns (r: Option<nat>)
    requires s.Few? && lo <= hi <= |input|
    ensures r.None? ==> forall k :: lo <= k < hi ==> !Searches(s, input[k])
    ensures r.Some? ==> lo <= r.value < hi && Searches(s, input[r.value])
    ensures r.Some? ==> forall k :: lo <= k < r.value ==> !Searches(s, input[k])
  {
    var k := lo;
    while k < hi
      invariant lo <= k <= hi && forall j :: lo <= j < k ==> !Searches(s, input[j])
    {
      if input[k] in s.bytes {
        return Some(k);
      }
      k := k + 1;
    }
    r := None;
  }

  /** Fills the table in the source's order: symbols, ignored bytes, then what altchars replace. */
  method BuildConfiguredTable(p: Policy) returns (table: Table)
    ensures forall b: byte :: table(b) == ConfiguredValue(p, b)
  {
    hide StrictValue, LastValue, LenientValue, IsIgnored;
    if p.alphabet.Some? {
      table := AssignAlphabet(p.alphabet.value);
      table := AssignIgnored(p, table);
      table := Assign(table, EQUALS, INVALID_CONFIGURED_VALUE);
    } else {
      table := LenientTable(NoAltchars);
      table := AssignIgnored(p, table);
      table := AssignAltchars(p, table);
    }
    forall b: byte ensures table(b) == ConfiguredValue(p, b) {
      StandardLenient(b);
    }
  }

  method AssignAltchars(p: Policy, table0: Table) returns (table: Table)
    requires p.alphabet.None?
    ensures var custom := p.altchars.Altchars? && p.ignored.Some?;
            forall b: byte :: table(b) ==
              if p.altchars.Altchars? && b == p.altchars.slash && !(custom && b == EQUALS) then 63
              else if p.altchars.Altchars? && b == p.altchars.plus && !(custom && b == EQUALS) then 62
              else if custom && (b == 43 || b == 47) then IgnoredOrInvalid(p, b)
              else table0(b)
  {
    hide IgnoredOrInvalid;
    table := table0;
    var custom := p.altchars.Altchars? && p.ignored.Some?;
    if custom {
      table := Assign(table, 43, IgnoredOrInvalid(p, 43));
      table := Assign(table, 47, IgnoredOrInvalid(p, 47));
    }
    if p.altchars.Altchars? {
      if !custom || p.altchars.plus != EQUALS {
        table := Assign(table, p.altchars.plus, 62);
      }
      if !custom || p.altchars.slash != EQUALS {
        table := Assign(table, p.altchars.slash, 63);
      }
    }
  }

  lemma StandardLenient(b: byte)
    ensures LenientValue(NoAltchars, b) == if StrictValue(Standard, b) < 64 then StrictValue(Standard, b) else 64
  {
  }

  lemma StandardValues()
    ensures forall b: byte :: StrictValue(Standard, b) < 64 || StrictValue(Standard, b) == INVALID_VALUE
    ensures StrictValue(Standard, EQUALS) == INVALID_VALUE
  {
  }

  method AssignAlphabet(alphabet: Table) returns (table: Table)
    ensures forall b: byte :: table(b) == LastValue(alphabet, b, 64)
  {
    table := (_: byte) => INVALID_CONFIGURED_VALUE;
    var value: byte := 0;
    while value < 64
      invariant value <= 64 && forall b: byte :: table(b) == LastValue(alphabet, b, value)
      decreases 64 - value
    {
      table := Assign(table, alphabet(value), value);
      value := value + 1;
    }
  }

  method AssignIgnored(p: Policy, table0: Table) returns (table: Table)
    ensures forall b: byte ::
              table(b) == if IsIgnored(p, b) && table0(b) >= 64 then IGNORED_CONFIGURED_VALUE else table0(b)
  {
    hide IsIgnored, Passed;
    table := table0;
    var b: byte, last := 0, false;
    PassedNext(0);
    while !last
      invariant forall c: byte :: table(c) == if Passed(c, b, last) && IsIgnored(p, c) && table0(c) >= 64
                                              then IGNORED_CONFIGURED_VALUE else table0(c)
      invariant last ==> b == 255
      decreases !last, 255 - b
    {
      PassedNext(b);
      if IsIgnored(p, b) && table(b) >= 64 {
        table := Assign(table, b, IGNORED_CONFIGURED_VALUE);
      }
      if b == 255 {
        last := true;
      } else {
        b := b + 1;
      }
    }
    PassedNext(b);
  }

  /** Whether every alphanumeric standard symbol keeps its value. */
  method PreservesAlphanumeric(t: Table) returns (r: bool)
    ensures r <==> forall b: byte :: IsAlphanumeric(b) ==> t(b) == StrictValue(Standard, b)
  {
    hide StandardSymbol, StrictValue;
    var v: byte := 0;
    while v < 62
      invariant v <= 62
      invariant forall b: byte :: IsAlphanumeric(b) && StrictValue(Standard, b) < v ==> t(b) == StrictValue(Standard, b)
      decreases 62 - v
    {
      SymbolValueInverse(v);
      Alphanumerics(StandardSymbol(v));
      if t(StandardSymbol(v)) != v {
        return false;
      }
      forall b: byte | IsAlphanumeric(b) && StrictValue(Standard, b) == v ensures b == StandardSymbol(v) {
        ValueSymbolInverse(b);
      }
      v := v + 1;
    }
    forall b: byte | IsAlphanumeric(b) ensures t(b) == StrictValue(Standard, b) {
      Alphanumerics(b);
    }
    r := true;
  }

  lemma Alphanumerics(b: byte)
    ensures IsAlphanumeric(b) <==> StrictValue(Standard, b) < 62
  {
  }

  /** Altchars next to an explicit ignore list take standard symbols out of the alphabet. */
  predicate TakesSymbols(p: Policy) {
    (p.altchars.Altchars? || p.alphabet.Some?) && p.ignored.Some?
  }

  /** A decoder prepared for a policy: which scan it uses, what that searches for, and what it translates. */
  ghost predicate Prepared(p: Policy, d: Decoder) {
    && (forall b: byte :: d.table(b) == ConfiguredValue(p, b))
    && d.strict == p.strict && d.padded == p.padded && d.canonical == p.canonical
    && (d.specials.Many? <==> p.alphabet.Some? || (p.ignored.Some? && ManySpecials(d.table)))
    && (d.forbidden.Many? <==> TakesSymbols(p) && ManyForbidden(d.table))
    && (d.forbidden.Few? ==>
          forall b: byte :: Searches(d.forbidden, b) <==>
            TakesSymbols(p) && StrictValue(Standard, b) < 64 && d.table(b) == INVALID_CONFIGURED_VALUE)
    && (p.alphabet.Some? ==> d.translation == None)
    && (p.alphabet.None? ==> forall b: byte :: TranslateByte(d.translation, b) == AltTarget(d.table, p.altchars, b))
    && (d.translation.None? <==> forall b: byte :: TranslateByte(d.translation, b) == b)
  }

  method NewConfiguredDecoder(p: Policy) returns (d: Decoder)
    ensures Prepared(p, d) && Consistent(d)
    ensures forall b: byte :: d.table(b) == ConfiguredValue(p, b)
    ensures d.strict == p.strict && d.padded == p.padded && d.canonical == p.canonical
  {
    hide StandardSymbol, StrictValue, LastValue, TranslateByte, AltTarget, ConfiguredValue, ManySpecials, ManyForbidden;
    var table := BuildConfiguredTable(p);
    var specials, forbidden := Few([]), Few([]);
    if p.alphabet.Some? {
      specials := Many;
    } else if p.ignored.Some? {
      specials := NewSpecials(table);
    }
    if TakesSymbols(p) {
      forbidden := ForbiddenSymbols(table);
    }
    var translation := None;
    if p.alphabet.None? {
      translation := NewTranslation(table, p.altchars);
    }
    var preserves;
    if p.alphabet.None? {
      preserves := p.altchars == NoAltchars || (!IsAlphanumeric(p.altchars.plus) && !IsAlphanumeric(p.altchars.slash));
    } else {
      preserves := PreservesAlphanumeric(table);
    }
    d := Decoder(table, preserves, p.strict, p.padded, p.canonical, specials, forbidden, translation);
    forall b: byte
      ensures table(b) <= 65
      ensures p.alphabet.None? && preserves && IsAlphanumeric(b) ==> table(b) == StrictValue(Standard, b)
      ensures p.ignored.None? ==> table(b) != IGNORED_CONFIGURED_VALUE
    {
      ConfiguredRange(p, b);
    }
    NoTranslation();
    if UsesSpecials(d) {
      forall b: byte
        ensures table(b) < 64 ==> StrictValue(Standard, TranslateByte(translation, b)) == table(b)
        ensures table(b) == INVALID_CONFIGURED_VALUE && !Searches(forbidden, b) ==>
                  StrictValue(Standard, TranslateByte(translation, b)) == INVALID_VALUE
      {
        ConfiguredTranslates(p, table, b);
        StandardValues();
      }
    }
  }

  lemma NoTranslation()
    ensures forall b: byte :: TranslateByte(None, b) == b
  {
  }

  lemma ConfiguredRange(p: Policy, b: byte)
    ensures ConfiguredValue(p, b) <= 65
    ensures p.ignored.None? ==> ConfiguredValue(p, b) != IGNORED_CONFIGURED_VALUE
    ensures p.alphabet.None? && IsAlphanumeric(b) && !IsAltchar(p.altchars, b) ==>
              ConfiguredValue(p, b) == StrictValue(Standard, b)
  {
  }

  /** After translation a configured symbol is the standard symbol of its value, and what is neither a
      configured symbol nor a standard one stays invalid. */
  lemma ConfiguredTranslates(p: Policy, t: Table, b: byte)
    requires p.alphabet.None? && forall c: byte :: t(c) == ConfiguredValue(p, c)
    ensures t(b) < 64 ==> StrictValue(Standard, AltTarget(t, p.altchars, b)) == t(b)
    ensures t(b) >= 64 ==> AltTarget(t, p.altchars, b) == b
    ensures t(b) == INVALID_CONFIGURED_VALUE && StrictValue(Standard, b) < 64 ==>
              p.altchars.Altchars? && p.ignored.Some?
  {
    hide LastValue, StandardSymbol;
    if t(b) < 64 {
      SymbolValueInverse(t(b));
    }
  }
}
