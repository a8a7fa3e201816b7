/** Which byte replacements bring a custom table back to the standard alphabet. */
module TranslationTable {
  import opened Bytes
  import opened Alphabet
  import opened Strict
  import opened Staging

  predicate IsAltchar(alt: Altchars, b: byte) {
    alt.Altchars? && (b == alt.plus || b == alt.slash)
  }

  /** Each altchar that still is a symbol stands for the standard symbol of its value. */
  function AltTarget(t: Table, alt: Altchars, b: byte): byte {
    if IsAltchar(alt, b) && t(b) < 64 then StandardSymbol(t(b)) else b
  }

  function Replaced(sources: seq<byte>, targets: seq<byte>, b: byte): byte
    requires |sources| == |targets|
  {
    if |sources| >= 1 && b == sources[0] then targets[0]
    else if |sources| >= 2 && b == sources[1] then targets[1]
    else b
  }

  /** Collects the altchars that need replacing: duplicates and unchanged symbols are skipped, and a
      lone pair is stored twice. */
  method NewTranslation(t: Table, alt: Altchars) returns (r: Option<Translation>)
    ensures forall b: byte :: TranslateByte(r, b) == AltTarget(t, alt, b)
    ensures r.None? <==> forall b: byte :: AltTarget(t, alt, b) == b
  {
    hide StandardSymbol;
    if alt == NoAltchars {
      return None;
    }
    var sources: seq<byte>, targets: seq<byte> := [], [];
    var k := 0;
    while k < 2
      invariant 0 <= k <= 2 && |sources| == |targets| <= k
      invariant k == 1 && sources != [] ==> sources[0] == alt.plus
      invariant sources != [] ==> AltTarget(t, alt, sources[0]) == targets[0] != sources[0]
      invariant forall b: byte ::
                  Replaced(sources, targets, b) ==
                  if (k >= 1 && b == alt.plus) || (k >= 2 && b == alt.slash) then AltTarget(t, alt, b) else b
    {
      var b := if k == 0 then alt.plus else alt.slash;
      ghost var sources0, targets0 := sources, targets;
      if b !in sources {
        var value := t(b);
        if value < 64 && StandardSymbol(value) != b {
          sources, targets := sources + [b], targets + [StandardSymbol(value)];
        }
      } else {
        assert k == 1 && sources == [sources[0]] && b == sources[0];
        assert Replaced(sources, targets, b) == AltTarget(t, alt, b);
      }
      forall c: byte
        ensures Replaced(sources, targets, c) ==
                  if c == b then AltTarget(t, alt, b) else Replaced(sources0, targets0, c)
      {
        assert Replaced(sources0, targets0, c) == Replaced(sources0, targets0, c);
      }
      k := k + 1;
    }
    if |sources| == 0 {
      r := None;
    } else if |sources| == 1 {
      r := Some(Translation(sources[0], targets[0], sources[0], targets[0]));
    } else {
      r := Some(Translation(sources[0], targets[0], sources[1], targets[1]));
    }
    forall b: byte ensures TranslateByte(r, b) == AltTarget(t, alt, b) {
      assert TranslateByte(r, b) == Replaced(sources, targets, b);
    }
  }

  /** After translation every symbol of a lenient table is a standard symbol of the same value. */
  lemma LenientTranslates(alt: Altchars, b: byte)
    requires LenientValue(alt, b) < 64
    ensures StrictValue(Standard, AltTarget(LenientTable(alt), alt, b)) == LenientValue(alt, b)
  {
    if IsAltchar(alt, b) {
      SymbolValueInverse(LenientValue(alt, b));
    }
  }
}
