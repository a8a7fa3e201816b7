/** Alphabets and the 256-entry tables built from them (sections 4 and 5 of RFC 4648). */
module Alphabet {
  import opened Bytes

  const EQUALS: byte := 61 // '='
  const NEWLINE: byte := 10
  const INVALID_VALUE: byte := 255

  datatype DecodeAlphabet = Standard | UrlSafe | Mixed

  /** The optional replacements for '+' and '/'. */
  datatype Altchars = NoAltchars | Altchars(plus: byte, slash: byte)

  const URLSAFE_ALTCHARS := Altchars(45, 95) // "-_"

  predicate IsAlphanumeric(b: byte) {
    65 <= b <= 90 || 97 <= b <= 122 || 48 <= b <= 57
  }

  function StandardSymbol(v: byte): byte {
    if v < 26 then v + 65
    else if v < 52 then v + 71
    else if v < 62 then v - 4
    else if v == 62 then 43
    else 47
  }

  function UrlSafeSymbol(v: byte): byte {
    if v == 62 then 45 else if v == 63 then 95 else StandardSymbol(v)
  }

  /** The strict decode tables, entry by entry. */
  function StrictValue(a: DecodeAlphabet, b: byte): byte {
    if 65 <= b <= 90 then b - 65
    else if 97 <= b <= 122 then b - 71
    else if 48 <= b <= 57 then b + 4
    else if b == 45 && a != Standard then 62
    else if b == 95 && a != Standard then 63
    else if b == 43 && a != UrlSafe then 62
    else if b == 47 && a != UrlSafe then 63
    else INVALID_VALUE
  }

  function StrictTable(a: DecodeAlphabet): Table {
    (b: byte) => StrictValue(a, b)
  }

  function Assign(t: Table, at: byte, value: byte): Table {
    (b: byte) => if b == at then value else t(b)
  }

  /** Builds a strict table the way the constants are built, one entry at a time. */
  method BuildDecodeTable(urlsafe: bool, mixed: bool) returns (table: Table)
    ensures forall b: byte ::
              table(b) == StrictValue(if mixed then Mixed else if urlsafe then UrlSafe else Standard, b)
  {
    table := (_: byte) => INVALID_VALUE;
    var index: byte := 0;
    while index < 26
      invariant index <= 26
      invariant forall b: byte ::
                  table(b) == if 65 <= b < 65 + index then b - 65
                              else if 97 <= b < 97 + index then b - 71 else INVALID_VALUE
      decreases 26 - index
    {
      table := Assign(table, 65 + index, index);
      table := Assign(table, 97 + index, index + 26);
      index := index + 1;
    }
    index := 0;
    while index < 10
      invariant index <= 10
      invariant forall b: byte ::
                  table(b) == if 65 <= b <= 90 then b - 65
                              else if 97 <= b <= 122 then b - 71
                              else if 48 <= b < 48 + index then b + 4 else INVALID_VALUE
      decreases 10 - index
    {
      table := Assign(table, 48 + index, index + 52);
      index := index + 1;
    }
    if urlsafe || mixed {
      table := Assign(table, 45, 62);
      table := Assign(table, 95, 63);
    }
    if !urlsafe || mixed {
      table := Assign(table, 43, 62);
      table := Assign(table, 47, 63);
    }
  }

  /** The lenient table: 64 marks a byte that is not a symbol; altchars override, slash last. */
  function LenientValue(alt: Altchars, b: byte): byte {
    if alt.Altchars? && b == alt.slash then 63
    else if alt.Altchars? && b == alt.plus then 62
    else if StrictValue(Standard, b) == INVALID_VALUE then 64
    else StrictValue(Standard, b)
  }

  function LenientTable(alt: Altchars): Table {
    (b: byte) => LenientValue(alt, b)
  }

  predicate IsLenientSymbol(b: byte, alt: Altchars) {
    || (65 <= b <= 90) || (97 <= b <= 122) || (48 <= b <= 57) || b == 43 || b == 47
    || (alt.Altchars? && (b == alt.plus || b == alt.slash))
  }

  /** The alphabet whose kernels read the same symbols as the lenient table. */
  predicate FastAlphabet(alt: Altchars, a: DecodeAlphabet) {
    (alt == NoAltchars && a == Standard) || (alt == URLSAFE_ALTCHARS && a == Mixed)
  }

  predicate AllSymbols(t: Table, s: seq<byte>) {
    forall k :: 0 <= k < |s| ==> t(s[k]) < 64
  }

  lemma SymbolTables(b: byte, alt: Altchars)
    ensures IsLenientSymbol(b, alt) <==> LenientValue(alt, b) < 64
    ensures LenientValue(alt, b) <= 64
    ensures LenientValue(URLSAFE_ALTCHARS, b)
         == if StrictValue(Mixed, b) == INVALID_VALUE then 64 else StrictValue(Mixed, b)
  {
  }

  lemma StrictValuesAreSymbols(a: DecodeAlphabet, alt: Altchars, b: byte)
    requires FastAlphabet(alt, a) || (alt == URLSAFE_ALTCHARS && a == UrlSafe)
    ensures StrictValue(a, b) < 64 || StrictValue(a, b) == INVALID_VALUE
    ensures StrictValue(a, b) < 64 ==> LenientValue(alt, b) == StrictValue(a, b)
    ensures FastAlphabet(alt, a) ==> (StrictValue(a, b) < 64 <==> LenientValue(alt, b) < 64)
  {
  }

  lemma SymbolValueInverse(v: byte)
    requires v < 64
    ensures StrictValue(Standard, StandardSymbol(v)) == v && StrictValue(Mixed, StandardSymbol(v)) == v
    ensures StrictValue(UrlSafe, UrlSafeSymbol(v)) == v && StrictValue(Mixed, UrlSafeSymbol(v)) == v
    ensures StandardSymbol(v) != EQUALS && UrlSafeSymbol(v) != EQUALS
    ensures StandardSymbol(v) != NEWLINE && UrlSafeSymbol(v) != NEWLINE
  {
  }

  lemma ValueSymbolInverse(b: byte)
    ensures StrictValue(Standard, b) < 64 ==> StandardSymbol(StrictValue(Standard, b)) == b
    ensures StrictValue(UrlSafe, b) < 64 ==> UrlSafeSymbol(StrictValue(UrlSafe, b)) == b
  {
  }
}
