/** The alphabets as they are written (tables 1 and 2 of RFC 4648), and decoded bytes in plain numbers. */
module Characters {
  import opened Bytes
  import opened Alphabet
  import opened EncodeSpec
  import opened EncodeApi

  const UPPER: string := "ABCDEFGHIJKLMNOPQRSTUVWXYZ"
  const LOWER: string := "abcdefghijklmnopqrstuvwxyz"
  const DIGITS: string := "0123456789"
  const ALPHABET: string := UPPER + LOWER + DIGITS + "+/"

  predicate IsLetterOrDigit(b: byte) {
    b as char in UPPER || b as char in LOWER || b as char in DIGITS
  }

  // ----- symbols -----

  lemma Upper(v: byte)
    requires v < 26
    ensures StandardSymbol(v) as char == UPPER[v as nat]
  {
  }

  lemma Lower(v: byte)
    requires 26 <= v < 52
    ensures StandardSymbol(v) as char == LOWER[v as nat - 26]
  {
  }

  lemma Digit(v: byte)
    requires 52 <= v < 62
    ensures StandardSymbol(v) as char == DIGITS[v as nat - 52]
  {
  }

  /** Each value's symbol stands at its place in the alphabet. */
  lemma SymbolIs(v: byte)
    requires v < 64
    ensures StandardSymbol(v) as char == ALPHABET[v as nat]
  {
    hide StandardSymbol;
    if v < 26 {
      Upper(v);
    } else if v < 52 {
      Lower(v);
    } else if v < 62 {
      Digit(v);
    } else {
      LastTwo();
    }
  }

  lemma LastTwo()
    ensures StandardSymbol(62) as char == '+' && StandardSymbol(63) as char == '/'
  {
  }

  /** The URL-safe alphabet and altchars replace the last two. */
  lemma AltSymbolIs(alt: Altchars, v: byte)
    requires v < 64
    ensures v < 62 || alt == NoAltchars ==> AltSymbol(alt, v) as char == ALPHABET[v as nat]
    ensures alt.Altchars? ==> AltSymbol(alt, 62) == alt.plus && AltSymbol(alt, 63) == alt.slash
    ensures v < 62 ==> UrlSafeSymbol(v) as char == ALPHABET[v as nat]
    ensures UrlSafeSymbol(62) as char == '-' && UrlSafeSymbol(63) as char == '_'
  {
    hide StandardSymbol;
    SymbolIs(v);
  }

  // ----- values -----

  lemma SameCharacter(b: byte, c: byte)
    requires b as char == c as char
    ensures b == c
  {
  }

  lemma ValueSpelled(b: byte)
    requires StrictValue(Standard, b) < 64
    ensures ALPHABET[StrictValue(Standard, b) as nat] == b as char
  {
    hide StrictValue, StandardSymbol;
    ValueSymbolInverse(b);
    SymbolIs(StrictValue(Standard, b));
  }

  function Place(k: nat): (v: byte)
    requires k < 64
    ensures v as nat == k && v < 64
  {
    k as byte
  }

  lemma PlaceRead(b: byte, k: nat)
    requires k < 64 && ALPHABET[k] == b as char
    ensures StrictValue(Standard, b) as nat == k
  {
    hide ALPHABET, StrictValue, StandardSymbol;
    var v := Place(k);
    SymbolIs(v);
    SameCharacter(StandardSymbol(v), b);
    SymbolValueInverse(v);
  }

  /** The strict tables read exactly the characters of their alphabets, each as its place. */
  lemma ValueIs(b: byte)
    ensures StrictValue(Standard, b) < 64 <==> b as char in ALPHABET
    ensures StrictValue(Standard, b) < 64 ==> ALPHABET[StrictValue(Standard, b) as nat] == b as char
    ensures StrictValue(UrlSafe, b) < 64 <==> b as char == '-' || b as char == '_' || IsLetterOrDigit(b)
    ensures StrictValue(Mixed, b) < 64 <==> b as char == '-' || b as char == '_' || b as char in ALPHABET
    ensures b as char == '-' ==> StrictValue(UrlSafe, b) == StrictValue(Mixed, b) == 62
    ensures b as char == '_' ==> StrictValue(UrlSafe, b) == StrictValue(Mixed, b) == 63
    ensures b as char in ALPHABET ==> StrictValue(Mixed, b) == StrictValue(Standard, b)
    ensures IsLetterOrDigit(b) ==> StrictValue(UrlSafe, b) == StrictValue(Standard, b)
  {
    hide ALPHABET, StrictValue;
    if StrictValue(Standard, b) < 64 {
      ValueSpelled(b);
    }
    if b as char in ALPHABET {
      var k :| 0 <= k < |ALPHABET| && ALPHABET[k] == b as char;
      AlphabetLength();
      PlaceRead(b, k);
    }
    AlphabetParts(b);
    OtherTables(b);
    LetterOrDigit(b);
  }

  lemma AlphabetLength()
    ensures |ALPHABET| == 64
  {
  }

  lemma AlphabetParts(b: byte)
    ensures b as char in ALPHABET <==> IsLetterOrDigit(b) || b as char == '+' || b as char == '/'
  {
    hide UPPER, LOWER, DIGITS;
  }

  lemma OtherTables(b: byte)
    ensures IsAlphanumeric(b) ==> StrictValue(UrlSafe, b) == StrictValue(Mixed, b) == StrictValue(Standard, b) < 64
    ensures b as char == '-' ==> StrictValue(UrlSafe, b) == StrictValue(Mixed, b) == 62
    ensures b as char == '_' ==> StrictValue(UrlSafe, b) == StrictValue(Mixed, b) == 63
    ensures b as char == '+' ==> StrictValue(UrlSafe, b) >= 64 && StrictValue(Mixed, b) == StrictValue(Standard, b) < 64
    ensures b as char == '/' ==> StrictValue(UrlSafe, b) >= 64 && StrictValue(Mixed, b) == StrictValue(Standard, b) < 64
    ensures !IsAlphanumeric(b) && b as char !in {'-', '_', '+', '/'} ==>
              StrictValue(UrlSafe, b) >= 64 && StrictValue(Mixed, b) >= 64 && StrictValue(Standard, b) >= 64
    ensures b as char in {'-', '_'} ==> StrictValue(Standard, b) >= 64
  {
  }

  lemma UpperRange(b: byte)
    ensures b as char in UPPER <==> 65 <= b <= 90
  {
    hide UPPER;
    if b as char in UPPER {
      UpperLength();
      var k :| 0 <= k < |UPPER| && UPPER[k] == b as char;
      var v := Place(k);
      Upper(v);
      SameCharacter(StandardSymbol(v), b);
    }
    if 65 <= b <= 90 {
      UpperLength();
      Upper(b - 65);
      UpperPlace(b);
    }
  }

  lemma UpperLength()
    ensures |UPPER| == 26
  {
  }

  lemma UpperPlace(b: byte)
    requires 65 <= b <= 90
    ensures StandardSymbol(b - 65) == b && (b - 65) as nat < 26
  {
  }

  lemma LowerRange(b: byte)
    ensures b as char in LOWER <==> 97 <= b <= 122
  {
    hide LOWER;
    if b as char in LOWER {
      LowerLength();
      var k :| 0 <= k < |LOWER| && LOWER[k] == b as char;
      var v := Place(k + 26);
      Lower(v);
      SameCharacter(StandardSymbol(v), b);
    }
    if 97 <= b <= 122 {
      LowerLength();
      Lower(b - 97 + 26);
      LowerPlace(b);
    }
  }

  lemma LowerLength()
    ensures |LOWER| == 26
  {
  }

  lemma LowerPlace(b: byte)
    requires 97 <= b <= 122
    ensures StandardSymbol(b - 97 + 26) == b && (b - 97 + 26) as nat < 52
  {
  }

  lemma DigitRange(b: byte)
    ensures b as char in DIGITS <==> 48 <= b <= 57
  {
    hide DIGITS;
    if b as char in DIGITS {
      DigitLength();
      var k :| 0 <= k < |DIGITS| && DIGITS[k] == b as char;
      var v := Place(k + 52);
      Digit(v);
      SameCharacter(StandardSymbol(v), b);
    }
    if 48 <= b <= 57 {
      DigitLength();
      Digit(b - 48 + 52);
      DigitPlace(b);
    }
  }

  lemma DigitLength()
    ensures |DIGITS| == 10
  {
  }

  lemma DigitPlace(b: byte)
    requires 48 <= b <= 57
    ensures StandardSymbol(b - 48 + 52) == b && (b - 48 + 52) as nat < 62
  {
  }

  lemma LetterOrDigit(b: byte)
    ensures IsLetterOrDigit(b) <==> IsAlphanumeric(b)
  {
    hide UPPER, LOWER, DIGITS;
    UpperRange(b);
    LowerRange(b);
    DigitRange(b);
  }

  // ----- known texts (section 10 of RFC 4648) -----

  lemma KnownValues()
    ensures Values([102, 111, 111]) == [25, 38, 61, 47] && Values([98, 97, 114]) == [24, 38, 5, 50]
    ensures Values([102]) == [25, 32] && Values([102, 111]) == [25, 38, 60]
    ensures Values([98]) == [24, 32] && Values([98, 97]) == [24, 38, 4]
  {
  }

  lemma KnownLongValues()
    ensures Values([102, 111, 111, 98]) == [25, 38, 61, 47, 24, 32]
    ensures Values([102, 111, 111, 98, 97]) == [25, 38, 61, 47, 24, 38, 4]
    ensures Values([102, 111, 111, 98, 97, 114]) == [25, 38, 61, 47, 24, 38, 5, 50]
  {
    hide Values;
    var foo: seq<byte> := [102, 111, 111];
    KnownValues();
    ValuesConcat(foo, [98]);
    ValuesConcat(foo, [98, 97]);
    ValuesConcat(foo, [98, 97, 114]);
    assert foo + [98] == [102, 111, 111, 98];
    assert foo + [98, 97] == [102, 111, 111, 98, 97];
    assert foo + [98, 97, 114] == [102, 111, 111, 98, 97, 114];
  }

  /** The texts of "f", "fo" and "foo". */
  lemma KnownTexts()
    ensures var t := SymbolTable(StandardAlphabet);
            && Encoded(t, true, [102]) == [90, 103, 61, 61]
            && Encoded(t, true, [102, 111]) == [90, 109, 56, 61]
            && Encoded(t, true, [102, 111, 111]) == [90, 109, 57, 118]
  {
    hide Values;
    KnownValues();
  }

  /** And of "foob", "fooba" and "foobar". */
  lemma KnownLongTexts()
    ensures var t := SymbolTable(StandardAlphabet);
            && Encoded(t, true, [102, 111, 111, 98]) == [90, 109, 57, 118, 89, 103, 61, 61]
            && Encoded(t, true, [102, 111, 111, 98, 97]) == [90, 109, 57, 118, 89, 109, 69, 61]
            && Encoded(t, true, [102, 111, 111, 98, 97, 114]) == [90, 109, 57, 118, 89, 109, 70, 121]
  {
    hide Values;
    KnownLongValues();
  }
}
