/** Lane arithmetic of the vector encoders: two multiply-and-shift extractions and the multishift
extraction of 6-bit fields, and the offset table that turns values into symbols. */
module EncodeLanes {
  import opened Bytes
  import opened Alphabet
  import opened Quantum
  import opened EncodeSpec

  /** How a vector encoder takes the fields of a 32-bit lane apart. */
  datatype Extraction = HighMultiply | LowMultiplyShift

  function Word(lo: byte, hi: byte): bv16 { ((hi as bv16) << 8) | lo as bv16 }
  function LowByte(w: bv16): byte { (w & 0xff) as byte }
  function HighByte(w: bv16): byte { (w >> 8) as byte }

  /** One lane of a high multiply: the upper half of the unsigned product. */
  function MulHigh(w: bv16, m: bv16): bv16 {
    (((w as bv32) * (m as bv32)) >> 16) as bv16
  }

  function FieldsLow(e: Extraction, w: bv16): bv16 {
    (if e == HighMultiply then MulHigh(w & 0xfc00, 0x0040) else (w * 0x0001) >> 10)
    | ((w & 0x03f0) * 0x0010)
  }

  function FieldsHigh(e: Extraction, w: bv16): bv16 {
    (if e == HighMultiply then MulHigh(w & 0x0fc0, 0x0400) else (w * 0x0010) >> 10)
    | ((w & 0x003f) * 0x0100)
  }

  /** Both extractions split a shuffled group into its four values. */
  lemma FieldsAreGroup(e: Extraction, a: byte, b: byte, c: byte)
    ensures LowByte(FieldsLow(e, Word(b, a))) == SextetA(a)
    ensures HighByte(FieldsLow(e, Word(b, a))) == SextetB(a, b)
    ensures LowByte(FieldsHigh(e, Word(c, b))) == SextetC(b, c)
    ensures HighByte(FieldsHigh(e, Word(c, b))) == SextetD(c)
  {
    hide FieldsLow, FieldsHigh;
    LowFields(e, a, b);
    HighFields(e, b, c);
  }

  lemma LowFields(e: Extraction, a: byte, b: byte)
    ensures LowByte(FieldsLow(e, Word(b, a))) == SextetA(a)
    ensures HighByte(FieldsLow(e, Word(b, a))) == SextetB(a, b)
  {
  }

  lemma HighFields(e: Extraction, b: byte, c: byte)
    ensures LowByte(FieldsHigh(e, Word(c, b))) == SextetC(b, c)
    ensures HighByte(FieldsHigh(e, Word(c, b))) == SextetD(c)
  {
  }

  /** The fields of every 32-bit lane of a shuffled vector. */
  function Fields(e: Extraction, m: seq<byte>): (v: seq<byte>)
    ensures |v| == |m| / 4 * 4
  {
    if |m| < 4 then []
    else
      var lo, hi := FieldsLow(e, Word(m[0], m[1])), FieldsHigh(e, Word(m[2], m[3]));
      [LowByte(lo), HighByte(lo), LowByte(hi), HighByte(hi)] + Fields(e, m[4..])
  }

  /** The bytes of each group in the order the extractions need. */
  function Spread(s: seq<byte>): (m: seq<byte>)
    ensures |m| == |s| / 3 * 4
  {
    if |s| < 3 then [] else [s[1], s[0], s[2], s[1]] + Spread(s[3..])
  }

  lemma {:induction false} SpreadConcat(s: seq<byte>, u: seq<byte>)
    requires |s| % 3 == 0
    ensures Spread(s + u) == Spread(s) + Spread(u)
  {
    if |s| == 0 {
      assert s + u == u;
    } else {
      assert (s + u)[3..] == s[3..] + u;
      SpreadConcat(s[3..], u);
      ConcatAssociates([s[1], s[0], s[2], s[1]], Spread(s[3..]), Spread(u));
    }
  }

  lemma {:induction false} SpreadAt(s: seq<byte>, g: nat)
    requires 3 * g + 3 <= |s|
    ensures 4 * g + 4 <= |Spread(s)|
    ensures Spread(s)[4 * g..4 * g + 4] == [s[3 * g + 1], s[3 * g], s[3 * g + 2], s[3 * g + 1]]
  {
    if g > 0 {
      SpreadAt(s[3..], g - 1);
      assert Spread(s)[4 * g..4 * g + 4] == Spread(s[3..])[4 * (g - 1)..4 * (g - 1) + 4];
    }
  }

  /** The fields of spread bytes are their values. */
  lemma {:induction false} FieldsOfSpread(e: Extraction, s: seq<byte>)
    requires |s| % 3 == 0
    ensures Fields(e, Spread(s)) == Values(s)
  {
    if |s| >= 3 {
      hide FieldsLow, FieldsHigh, Word, LowByte, HighByte, SextetA, SextetB, SextetC, SextetD, Values;
      FieldsAreGroup(e, s[0], s[1], s[2]);
      FieldsOfSpread(e, s[3..]);
      ValuesStep(s);
      assert Spread(s)[4..] == Spread(s[3..]);
    } else {
      assert s == [];
    }
  }

  // ----- the multishift of the 512-bit encoder -----

  function Qword(x: seq<byte>): bv64
    requires |x| == 8
  {
    (x[0] as bv64) | (x[1] as bv64 << 8) | (x[2] as bv64 << 16) | (x[3] as bv64 << 24)
    | (x[4] as bv64 << 32) | (x[5] as bv64 << 40) | (x[6] as bv64 << 48) | (x[7] as bv64 << 56)
  }

  /** The low six bits of the field that a control byte selects; the table lookup ignores the rest. */
  function Field(q: bv64, shift: bv64): byte
    requires shift < 64
  {
    ((q >> shift) & 0x3f) as byte
  }

  /** MULTISHIFT_SHIFTS: the bit offsets of the eight fields of a lane. */
  function MultishiftFields(q: bv64): (v: seq<byte>)
    ensures |v| == 8
  {
    [Field(q, 10), Field(q, 4), Field(q, 22), Field(q, 16), Field(q, 42), Field(q, 36), Field(q, 54), Field(q, 48)]
  }

  /** The lane of two spread groups. */
  function PairLane(a: byte, b: byte, c: byte, d: byte, e: byte, f: byte): bv64 {
    (b as bv64) | (a as bv64 << 8) | (c as bv64 << 16) | (b as bv64 << 24)
    | (e as bv64 << 32) | (d as bv64 << 40) | (f as bv64 << 48) | (e as bv64 << 56)
  }

  lemma FieldAt(a: byte, b: byte, c: byte, d: byte, e: byte, f: byte)
    ensures var q := PairLane(a, b, c, d, e, f);
            && Field(q, 10) == SextetA(a) && Field(q, 4) == SextetB(a, b)
            && Field(q, 22) == SextetC(b, c) && Field(q, 16) == SextetD(c)
            && Field(q, 42) == SextetA(d) && Field(q, 36) == SextetB(d, e)
            && Field(q, 54) == SextetC(e, f) && Field(q, 48) == SextetD(f)
  {
  }

  /** The multishift of every 64-bit lane. */
  function Multishift(m: seq<byte>): (v: seq<byte>)
    ensures |v| == |m| / 8 * 8
  {
    if |m| < 8 then [] else MultishiftFields(Qword(m[..8])) + Multishift(m[8..])
  }

  lemma SpreadSix(s: seq<byte>)
    requires |s| == 6
    ensures Spread(s) == [s[1], s[0], s[2], s[1], s[4], s[3], s[5], s[4]]
  {
    assert s[3..][3..] == [] && Spread(s[3..][3..]) == [];
  }

  lemma ValuesSix(s: seq<byte>)
    requires |s| == 6
    ensures Values(s) == Group(s[0], s[1], s[2]) + Group(s[3], s[4], s[5])
  {
    hide Group;
    ValuesStep(s);
    ValuesStep(s[3..]);
    assert s[3..][3..] == [];
    EmptyValues();
  }

  lemma QwordOfSpread(s: seq<byte>)
    requires |s| == 6
    ensures Qword(Spread(s)) == PairLane(s[0], s[1], s[2], s[3], s[4], s[5])
  {
    hide Spread;
    SpreadSix(s);
  }

  /** One lane: two groups. */
  lemma MultishiftLane(s: seq<byte>)
    requires |s| == 6
    ensures MultishiftFields(Qword(Spread(s))) == Values(s)
  {
    hide SextetA, SextetB, SextetC, SextetD, Field, Values, Spread, Qword, PairLane;
    QwordOfSpread(s);
    ValuesSix(s);
    FieldAt(s[0], s[1], s[2], s[3], s[4], s[5]);
  }

  lemma EmptyValues()
    ensures Values([]) == []
  {
  }

  lemma {:induction false} MultishiftOfSpread(s: seq<byte>)
    requires |s| % 6 == 0
    ensures Multishift(Spread(s)) == Values(s)
  {
    hide SextetA, SextetB, SextetC, SextetD, Values, MultishiftFields, Qword, Spread;
    if |s| >= 6 {
      assert s == s[..6] + s[6..];
      MultishiftLane(s[..6]);
      MultishiftOfSpread(s[6..]);
      SpreadConcat(s[..6], s[6..]);
      ValuesConcat(s[..6], s[6..]);
      var m := Spread(s);
      assert m[..8] == Spread(s[..6]) && m[8..] == Spread(s[6..]);
    } else {
      EmptyValues();
      assert s == [];
    }
  }

  // ----- symbols -----

  /** An alphabet whose first 62 symbols are the standard ones. */
  ghost predicate HasStandardPrefix(sym: Table) {
    forall v: byte :: v < 62 ==> sym(v) == StandardSymbol(v)
  }

  /** The offset table of an alphabet: which number takes a value of each class to its symbol. */
  function Offset(sym: Table, at: byte): byte {
    if at == 0 then 65
    else if at == 1 then 71
    else if at < 12 then 252
    else if at == 12 then sym(62) - 62
    else if at == 13 then sym(63) - 63
    else 0
  }

  function SubtractSaturated(x: byte, y: byte): byte { if x < y then 0 else x - y }

  /** Value to symbol: a saturated subtraction and a signed comparison pick the offset. */
  function AsciiLane(sym: Table, i: byte): byte {
    var at := SubtractSaturated(i, 51) - (if i < 128 && i > 25 then 0xff else 0);
    if at >= 0x80 then i else i + Offset(sym, at & 0x0f)
  }

  lemma AsciiIsSymbol(sym: Table, i: byte)
    requires HasStandardPrefix(sym) && i < 64
    ensures AsciiLane(sym, i) == sym(i)
  {
  }

  function AsciiVector(sym: Table, v: seq<byte>): (r: seq<byte>)
    ensures |r| == |v|
  {
    Map((i: byte) => AsciiLane(sym, i), v)
  }

  /** A whole vector: extraction and translation give the encoding of the spread bytes. */
  lemma EncodedVector(e: Extraction, sym: Table, s: seq<byte>)
    requires HasStandardPrefix(sym) && |s| % 3 == 0
    ensures AsciiVector(sym, Fields(e, Spread(s))) == Symbols(sym, s)
  {
    hide AsciiLane, Fields, Spread, Values, HasStandardPrefix;
    FieldsOfSpread(e, s);
    ValuesSextets(s);
    var v := Values(s);
    forall k | 0 <= k < |v| ensures AsciiLane(sym, v[k]) == sym(v[k]) {
      AsciiIsSymbol(sym, v[k]);
    }
  }
}
