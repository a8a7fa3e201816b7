/** The meaning of encoding: bytes split into 6-bit values (section 4 of RFC 4648), symbols, padding and
line breaks, and how splitting and packing undo each other. */
module EncodeSpec {
  import opened Bytes
  import opened Alphabet
  import opened Quantum
  import opened Division

  function SextetA(a: byte): byte { a >> 2 }
  function SextetB(a: byte, b: byte): byte { ((a & 0x03) << 4) | (b >> 4) }
  function SextetC(b: byte, c: byte): byte { ((b & 0x0f) << 2) | (c >> 6) }
  function SextetD(c: byte): byte { c & 0x3f }

  /** The four values of a group of three bytes. */
  function Group(a: byte, b: byte, c: byte): (v: seq<byte>)
    ensures |v| == 4
  {
    [SextetA(a), SextetB(a, b), SextetC(b, c), SextetD(c)]
  }

  function UnpaddedLen(n: nat): nat {
    n / 3 * 4 + (if n % 3 == 0 then 0 else n % 3 + 1)
  }

  function PaddedLen(n: nat): nat {
    (n + 2) / 3 * 4
  }

  /** All values of some bytes; missing bits of an incomplete group are zero. */
  function Values(s: seq<byte>): (v: seq<byte>)
    ensures |v| == UnpaddedLen(|s|)
  {
    if |s| == 0 then []
    else if |s| == 1 then [SextetA(s[0]), SextetB(s[0], 0)]
    else if |s| == 2 then [SextetA(s[0]), SextetB(s[0], s[1]), SextetC(s[1], 0)]
    else Group(s[0], s[1], s[2]) + Values(s[3..])
  }

  /** Symbols without padding. */
  function Symbols(sym: Table, s: seq<byte>): (r: seq<byte>)
    ensures |r| == UnpaddedLen(|s|)
  {
    Map(sym, Values(s))
  }

  function Pads(n: nat): (p: seq<byte>)
    ensures |p| == if n % 3 == 0 then 0 else 3 - n % 3
  {
    if n % 3 == 1 then [EQUALS, EQUALS] else if n % 3 == 2 then [EQUALS] else []
  }

  /** The encoding of some bytes with the symbols `sym`. */
  function Encoded(sym: Table, padded: bool, s: seq<byte>): (r: seq<byte>)
    ensures |r| == if padded then PaddedLen(|s|) else UnpaddedLen(|s|)
  {
    Symbols(sym, s) + (if padded then Pads(|s|) else [])
  }

  /** The lines of a text: a newline after every full line but the last. */
  function Wrapped(s: seq<byte>, width: nat): (r: seq<byte>)
    requires width > 0
    decreases |s|
  {
    if |s| <= width then s else s[..width] + [NEWLINE] + Wrapped(s[width..], width)
  }

  // ----- laws -----

  lemma {:induction false} ValuesStep(s: seq<byte>)
    requires |s| >= 3
    ensures Values(s) == Group(s[0], s[1], s[2]) + Values(s[3..])
  {
  }

  lemma {:induction false} ValuesConcat(s: seq<byte>, u: seq<byte>)
    requires |s| % 3 == 0
    ensures Values(s + u) == Values(s) + Values(u)
  {
    if |s| == 0 {
      assert s + u == u;
    } else {
      hide Values, Group;
      assert (s + u)[3..] == s[3..] + u;
      ValuesConcat(s[3..], u);
      ValuesStep(s + u);
      ValuesStep(s);
      ConcatAssociates(Group(s[0], s[1], s[2]), Values(s[3..]), Values(u));
    }
  }

  lemma {:induction false} SymbolsConcat(sym: Table, s: seq<byte>, u: seq<byte>)
    requires |s| % 3 == 0
    ensures Symbols(sym, s + u) == Symbols(sym, s) + Symbols(sym, u)
  {
    ValuesConcat(s, u);
    MapConcat(sym, Values(s), Values(u));
  }

  lemma LaterSlice(a: seq<byte>, b: seq<byte>, i: nat)
    requires |a| == 4 && i + 4 <= |b|
    ensures (a + b)[i + 4..i + 8] == b[i..i + 4]
  {
  }

  /** The values of group `g`. */
  lemma {:induction false} ValuesAt(s: seq<byte>, g: nat)
    requires 3 * g + 3 <= |s|
    ensures 4 * g + 4 <= |Values(s)|
    ensures Values(s)[4 * g..4 * g + 4] == Group(s[3 * g], s[3 * g + 1], s[3 * g + 2])
  {
    hide Values, Group;
    ValuesStep(s);
    if g > 0 {
      ValuesAt(s[3..], g - 1);
      LaterSlice(Group(s[0], s[1], s[2]), Values(s[3..]), 4 * (g - 1));
    }
  }

  lemma GroupSextets(a: byte, b: byte, c: byte)
    ensures SextetA(a) < 64 && SextetB(a, b) < 64 && SextetC(b, c) < 64 && SextetD(c) < 64
  {
  }

  lemma {:induction false} ValuesSextets(s: seq<byte>)
    ensures Sextets(Values(s))
  {
    hide SextetA, SextetB, SextetC, SextetD;
    if |s| >= 1 {
      GroupSextets(s[0], if |s| > 1 then s[1] else 0, if |s| > 2 then s[2] else 0);
      if |s| == 2 {
        GroupSextets(s[0], s[1], 0);
      }
    }
    if |s| >= 3 {
      ValuesSextets(s[3..]);
    }
  }

  /** Packing undoes splitting, group by group. */
  lemma GroupRoundTrip(a: byte, b: byte, c: byte)
    ensures First(SextetA(a), SextetB(a, b)) == a
    ensures Second(SextetB(a, b), SextetC(b, c)) == b
    ensures Third(SextetC(b, c), SextetD(c)) == c
  {
  }

  /** Decoding the values of some bytes gives the bytes back, and no bits are left over. */
  lemma {:induction false} DecodeValues(s: seq<byte>)
    ensures Decode(Values(s)) == s
    ensures Leftover(Values(s)) == 0
  {
    if |s| == 0 {
    } else if |s| < 3 {
      hide First, Second, Third, SextetA, SextetB, SextetC, SextetD;
      GroupRoundTrip(s[0], if |s| == 2 then s[1] else 0, 0);
      TailBits(s[0], if |s| == 2 then s[1] else 0);
    } else {
      hide First, Second, Third, SextetA, SextetB, SextetC, SextetD, Decode, Values, Leftover;
      ValuesStep(s);
      var v := Values(s);
      GroupRoundTrip(s[0], s[1], s[2]);
      DecodeStep(v);
      assert v[4..] == Values(s[3..]);
      DecodeValues(s[3..]);
      assert s == s[..3] + s[3..];
      assert Quartet(v) == s[..3];
      LeftoverTail(v);
    }
  }

  lemma TailBits(a: byte, b: byte)
    ensures SextetB(a, 0) & 0x0f == 0 && SextetC(b, 0) & 0x03 == 0
  {
  }

  /** Splitting undoes packing of a quartet of values. */
  lemma QuartetRoundTrip(v0: byte, v1: byte, v2: byte, v3: byte)
    requires v0 < 64 && v1 < 64 && v2 < 64 && v3 < 64
    ensures SextetA(First(v0, v1)) == v0
    ensures SextetB(First(v0, v1), Second(v1, v2)) == v1
    ensures SextetC(Second(v1, v2), Third(v2, v3)) == v2
    ensures SextetD(Third(v2, v3)) == v3
    ensures SextetB(First(v0, v1), 0) == v1 <==> v1 & 0x0f == 0
    ensures SextetC(Second(v1, v2), 0) == v2 <==> v2 & 0x03 == 0
  {
  }

  lemma ValuesDecodeShort(v: seq<byte>)
    requires Sextets(v) && (|v| == 2 || |v| == 3)
    ensures Values(Decode(v)) == v <==> Leftover(v) == 0
  {
    hide First, Second, Third, SextetA, SextetB, SextetC, SextetD;
    QuartetRoundTrip(v[0], v[1], if |v| == 3 then v[2] else 0, 0);
    if |v| == 2 {
      var w := [SextetA(First(v[0], v[1])), SextetB(First(v[0], v[1]), 0)];
      assert Values(Decode(v)) == w;
      assert w == v <==> w[1] == v[1];
    } else {
      var d := [First(v[0], v[1]), Second(v[1], v[2])];
      var w := [SextetA(d[0]), SextetB(d[0], d[1]), SextetC(d[1], 0)];
      assert Decode(v) == d && Values(d) == w;
      assert w == v <==> w[2] == v[2];
    }
  }

  lemma {:induction false} ValuesDecodeStep(v: seq<byte>)
    requires Sextets(v) && |v| >= 4
    ensures Values(Decode(v)) == v[..4] + Values(Decode(v[4..]))
  {
    hide First, Second, Third, SextetA, SextetB, SextetC, SextetD, Decode, Values;
    DecodeStep(v);
    var d := Decode(v);
    ValuesStep(d);
    assert d[3..] == Decode(v[4..]);
    QuartetRoundTrip(v[0], v[1], v[2], v[3]);
    assert Group(d[0], d[1], d[2]) == v[..4];
  }

  lemma LeftoverTail(v: seq<byte>)
    requires |v| >= 4
    ensures Leftover(v) == Leftover(v[4..])
  {
    if |v| % 4 != 0 {
      assert v[|v| - 1] == v[4..][|v| - 5];
    }
  }

  /** Encoding a decoding gives the values back exactly when the unused bits are zero. */
  lemma {:induction false} ValuesDecode(v: seq<byte>)
    requires Sextets(v) && |v| % 4 != 1
    ensures Values(Decode(v)) == v <==> Leftover(v) == 0
    decreases |v|
  {
    if |v| == 0 {
    } else if |v| < 4 {
      ValuesDecodeShort(v);
    } else {
      hide Decode, Values, Leftover;
      ValuesDecodeStep(v);
      ValuesDecode(v[4..]);
      LeftoverTail(v);
      var w := Values(Decode(v));
      assert v == v[..4] + v[4..];
      assert w == v <==> w[4..] == v[4..];
    }
  }

  /** The two length formulas, and the one that subtracts the missing bytes. */
  lemma EncodedLengths(n: nat)
    ensures PaddedLen(n) % 4 == 0
    ensures UnpaddedLen(n) == PaddedLen(n) - (if n % 3 == 0 then 0 else 3 - n % 3)
    ensures UnpaddedLen(n) % 4 != 1
  {
    var q, r := n / 3, n % 3;
    QuotientUnique(n + 2, 3, if r == 0 then q else q + 1, if r == 0 then 2 else r - 1);
    QuotientUnique(UnpaddedLen(n), 4, q, if r == 0 then 0 else r + 1);
    ModSame4(if r == 0 then q else q + 1);
  }

  lemma ModSame4(q: nat)
    ensures q * 4 % 4 == 0
  {
  }

  /** A wrapped text is longer by one byte for every full line but the last. */
  lemma {:induction false} WrappedLen(s: seq<byte>, width: nat)
    requires width > 0
    ensures |Wrapped(s, width)| == if s == [] then 0 else |s| + (|s| - 1) / width
    decreases |s|
  {
    if |s| <= width {
      if |s| > 0 {
        SmallQuotient(|s| - 1, width);
      }
    } else {
      WrappedLen(s[width..], width);
      QuotientStep(|s| - 1, width);
    }
  }
}
