/** The byte-level meaning of Base64: how 6-bit values pack into bytes (section 4 of RFC 4648). */
module Quantum {
  import opened Bytes

  predicate Sextets(v: seq<byte>) {
    forall k :: 0 <= k < |v| ==> v[k] < 64
  }

  function First(a: byte, b: byte): byte { (a << 2) | (b >> 4) }
  function Second(b: byte, c: byte): byte { (b << 4) | (c >> 2) }
  function Third(c: byte, d: byte): byte { (c << 6) | d }

  /** Decoded size of a number of symbols: whole quartets give three bytes, a rest of two or
      three symbols gives one or two. */
  function DecodedSymbolLen(symbols: nat): nat {
    symbols / 4 * 3 + (if symbols % 4 == 2 then 1 else if symbols % 4 == 3 then 2 else 0)
  }

  /** The bytes that a sequence of 6-bit values carries. A final lone value carries none. */
  function Decode(v: seq<byte>): (d: seq<byte>)
    ensures |d| == DecodedSymbolLen(|v|)
  {
    if |v| < 2 then []
    else if |v| == 2 then [First(v[0], v[1])]
    else if |v| == 3 then [First(v[0], v[1]), Second(v[1], v[2])]
    else Quartet(v) + Decode(v[4..])
  }

  /** The bytes that value number `|v|` completes when it arrives after `v`. */
  function Completed(v: seq<byte>, x: byte): seq<byte> {
    if |v| % 4 == 0 then []
    else if |v| % 4 == 1 then [First(v[|v| - 1], x)]
    else if |v| % 4 == 2 then [Second(v[|v| - 1], x)]
    else [Third(v[|v| - 1], x)]
  }

  /** The bits of the last value that no complete byte carries yet. */
  function Leftover(values: seq<byte>): byte {
    if |values| % 4 == 0 then 0
    else if |values| % 4 == 1 then values[|values| - 1]
    else if |values| % 4 == 2 then values[|values| - 1] & 0x0f
    else values[|values| - 1] & 0x03
  }

  /** The three bytes of the leading quartet. */
  function Quartet(v: seq<byte>): seq<byte>
    requires |v| >= 4
  {
    [First(v[0], v[1]), Second(v[1], v[2]), Third(v[2], v[3])]
  }

  lemma ConcatAssociates<T>(a: seq<T>, b: seq<T>, c: seq<T>)
    ensures (a + b) + c == a + (b + c)
  {
  }

  lemma {:induction false} DecodeStep(v: seq<byte>)
    requires |v| >= 4
    ensures Decode(v) == Quartet(v) + Decode(v[4..])
  {
  }

  /** Decoding whole quartets first and the rest after gives the same bytes. */
  lemma {:induction false} DecodeConcat(v: seq<byte>, w: seq<byte>)
    requires |v| % 4 == 0
    ensures Decode(v + w) == Decode(v) + Decode(w)
  {
    hide First, Second, Third;
    if |v| == 0 {
      assert v + w == w;
    } else {
      hide Decode;
      assert (v + w)[4..] == v[4..] + w;
      DecodeConcat(v[4..], w);
      DecodeStep(v + w);
      DecodeStep(v);
      assert Quartet(v + w) == Quartet(v);
      ConcatAssociates(Quartet(v), Decode(v[4..]), Decode(w));
    }
  }

  lemma {:induction false} DecodePushShort(v: seq<byte>, x: byte)
    requires |v| < 4
    ensures Decode(v + [x]) == Decode(v) + Completed(v, x)
  {
    hide First, Second, Third;
    if |v| == 3 {
      assert (v + [x])[4..] == [];
    }
  }

  /** Decoding is a stream: one more value appends exactly the bytes it completes. */
  lemma {:induction false} DecodePush(v: seq<byte>, x: byte)
    ensures Decode(v + [x]) == Decode(v) + Completed(v, x)
  {
    if |v| < 4 {
      DecodePushShort(v, x);
    } else {
      hide First, Second, Third, Decode;
      assert (v + [x])[4..] == v[4..] + [x];
      DecodePush(v[4..], x);
      DecodeStep(v + [x]);
      DecodeStep(v);
      assert Quartet(v + [x]) == Quartet(v);
    }
  }

  lemma {:induction false} DecodePrefix(v: seq<byte>, w: seq<byte>)
    ensures Decode(v) <= Decode(v + w)
    decreases |w|
  {
    if |w| == 0 {
      assert v + w == v;
    } else {
      assert v + w == (v + [w[0]]) + w[1..];
      DecodePush(v, w[0]);
      DecodePrefix(v + [w[0]], w[1..]);
    }
  }

  lemma DecodedSymbolLenMonotone(m: nat, n: nat)
    requires m <= n
    ensures DecodedSymbolLen(m) <= DecodedSymbolLen(n)
  {
  }

  lemma DecodedSymbolLenSplit(m: nat, n: nat)
    requires m % 4 == 0
    ensures DecodedSymbolLen(m + n) == m / 4 * 3 + DecodedSymbolLen(n)
  {
  }
}
