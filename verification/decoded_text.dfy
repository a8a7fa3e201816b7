/** A decoding byte by byte, in plain numbers, and which texts strict decoding accepts. */
module DecodedText {
  import opened Bytes
  import opened Alphabet
  import opened Quantum
  import opened Vectors
  import opened Strict
  import opened StrictApi
  import opened EncodedText

  /** Byte `k` of what some values carry: four values make three bytes. */
  function ByteOf(v: seq<byte>, k: nat): nat {
    var a, b := ByteAt(v, k / 3 * 4), ByteAt(v, k / 3 * 4 + 1);
    var c, d := ByteAt(v, k / 3 * 4 + 2), ByteAt(v, k / 3 * 4 + 3);
    if k % 3 == 0 then a * 4 + b / 16 else if k % 3 == 1 then b % 16 * 16 + c / 4 else c % 4 * 64 + d
  }

  lemma JoinFirst(a: byte, b: byte)
    requires a < 64 && b < 64
    ensures First(a, b) as nat == 4 * (a as nat) + (b >> 4) as nat
  {
  }

  lemma JoinSecond(b: byte, c: byte)
    requires c < 64
    ensures Second(b, c) as nat == 16 * ((b & 0x0f) as nat) + (c >> 2) as nat
  {
  }

  lemma JoinThird(c: byte, d: byte)
    requires d < 64
    ensures Third(c, d) as nat == 64 * ((c & 0x03) as nat) + d as nat
  {
  }

  lemma ByteNumbers(a: byte, b: byte, c: byte, d: byte)
    requires a < 64 && b < 64 && c < 64 && d < 64
    ensures First(a, b) as nat == a as nat * 4 + b as nat / 16
    ensures Second(b, c) as nat == b as nat % 16 * 16 + c as nat / 4
    ensures Third(c, d) as nat == c as nat % 4 * 64 + d as nat
  {
    hide First, Second, Third;
    JoinFirst(a, b);
    JoinSecond(b, c);
    JoinThird(c, d);
    Cut4(b);
    Cut2(c);
    Cuts(b as nat, 16, (b >> 4) as nat, (b & 0x0f) as nat);
    Cuts(c as nat, 4, (c >> 2) as nat, (c & 0x03) as nat);
  }

  lemma FirstBytes(v: seq<byte>, a: byte, b: byte, c: byte, d: byte)
    requires ByteAt(v, 0) == a as nat && ByteAt(v, 1) == b as nat
    requires ByteAt(v, 2) == c as nat && ByteAt(v, 3) == d as nat
    ensures ByteOf(v, 0) == a as nat * 4 + b as nat / 16
    ensures ByteOf(v, 1) == b as nat % 16 * 16 + c as nat / 4
    ensures ByteOf(v, 2) == c as nat % 4 * 64 + d as nat
  {
    hide ByteAt;
  }

  lemma ByteOfShift(v: seq<byte>, k: nat)
    requires |v| >= 4 && k >= 3
    ensures ByteOf(v[4..], k - 3) == ByteOf(v, k)
  {
    assert (k - 3) / 3 == k / 3 - 1 && (k - 3) % 3 == k % 3;
  }

  lemma DecodedLenIs(n: nat)
    ensures DecodedSymbolLen(n) == 3 * n / 4
  {
    assert n == 4 * (n / 4) + n % 4;
  }

  lemma DecodeParts(v: seq<byte>, k: nat)
    requires k < 3 && k < |Decode(v)|
    ensures |v| >= 2 && (k >= 1 ==> |v| >= 3) && (k == 2 ==> |v| >= 4)
    ensures Decode(v)[k]
         == if k == 0 then First(v[0], v[1]) else if k == 1 then Second(v[1], v[2]) else Third(v[2], v[3])
  {
    hide First, Second, Third;
  }

  lemma FirstDecoded(v: seq<byte>, k: nat)
    requires Sextets(v) && k < 3 && k < |Decode(v)|
    ensures Decode(v)[k] as nat == ByteOf(v, k)
  {
    hide First, Second, Third, Decode, ByteOf;
    DecodeParts(v, k);
    var c, d := if |v| > 2 then v[2] else 0, if |v| > 3 then v[3] else 0;
    ByteNumbers(v[0], v[1], c, d);
    FirstBytes(v, v[0], v[1], c, d);
  }

  lemma LaterDecoded(v: seq<byte>, k: nat)
    requires 3 <= k < |Decode(v)|
    ensures |v| >= 4 && k - 3 < |Decode(v[4..])| && Decode(v)[k] == Decode(v[4..])[k - 3]
    ensures Sextets(v) ==> Sextets(v[4..])
  {
    hide First, Second, Third, Decode;
    LongDecode(v);
    DecodeStep(v);
  }

  /** The decoding of some values is their bits, eight at a time; bits that fill no byte are dropped. */
  lemma {:induction false} DecodeAt(v: seq<byte>, k: nat)
    requires Sextets(v) && k < |Decode(v)|
    ensures |Decode(v)| == 3 * |v| / 4
    ensures Decode(v)[k] as nat == ByteOf(v, k)
    decreases |v|
  {
    hide *;
    DecodedLenIs(|v|);
    if k < 3 {
      FirstDecoded(v, k);
    } else {
      LaterDecoded(v, k);
      DecodeAt(v[4..], k - 3);
      ByteOfShift(v, k);
    }
  }

  lemma LongDecode(v: seq<byte>)
    requires |Decode(v)| > 3
    ensures |v| >= 4
  {
  }

  // ----- which texts strict decoding accepts -----

  /** The first `n` bytes are symbols of the alphabet, and only '=' follows, at most twice. */
  predicate SymbolsThenPads(a: DecodeAlphabet, x: seq<byte>, n: nat) {
    && n <= |x| <= n + 2 && (forall k :: 0 <= k < n ==> StrictValue(a, x[k]) < 64)
    && (forall k :: n <= k < |x| ==> x[k] == 61)
  }

  lemma EqualsIsNoSymbol(a: DecodeAlphabet)
    ensures StrictValue(a, 61) >= 64
  {
  }

  /** Padded text: whole quartets of symbols then at most two '='. */
  lemma StrictPaddedExactly(a: DecodeAlphabet, x: seq<byte>)
    ensures StrictPadded(a, x).Some? <==> |x| % 4 == 0 && exists n: nat :: SymbolsThenPads(a, x, n)
    ensures forall n: nat :: SymbolsThenPads(a, x, n) && |x| % 4 == 0 ==>
              StrictPadded(a, x) == Some(Decode(Map(StrictTable(a), x[..n])))
  {
    hide StrictValue, Decode, StrictTable;
    EqualsIsNoSymbol(a);
    if StrictPadded(a, x).Some? {
      assert SymbolsThenPads(a, x, |x| - TrailingPadding(x));
    }
    forall n: nat | SymbolsThenPads(a, x, n) && |x| % 4 == 0
      ensures StrictPadded(a, x) == Some(Decode(Map(StrictTable(a), x[..n])))
    {
      PadsFound(a, x, n);
    }
  }

  lemma PadsFound(a: DecodeAlphabet, x: seq<byte>, n: nat)
    requires SymbolsThenPads(a, x, n)
    ensures TrailingPadding(x) == |x| - n
  {
    hide StrictValue;
    EqualsIsNoSymbol(a);
    if n > 0 {
      assert StrictValue(a, x[n - 1]) < 64;
    }
  }

  /** Unpadded text: symbols only, of any length but one more than whole quartets. */
  lemma StrictUnpaddedExactly(a: DecodeAlphabet, x: seq<byte>)
    ensures StrictUnpadded(a, x)
         == if |x| % 4 != 1 && forall k :: 0 <= k < |x| ==> StrictValue(a, x[k]) < 64
            then Some(Decode(Map(StrictTable(a), x))) else None
  {
    hide StrictValue;
  }

  /** The length query looks at '=' only: none among the data, at most two at the end of whole quartets. */
  predicate PadsAtEnd(x: seq<byte>, n: nat) {
    && n <= |x| <= n + 2 && (forall k :: 0 <= k < n ==> x[k] != 61)
    && (forall k :: n <= k < |x| ==> x[k] == 61)
  }

  lemma DecodedLenExactly(x: seq<byte>)
    ensures B64DecodedLen(x).Some? <==> |x| % 4 == 0 && exists n: nat :: PadsAtEnd(x, n)
    ensures forall n: nat :: PadsAtEnd(x, n) && |x| % 4 == 0 ==> B64DecodedLen(x) == Some(3 * n / 4)
  {
    hide DecodedSymbolLen;
    var m := |x| - TrailingPadding(x);
    if B64DecodedLen(x).Some? {
      assert forall k :: 0 <= k < m ==> x[k] in x[..m];
      assert PadsAtEnd(x, m);
    }
    forall n: nat | PadsAtEnd(x, n) && |x| % 4 == 0 ensures B64DecodedLen(x) == Some(3 * n / 4) {
      assert n == m;
      DecodedLenIs(n);
    }
  }
}
