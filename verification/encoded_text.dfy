/** An encoding byte by byte, in plain numbers: which bits of the input a character shows, where padding stands and
where lines end. */
module EncodedText {
  import opened Bytes
  import opened EncodeSpec
  import opened Strict
  import opened Division

  /** The number that byte `i` is; missing bytes count as zero. */
  function ByteAt(s: seq<byte>, i: nat): nat {
    if i < |s| then s[i] as nat else 0
  }

  /** The six bits that character `k` shows: three bytes make four characters. */
  function Sextet(s: seq<byte>, k: nat): nat {
    var a, b, c := ByteAt(s, k / 4 * 3), ByteAt(s, k / 4 * 3 + 1), ByteAt(s, k / 4 * 3 + 2);
    if k % 4 == 0 then a / 4
    else if k % 4 == 1 then a % 4 * 16 + b / 16
    else if k % 4 == 2 then b % 16 * 4 + c / 64
    else c % 64
  }

  /** Character `k` of an encoding without line breaks: a symbol for every six bits begun, then '='. */
  function CharacterAt(sym: Table, s: seq<byte>, k: nat): byte {
    if k < (8 * |s| + 5) / 6 && Sextet(s, k) < 64 then sym(Sextet(s, k) as byte) else 61
  }

  /** Which character of the unbroken text stands at `k`. */
  function Unwrapped(w: nat, k: nat): nat {
    k / (w + 1) * w + k % (w + 1)
  }

  /** Character `k` of an encoding in lines of a width. */
  function TextAt(sym: Table, wrapping: Option<nat>, s: seq<byte>, k: nat): byte
    requires wrapping.Some? ==> wrapping.value > 0
  {
    if wrapping.None? then CharacterAt(sym, s, k)
    else
      var w := wrapping.value;
      if k % (w + 1) == w then 10 else CharacterAt(sym, s, Unwrapped(w, k))
  }

  // ----- six bits -----

  lemma Cut2(a: byte)
    ensures a as nat == 4 * ((a >> 2) as nat) + (a & 0x03) as nat && (a & 0x03) as nat < 4
  {
  }

  lemma Cut4(a: byte)
    ensures a as nat == 16 * ((a >> 4) as nat) + (a & 0x0f) as nat && (a & 0x0f) as nat < 16
  {
  }

  lemma Cut6(a: byte)
    ensures a as nat == 64 * ((a >> 6) as nat) + (a & 0x3f) as nat && (a & 0x3f) as nat < 64
  {
  }

  lemma JoinB(a: byte, b: byte)
    ensures SextetB(a, b) as nat == 16 * ((a & 0x03) as nat) + (b >> 4) as nat
  {
  }

  lemma JoinC(b: byte, c: byte)
    ensures SextetC(b, c) as nat == 4 * ((b & 0x0f) as nat) + (c >> 6) as nat
  {
  }

  lemma Cuts(x: nat, d: nat, q: nat, r: nat)
    requires d > 0 && r < d && x == d * q + r
    ensures x / d == q && x % d == r
  {
    QuotientUnique(x, d, q, r);
  }

  lemma SextetNumbers(a: byte, b: byte, c: byte)
    ensures SextetA(a) as nat == a as nat / 4
    ensures SextetB(a, b) as nat == a as nat % 4 * 16 + b as nat / 16
    ensures SextetC(b, c) as nat == b as nat % 16 * 4 + c as nat / 64
    ensures SextetD(c) as nat == c as nat % 64
  {
    hide SextetB, SextetC;
    Cut2(a);
    Cut4(b);
    Cut6(c);
    JoinB(a, b);
    JoinC(b, c);
    Cuts(a as nat, 4, (a >> 2) as nat, (a & 0x03) as nat);
    Cuts(b as nat, 16, (b >> 4) as nat, (b & 0x0f) as nat);
    Cuts(c as nat, 64, (c >> 6) as nat, (c & 0x3f) as nat);
  }

  lemma FirstSextets(a: byte, b: byte, c: byte)
    ensures Sextet([a, b, c], 0) == a as nat / 4
    ensures Sextet([a, b, c], 1) == a as nat % 4 * 16 + b as nat / 16
    ensures Sextet([a, b, c], 2) == b as nat % 16 * 4 + c as nat / 64
    ensures Sextet([a, b, c], 3) == c as nat % 64
  {
  }

  lemma GroupAt(a: byte, b: byte, c: byte, k: nat)
    requires k < 4
    ensures Group(a, b, c)[k] as nat == Sextet([a, b, c], k)
  {
    hide *;
    GroupParts(a, b, c);
    SextetNumbers(a, b, c);
    FirstSextets(a, b, c);
    if k == 0 {
      assert Group(a, b, c)[0] as nat == Sextet([a, b, c], 0);
    } else if k == 1 {
      assert Group(a, b, c)[1] as nat == Sextet([a, b, c], 1);
    } else if k == 2 {
      assert Group(a, b, c)[2] as nat == Sextet([a, b, c], 2);
    } else {
      assert Group(a, b, c)[3] as nat == Sextet([a, b, c], 3);
    }
  }

  lemma GroupParts(a: byte, b: byte, c: byte)
    ensures Group(a, b, c)[0] == SextetA(a) && Group(a, b, c)[1] == SextetB(a, b)
    ensures Group(a, b, c)[2] == SextetC(b, c) && Group(a, b, c)[3] == SextetD(c)
  {
    hide SextetA, SextetB, SextetC, SextetD;
  }

  /** The values of some bytes are their bits, six at a time. */
  lemma {:induction false} ValueAt(s: seq<byte>, k: nat)
    requires k < |Values(s)|
    ensures Values(s)[k] as nat == Sextet(s, k)
  {
    hide SextetA, SextetB, SextetC, SextetD, Sextet, Group, Values;
    if |s| >= 3 {
      ValuesStep(s);
      if k < 4 {
        GroupAt(s[0], s[1], s[2], k);
        SextetOf(s, [s[0], s[1], s[2]], k);
      } else {
        ValueAt(s[3..], k - 4);
        SextetShift(s, k);
      }
    } else {
      ShortValues(s);
      var a, b := if |s| > 0 then s[0] else 0, if |s| > 1 then s[1] else 0;
      GroupAt(a, b, 0, k);
      SextetOf(s, [a, b, 0], k);
    }
  }

  lemma ShortValues(s: seq<byte>)
    requires |s| < 3
    ensures var a, b := if |s| > 0 then s[0] else 0, if |s| > 1 then s[1] else 0;
            |Values(s)| <= 4 && Values(s) == Group(a, b, 0)[..|Values(s)|]
  {
    hide SextetA, SextetB, SextetC, SextetD;
  }

  lemma SextetOf(s: seq<byte>, u: seq<byte>, k: nat)
    requires k < 4 && ByteAt(s, 0) == ByteAt(u, 0) && ByteAt(s, 1) == ByteAt(u, 1) && ByteAt(s, 2) == ByteAt(u, 2)
    ensures Sextet(s, k) == Sextet(u, k)
  {
    hide ByteAt;
  }

  lemma SextetShift(s: seq<byte>, k: nat)
    requires |s| >= 3 && k >= 4
    ensures Sextet(s[3..], k - 4) == Sextet(s, k)
  {
    assert (k - 4) / 4 == k / 4 - 1 && (k - 4) % 4 == k % 4;
  }

  lemma SextetBelow(s: seq<byte>, k: nat)
    ensures Sextet(s, k) < 64
  {
    var a, b, c := ByteAt(s, k / 4 * 3), ByteAt(s, k / 4 * 3 + 1), ByteAt(s, k / 4 * 3 + 2);
    assert a < 256 && b < 256 && c < 256;
  }

  lemma UnpaddedLenIs(n: nat)
    ensures UnpaddedLen(n) == (8 * n + 5) / 6
    ensures PaddedLen(n) == (n + 2) / 3 * 4
  {
    var q := n / 3;
    assert n == 3 * q || n == 3 * q + 1 || n == 3 * q + 2;
  }

  // ----- characters -----

  /** Which character stands where in an encoding. */
  lemma EncodedAt(sym: Table, padded: bool, s: seq<byte>, k: nat)
    requires k < |Encoded(sym, padded, s)|
    ensures Encoded(sym, padded, s)[k] == CharacterAt(sym, s, k)
    ensures |Encoded(sym, padded, s)| == if padded then (|s| + 2) / 3 * 4 else (8 * |s| + 5) / 6
  {
    hide Values, Sextet;
    UnpaddedLenIs(|s|);
    SextetBelow(s, k);
    if k < UnpaddedLen(|s|) {
      ValueAt(s, k);
      SameByte(Values(s)[k], Sextet(s, k));
    }
  }

  lemma SameByte(b: byte, n: nat)
    requires b as nat == n && n < 256
    ensures n as byte == b
  {
  }

  lemma FirstLine(w: nat, k: nat)
    requires k <= w
    ensures k % (w + 1) == k && Unwrapped(w, k) == k
  {
    SmallRemainder(k, w + 1);
    SmallQuotient(k, w + 1);
  }

  lemma LaterLine(w: nat, k: nat)
    requires k > w
    ensures k % (w + 1) == (k - (w + 1)) % (w + 1) && Unwrapped(w, k) == Unwrapped(w, k - (w + 1)) + w
  {
    ModMinus(k, w + 1);
    QuotientStep(k, w + 1);
    var q := (k - (w + 1)) / (w + 1);
    assert (q + 1) * w == q * w + w;
  }

  /** Where lines end: a newline behind every `w` characters, and none at the end. */
  lemma {:induction false} WrappedAt(x: seq<byte>, w: nat, k: nat)
    requires w > 0 && k < |Wrapped(x, w)|
    ensures k % (w + 1) != w ==> k / (w + 1) * w + k % (w + 1) < |x|
    ensures Wrapped(x, w)[k] == if k % (w + 1) == w then 10 else x[k / (w + 1) * w + k % (w + 1)]
    decreases |x|
  {
    LineAt(x, w, k);
  }

  lemma {:induction false} LineAt(x: seq<byte>, w: nat, k: nat)
    requires w > 0 && k < |Wrapped(x, w)|
    ensures k % (w + 1) != w ==> Unwrapped(w, k) < |x|
    ensures Wrapped(x, w)[k] == if k % (w + 1) == w then 10 else x[Unwrapped(w, k)]
    decreases |x|
  {
    hide Unwrapped;
    if k <= w {
      FirstLine(w, k);
    } else {
      var rest := x[w..];
      assert |x| > w && Wrapped(x, w)[k] == Wrapped(rest, w)[k - (w + 1)];
      LineAt(rest, w, k - (w + 1));
      LaterLine(w, k);
    }
  }

  /** The same by content: a byte of a wrapped text that has no newline of its own is a newline exactly there. */
  lemma NewlinesAt(x: seq<byte>, w: nat, k: nat)
    requires w > 0 && k < |Wrapped(x, w)| && 10 !in x
    ensures Wrapped(x, w)[k] == 10 <==> k % (w + 1) == w
  {
    hide Wrapped;
    WrappedAt(x, w, k);
    if k % (w + 1) != w {
      assert x[k / (w + 1) * w + k % (w + 1)] in x;
    }
  }
}
