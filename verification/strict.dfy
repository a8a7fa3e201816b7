/** Strict decoding: layouts, kernel dispatch under the two error-write policies, and the scalar
loops that finish what the block decoders leave. */
module Strict {
  import opened Bytes
  import opened Alphabet
  import opened Quantum
  import opened Vectors
  import opened DecodeEmit
  import opened DecodeKernels
  import opened DecodeWide
  import opened DecodeNeon

  /** The kernels a dispatch may pick. The choice itself is not modelled. */
  datatype Backend = Scalar | Ssse3 | Sse41 | Avx2 | Avx512Vbmi | Neon

  /** What a failing call may have written: anything within its output, or only the decoding of
      validated blocks. */
  datatype ErrorWritePolicy = Partial | ValidatedBlocksOnly

  datatype Option<+T> = None | Some(value: T)

  /** The input bytes a backend's block loops cover. */
  function Covered(backend: Backend, n: nat): (c: nat)
    ensures c <= n && c % 4 == 0
  {
    if backend == Scalar then 0
    else if backend == Avx512Vbmi && n >= 64 then Whole4(n)
    else
      assert Whole16(n) % 4 == 0;
      Whole16(n)
  }

  function SlackLen(slack: bool): nat {
    if slack then 4 else 0
  }

  /** The kernel call. Offered slack is used only when partial writes are allowed, and never by the
      mixed alphabet. */
  method DecodeWithBackend(backend: Backend, wide: bool, policy: ErrorWritePolicy, slack: bool, a: DecodeAlphabet,
                           input: seq<byte>, output: array<byte>, at: nat)
    returns (r: Blocks, ghost q: nat, ghost pad: seq<byte>, ghost w: seq<byte>)
    requires at + |input| / 4 * 3 + SlackLen(slack) <= output.Length
    modifies output
    ensures r.Blocks? <==> Valid(a, input, 0, Covered(backend, |input|))
    ensures r.Blocks? ==> r.source == 4 * q == Covered(backend, |input|) && r.destination == 3 * q
    ensures |pad| <= SlackLen(slack && policy == Partial && a != Mixed)
    ensures r.Blocks? || policy == ValidatedBlocksOnly || backend != Neon ==>
              Wrote(old(output[..]), output[..], at, a, input, q, pad)
    ensures policy == ValidatedBlocksOnly || backend != Neon ==>
              4 * q <= |input| && w == Decoded(a, input[..4 * q]) + pad
    ensures backend == Neon && policy == Partial ==> 4 * q <= |input| && |w| == 3 * q && Accumulated(a, input, q, w)
    ensures |w| <= |input| / 4 * 3 + SlackLen(slack) && output[..] == Store(old(output[..]), at, w)
  {
    hide Store, Wrote, Valid, Whole16, Whole4, StrictValue, Accumulated, Decoded;
    ghost var before := output[..];
    pad, q := [], 0;
    var useSlack := slack && policy == Partial && a != Mixed;
    var s := if useSlack then PaddedStore else ExactStore;
    match backend {
      case Scalar =>
        r := Blocks(0, 0);
        WroteNothing(before, at, a, input);
        ValidEmpty(a, input);
      case Neon =>
        if policy == ValidatedBlocksOnly {
          r, q := DecodeValidatedBlocksNeon(a, input, output, at);
        } else {
          r, q, w := DecodeAccumulating(a, input, output, at);
          return;
        }
      case Ssse3 => r, q, pad := DecodeSse(a, true, s, input, output, at);
      case Sse41 => r, q, pad := DecodeSse(a, true, s, input, output, at);
      case Avx2 => r, q, pad := DecodeAvx2(a, true, s, wide, input, output, at);
      case Avx512Vbmi => r, q, pad := DecodeAvx512(a, true, s, wide, input, output, at);
    }
    w := WroteBytes(before, output[..], at, a, input, q, pad);
  }

  lemma ValidEmpty(a: DecodeAlphabet, s: seq<byte>)
    ensures Valid(a, s, 0, 0)
  {
  }

  lemma WroteBytes(before: seq<byte>, after: seq<byte>, at: nat, a: DecodeAlphabet, input: seq<byte>, q: nat,
                   pad: seq<byte>) returns (w: seq<byte>)
    requires Wrote(before, after, at, a, input, q, pad)
    ensures |w| == 3 * q + |pad| && 4 * q <= |input| && at + |w| <= |before|
    ensures after == Store(before, at, w) && w == Decoded(a, input[..4 * q]) + pad
  {
    w := Decoded(a, input[..4 * q]) + pad;
  }

  // ----- scalar steps -----

  /** What remains of an overlap after `n` more bytes are stored over it. */
  function Rest(pad: seq<byte>, n: nat): (r: seq<byte>)
    ensures |r| <= |pad|
  {
    if n < |pad| then pad[n..] else []
  }

  lemma StoreOver(m: seq<byte>, at: nat, v: seq<byte>, pad: seq<byte>, w: seq<byte>)
    requires at + |v| + |pad| <= |m| && at + |v| + |w| <= |m|
    ensures Store(Store(m, at, v + pad), at + |v|, w) == Store(m, at, v + w + Rest(pad, |w|))
  {
    if |w| < |pad| {
      var lhs, rhs := Store(Store(m, at, v + pad), at + |v|, w), Store(m, at, v + w + Rest(pad, |w|));
      assert lhs[..at + |v|] == rhs[..at + |v|] && lhs[at + |v|..at + |v| + |w|] == w;
      assert forall k :: 0 <= k < |m| ==> lhs[k] == rhs[k];
    } else {
      StoreOverlap(m, at, v, pad, w);
      assert v + w + [] == v + w;
    }
  }

  /** Scalar code stored the decoding `d` of `m` more quartets. */
  lemma WroteMore(before: seq<byte>, after: seq<byte>, at: nat, a: DecodeAlphabet, input: seq<byte>, q: nat,
                  pad: seq<byte>, m: nat, d: seq<byte>)
    requires Wrote(before, after, at, a, input, q, pad)
    requires 4 * (q + m) <= |input| && |d| == 3 * m && at + 3 * (q + m) <= |before|
    requires Valid(a, input, 4 * q, 4 * (q + m)) && d == Decoded(a, input[4 * q..4 * (q + m)])
    ensures |after| == |before|
    ensures Wrote(before, Store(after, at + 3 * q, d), at, a, input, q + m, Rest(pad, 3 * m))
  {
    hide StrictValue, Decoded, Store;
    assert |after| == |before|;
    StoreOver(before, at, Decoded(a, input[..4 * q]), pad, d);
    assert input[..4 * q] + input[4 * q..4 * (q + m)] == input[..4 * (q + m)];
    DecodedConcat(a, input[..4 * q], input[4 * q..4 * (q + m)]);
  }

  /** Three or fewer tail symbols after the decoded quartets. */
  lemma WroteTail(before: seq<byte>, after: seq<byte>, at: nat, a: DecodeAlphabet, input: seq<byte>, q: nat,
                  pad: seq<byte>, n: nat)
    requires Wrote(before, after, at, a, input, q, pad)
    requires 4 * q <= n <= |input| && Valid(a, input, 4 * q, n)
    requires at + 3 * q + |Decoded(a, input[4 * q..n])| <= |before|
    ensures |after| == |before| && Valid(a, input, 0, n)
    ensures var d := Decoded(a, input[4 * q..n]);
            && Decoded(a, input[..n]) == Decoded(a, input[..4 * q]) + d
            && at + |Decoded(a, input[..n])| + |Rest(pad, |d|)| <= |before|
            && Store(after, at + 3 * q, d) == Store(before, at, Decoded(a, input[..n]) + Rest(pad, |d|))
  {
    hide StrictValue, Decoded, Store;
    assert |after| == |before|;
    StoreOver(before, at, Decoded(a, input[..4 * q]), pad, Decoded(a, input[4 * q..n]));
    assert input[..4 * q] + input[4 * q..n] == input[..n];
    DecodedConcat(a, input[..4 * q], input[4 * q..n]);
  }

  lemma DecodedShort(a: DecodeAlphabet, s: seq<byte>)
    requires 2 <= |s| <= 4
    ensures |s| == 2 ==> Decoded(a, s) == [First(StrictValue(a, s[0]), StrictValue(a, s[1]))]
    ensures |s| == 3 ==> Decoded(a, s) == [First(StrictValue(a, s[0]), StrictValue(a, s[1])),
                                           Second(StrictValue(a, s[1]), StrictValue(a, s[2]))]
    ensures |s| == 4 ==> Decoded(a, s) == [First(StrictValue(a, s[0]), StrictValue(a, s[1])),
                                           Second(StrictValue(a, s[1]), StrictValue(a, s[2])),
                                           Third(StrictValue(a, s[2]), StrictValue(a, s[3]))]
  {
    hide First, Second, Third, StrictValue;
    var v := Map(StrictTable(a), s);
    if |s| == 4 {
      DecodeStep(v);
      assert v[4..] == [] && Decode(v[4..]) == [];
    }
  }

  function DecodeValue(a: DecodeAlphabet, b: byte): Option<byte> {
    if StrictValue(a, b) != INVALID_VALUE then Some(StrictValue(a, b)) else None
  }

  lemma StrictValueRange(a: DecodeAlphabet, b: byte)
    ensures StrictValue(a, b) < 64 <==> StrictValue(a, b) != INVALID_VALUE
  {
  }

  /** One quartet, of which the last `padding` symbols are padding. Nothing is written on failure. */
  method DecodeQuad(a: DecodeAlphabet, s: seq<byte>, padding: nat, output: array<byte>, at: nat) returns (ok: bool)
    requires |s| == 4 && padding <= 2 && at + 3 - padding <= output.Length
    modifies output
    ensures ok <==> Valid(a, s, 0, 4 - padding)
    ensures output[..] == if ok then Store(old(output[..]), at, Decoded(a, s[..4 - padding])) else old(output[..])
  {
    hide First, Second, Third, StrictValue, Store, Decoded;
    ghost var before := output[..];
    StrictValueRange(a, s[0]);
    StrictValueRange(a, s[1]);
    StrictValueRange(a, s[2]);
    StrictValueRange(a, s[3]);
    DecodedShort(a, s[..4 - padding]);
    var first, second := DecodeValue(a, s[0]), DecodeValue(a, s[1]);
    if first.None? || second.None? {
      return false;
    }
    var third := if padding == 2 then Some(0) else DecodeValue(a, s[2]);
    if third.None? {
      return false;
    }
    var fourth := if padding == 0 then DecodeValue(a, s[3]) else Some(0);
    if fourth.None? {
      return false;
    }
    output[at] := First(first.value, second.value);
    if padding < 2 {
      output[at + 1] := Second(second.value, third.value);
    }
    if padding == 0 {
      output[at + 2] := Third(third.value, fourth.value);
    }
    WroteFew(before, output[..], at, Decoded(a, s[..4 - padding]));
    return true;
  }

  lemma WroteFew(was: seq<byte>, now: seq<byte>, at: nat, d: seq<byte>)
    requires 1 <= |d| <= 3 && at + |d| <= |was|
    requires now == if |d| == 1 then was[at := d[0]]
                    else if |d| == 2 then was[at := d[0]][at + 1 := d[1]]
                    else was[at := d[0]][at + 1 := d[1]][at + 2 := d[2]]
    ensures now == Store(was, at, d)
  {
  }

  lemma OrOfValues(a: DecodeAlphabet, s: seq<byte>)
    requires |s| == 8
    ensures StrictValue(a, s[0]) | StrictValue(a, s[1]) | StrictValue(a, s[2]) | StrictValue(a, s[3])
          | StrictValue(a, s[4]) | StrictValue(a, s[5]) | StrictValue(a, s[6]) | StrictValue(a, s[7]) == INVALID_VALUE
       <==> !Valid(a, s, 0, 8)
  {
    forall k | 0 <= k < 8 ensures StrictValue(a, s[k]) < 64 <==> StrictValue(a, s[k]) != INVALID_VALUE {
      StrictValueRange(a, s[k]);
    }
    hide StrictValue;
    assert Valid(a, s, 0, 8) <==>
      && StrictValue(a, s[0]) < 64 && StrictValue(a, s[1]) < 64 && StrictValue(a, s[2]) < 64
      && StrictValue(a, s[3]) < 64 && StrictValue(a, s[4]) < 64 && StrictValue(a, s[5]) < 64
      && StrictValue(a, s[6]) < 64 && StrictValue(a, s[7]) < 64;
  }

  /** Two quartets at once; the or of all table values shows an invalid one. */
  method DecodeEight(a: DecodeAlphabet, s: seq<byte>, output: array<byte>, at: nat) returns (ok: bool)
    requires |s| == 8 && at + 6 <= output.Length
    modifies output
    ensures ok <==> Valid(a, s, 0, 8)
    ensures output[..] == if ok then Store(old(output[..]), at, Decoded(a, s)) else old(output[..])
  {
    hide First, Second, Third, StrictValue, Store;
    OrOfValues(a, s);
    var v := Map(StrictTable(a), s);
    if v[0] | v[1] | v[2] | v[3] | v[4] | v[5] | v[6] | v[7] == INVALID_VALUE {
      return false;
    }
    var decoded := [First(v[0], v[1]), Second(v[1], v[2]), Third(v[2], v[3]),
                    First(v[4], v[5]), Second(v[5], v[6]), Third(v[6], v[7])];
    DecodeStep(v);
    DecodeStep(v[4..]);
    assert v[4..][4..] == [] && Decode(v[4..][4..]) == [];
    assert decoded == Decoded(a, s);
    StoreInto(output, at, decoded);
    return true;
  }

  // ----- layouts and the meaning of strict decoding -----

  datatype Layout = Layout(inputLen: nat, padding: nat, outputLen: nat)

  function TrailingPadding(input: seq<byte>): (p: nat)
    ensures p <= 2 && p <= |input|
  {
    if |input| >= 2 && input[|input| - 1] == EQUALS && input[|input| - 2] == EQUALS then 2
    else if |input| >= 1 && input[|input| - 1] == EQUALS then 1
    else 0
  }

  function DecodeLayout(input: seq<byte>): (r: Option<Layout>)
    ensures r.Some? ==> |input| % 4 == 0 && r.value.padding == TrailingPadding(input)
    ensures r.Some? ==> r.value.outputLen == DecodedSymbolLen(|input| - r.value.padding)
    ensures r.None? <==> |input| % 4 != 0
  {
    if |input| == 0 then Some(Layout(0, 0, 0))
    else if |input| % 4 != 0 then None
    else
      var padding := TrailingPadding(input);
      Some(Layout(|input|, padding, |input| / 4 * 3 - padding))
  }

  function DecodeUnpaddedLayout(input: seq<byte>): (r: Option<Layout>)
    ensures r.Some? ==> r.value.padding == 0 && r.value.outputLen == DecodedSymbolLen(|input|)
    ensures r.None? <==> |input| % 4 == 1
  {
    if |input| % 4 == 1 then None
    else
      var tail := if |input| % 4 == 2 then 1 else if |input| % 4 == 3 then 2 else 0;
      Some(Layout(|input|, 0, |input| / 4 * 3 + tail))
  }

  lemma LayoutLen(n: nat, padding: nat)
    requires n % 4 == 0 && padding <= 2 && padding <= n
    ensures DecodedSymbolLen(n - padding) == n / 4 * 3 - padding
  {
  }

  /** Padded strict decoding (section 3.3 of RFC 4648: a byte outside the alphabet is an error). */
  function StrictPadded(a: DecodeAlphabet, input: seq<byte>): Option<seq<byte>> {
    var n := |input| - TrailingPadding(input);
    if |input| % 4 == 0 && Valid(a, input, 0, n) then Some(Decoded(a, input[..n])) else None
  }

  function StrictUnpadded(a: DecodeAlphabet, input: seq<byte>): Option<seq<byte>> {
    if |input| % 4 != 1 && AllValid(a, input) then Some(Decoded(a, input)) else None
  }

  lemma ValidSlice(a: DecodeAlphabet, input: seq<byte>, lo: nat, hi: nat)
    requires lo <= hi <= |input|
    ensures AllValid(a, input[lo..hi]) <==> Valid(a, input, lo, hi)
    ensures forall k :: 0 <= k <= hi - lo ==> (Valid(a, input[lo..hi], 0, k) <==> Valid(a, input, lo, lo + k))
  {
    hide StrictValue;
    forall k | 0 <= k <= hi - lo ensures Valid(a, input[lo..hi], 0, k) <==> Valid(a, input, lo, lo + k) {
      if Valid(a, input[lo..hi], 0, k) {
        forall i | lo <= i < lo + k ensures StrictValue(a, input[i]) < 64 {
          assert input[lo..hi][i - lo] == input[i];
        }
      }
    }
  }

  lemma WroteSlice(before: seq<byte>, after: seq<byte>, at: nat, a: DecodeAlphabet, input: seq<byte>, m: nat, q: nat,
                   pad: seq<byte>)
    requires m <= |input| && Wrote(before, after, at, a, input[..m], q, pad)
    ensures Wrote(before, after, at, a, input, q, pad)
  {
    hide StrictValue, Decoded;
    assert input[..m][..4 * q] == input[..4 * q];
    ValidSlice(a, input, 0, m);
    assert input[0..m] == input[..m];
  }

  // ----- the scalar loops behind the kernels -----

  method ScalarEight(a: DecodeAlphabet, input: seq<byte>, source: nat, output: array<byte>, at: nat, destination: nat,
                     ghost before: seq<byte>, ghost q: nat, ghost pad: seq<byte>)
    returns (ok: bool)
    requires source == 4 * q && destination == 3 * q && source + 8 <= |input|
    requires Wrote(before, output[..], at, a, input, q, pad)
    requires |before| == output.Length && at + 3 * q + 6 <= output.Length
    modifies output
    ensures ok <==> Valid(a, input, source, source + 8)
    ensures if ok then Wrote(before, output[..], at, a, input, q + 2, Rest(pad, 6)) else output[..] == old(output[..])
  {
    hide StrictValue, Wrote, Valid, Store;
    ValidSlice(a, input, source, source + 8);
    ok := DecodeEight(a, input[source..source + 8], output, at + destination);
    if ok {
      WroteMore(before, old(output[..]), at, a, input, q, pad, 2, Decoded(a, input[source..source + 8]));
    }
  }

  method ScalarQuad(a: DecodeAlphabet, input: seq<byte>, source: nat, output: array<byte>, at: nat, destination: nat,
                    ghost before: seq<byte>, ghost q: nat, ghost pad: seq<byte>)
    returns (ok: bool)
    requires source == 4 * q && destination == 3 * q && source + 4 <= |input|
    requires Wrote(before, output[..], at, a, input, q, pad)
    requires |before| == output.Length && at + 3 * q + 3 <= output.Length
    modifies output
    ensures ok <==> Valid(a, input, source, source + 4)
    ensures if ok then Wrote(before, output[..], at, a, input, q + 1, Rest(pad, 3)) else output[..] == old(output[..])
  {
    hide StrictValue, Wrote, Valid, Store;
    ValidSlice(a, input, source, source + 4);
    ok := DecodeQuad(a, input[source..source + 4], 0, output, at + destination);
    if ok {
      assert input[source..source + 4][..4] == input[source..source + 4];
      WroteMore(before, old(output[..]), at, a, input, q, pad, 1, Decoded(a, input[source..source + 4]));
    }
  }

  /** A padded last quartet. */
  method ScalarTail(a: DecodeAlphabet, input: seq<byte>, padding: nat, output: array<byte>, at: nat,
                    ghost before: seq<byte>, q: nat, ghost pad: seq<byte>)
    returns (ok: bool, ghost pad': seq<byte>)
    requires 1 <= padding <= 2 && |input| == 4 * q + 4
    requires Wrote(before, output[..], at, a, input, q, pad)
    requires |before| == output.Length && at + 3 * q + 3 - padding <= output.Length
    modifies output
    ensures ok <==> Valid(a, input, 4 * q, |input| - padding)
    ensures |pad'| <= |pad|
    ensures ok ==> at + |Decoded(a, input[..|input| - padding])| + |pad'| <= |before|
    ensures ok ==> output[..] == Store(before, at, Decoded(a, input[..|input| - padding]) + pad')
    ensures !ok ==> pad' == pad && output[..] == old(output[..])
  {
    hide StrictValue, Wrote, Store, Valid, Decoded;
    pad' := pad;
    ghost var was, n := output[..], |input| - padding;
    var quad := input[4 * q..4 * q + 4];
    ValidSlice(a, input, 4 * q, 4 * q + 4);
    ok := DecodeQuad(a, quad, padding, output, at + 3 * q);
    if ok {
      assert quad[..4 - padding] == input[4 * q..n];
      WroteTail(before, was, at, a, input, q, pad, n);
      pad' := Rest(pad, |Decoded(a, input[4 * q..n])|);
    }
  }

  /** Finishes a decode from quartet `q` on: eights, single quartets, and a padded last one. */
  method ScalarLoops(a: DecodeAlphabet, input: seq<byte>, padding: nat, source0: nat, output: array<byte>, at: nat,
                     destination0: nat, ghost before: seq<byte>, ghost q0: nat, ghost pad0: seq<byte>)
    returns (ok: bool, ghost q: nat, ghost pad: seq<byte>)
    requires |input| % 4 == 0 && padding <= 2 && (padding > 0 ==> |input| >= 4)
    requires source0 == 4 * q0 && destination0 == 3 * q0
    requires source0 <= |input| - (if padding == 0 then 0 else 4)
    requires Wrote(before, output[..], at, a, input, q0, pad0)
    requires |before| == output.Length && at + |input| / 4 * 3 - padding <= output.Length
    modifies output
    ensures ok <==> Valid(a, input, 0, |input| - padding)
    ensures |pad| <= |pad0|
    ensures ok ==> at + |Decoded(a, input[..|input| - padding])| + |pad| <= |before|
    ensures ok ==> output[..] == Store(before, at, Decoded(a, input[..|input| - padding]) + pad)
    ensures !ok ==> Wrote(before, output[..], at, a, input, q, pad)
    ensures !ok ==> 4 * q <= |input| - (if padding == 0 then 0 else 4)
  {
    hide StrictValue, Wrote, Store, Valid, Decoded;
    var simdLen := if padding == 0 then |input| else |input| - 4;
    var source, destination := source0, destination0;
    q, pad := q0, pad0;
    ok := true;
    while source + 8 <= simdLen
      invariant source == 4 * q && destination == 3 * q && source <= simdLen && |pad| <= |pad0|
      invariant Wrote(before, output[..], at, a, input, q, pad)
    {
      ok := ScalarEight(a, input, source, output, at, destination, before, q, pad);
      if !ok {
        ValidWithin(a, input, 0, |input| - padding, source, source + 8);
        return;
      }
      source, destination, q, pad := source + 8, destination + 6, q + 2, Rest(pad, 6);
    }
    while source < simdLen
      invariant source == 4 * q && destination == 3 * q && source <= simdLen && |pad| <= |pad0|
      invariant Wrote(before, output[..], at, a, input, q, pad)
    {
      ok := ScalarQuad(a, input, source, output, at, destination, before, q, pad);
      if !ok {
        ValidWithin(a, input, 0, |input| - padding, source, source + 4);
        return;
      }
      source, destination, q, pad := source + 4, destination + 3, q + 1, Rest(pad, 3);
    }
    ghost var n := |input| - padding;
    WroteValid(before, output[..], at, a, input, q, pad);
    ValidSplits(a, input, 0, source, n);
    if padding != 0 {
      ok, pad := ScalarTail(a, input, padding, output, at, before, source / 4, pad);
    } else {
      WroteUnfold(before, output[..], at, a, input, q, pad);
      assert input[..source] == input[..n];
    }
  }

  lemma WroteUnfold(before: seq<byte>, after: seq<byte>, at: nat, a: DecodeAlphabet, input: seq<byte>, q: nat,
                    pad: seq<byte>)
    requires Wrote(before, after, at, a, input, q, pad)
    ensures 4 * q <= |input| && at + |Decoded(a, input[..4 * q])| + |pad| <= |before|
    ensures after == Store(before, at, Decoded(a, input[..4 * q]) + pad)
  {
  }
}
