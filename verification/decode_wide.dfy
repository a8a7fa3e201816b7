/** The AVX-512 block decoders, with their masked tails. */
module DecodeWide {
  import opened Bytes
  import opened Alphabet
  import opened DecodeLanes
  import opened Vectors
  import opened DecodeEmit
  import opened DecodeKernels

  // ----- AVX-512 -----

  /** The bytes of `n` that whole quartets cover. */
  function Whole4(n: nat): (w: nat)
    ensures w <= n < w + 4 && w % 4 == 0
  {
    n / 4 * 4
  }

  lemma Whole4Step(n: nat, source: nat, q: nat, w: nat)
    requires source == 4 * q && w % 4 == 0 && source + w <= n
    ensures source + w <= Whole4(n)
  {
  }

  lemma Whole4End(n: nat, source: nat, groups: nat)
    requires source % 4 == 0 && source <= n && groups == (n - source) / 4
    ensures source + 4 * groups == Whole4(n)
  {
  }

  predicate DecodeShuffle(shuffle: seq<nat>) {
    |shuffle| == 64 && shuffle[..48] == PackIndices(48)
  }

  /** Two full vectors: both are classified before either is stored. */
  method DecodePair512(a: DecodeAlphabet, check: bool, shuffle: seq<nat>, input: seq<byte>, source: nat,
                       output: array<byte>, at: nat, destination: nat, ghost before: seq<byte>, ghost q: nat)
    returns (ok: bool)
    requires DecodeShuffle(shuffle)
    requires source == 4 * q && destination == 3 * q && source + 128 <= |input|
    requires check || Valid(a, input, source, source + 128)
    requires Wrote(before, output[..], at, a, input, q, [])
    requires |before| == output.Length && at + 3 * (q + 32) <= output.Length
    modifies output
    ensures ok <==> Valid(a, input, source, source + 128)
    ensures if ok then Wrote(before, output[..], at, a, input, q + 32, []) else output[..] == old(output[..])
  {
    hide Progress, StrictValue, Classified;
    var i0, e0 := DecodeIndices(Avx512, a, check, input, source, 64);
    var i1, e1 := DecodeIndices(Avx512, a, check, input, source + 64, 64);
    ok := Clean(OrVectors(e0, e1));
    if ok {
      assert i0[..64] == i0 && i1[..64] == i1;
      Emit64Masked(a, i0, shuffle, 16, output, at, destination, before, input, q);
      Emit64Masked(a, i1, shuffle, 16, output, at, destination + 48, before, input, q + 16);
    }
  }

  /** One vector of `4 * m` active lanes, stored under the matching mask. */
  method DecodeMasked512(a: DecodeAlphabet, check: bool, shuffle: seq<nat>, input: seq<byte>, source: nat, m: nat,
                         output: array<byte>, at: nat, destination: nat, ghost before: seq<byte>, ghost q: nat)
    returns (ok: bool)
    requires DecodeShuffle(shuffle) && m <= 16
    requires source == 4 * q && destination == 3 * q && source + 4 * m <= |input|
    requires check || Valid(a, input, source, source + 4 * m)
    requires Wrote(before, output[..], at, a, input, q, [])
    requires |before| == output.Length && at + 3 * (q + m) <= output.Length
    modifies output
    ensures ok <==> Valid(a, input, source, source + 4 * m)
    ensures if ok then Wrote(before, output[..], at, a, input, q + m, []) else output[..] == old(output[..])
  {
    hide Progress, StrictValue, Classified;
    var indices, errors := DecodeIndices(Avx512, a, check, input, source, 4 * m);
    ok := Clean(errors);
    if ok {
      assert indices[..4 * m] == indices;
      Emit64Masked(a, indices, shuffle, m, output, at, destination, before, input, q);
    }
  }

  method ShuffleTable() returns (shuffle: seq<nat>)
    ensures DecodeShuffle(shuffle)
  {
    var table := BuildDecodeShuffle();
    shuffle := table[..];
  }

  method DecodeAvx512(a: DecodeAlphabet, check: bool, s: StoreMode, wide: bool, input: seq<byte>,
                      output: array<byte>, at: nat)
    returns (r: Blocks, ghost q: nat, ghost pad: seq<byte>)
    requires at + |input| / 4 * 3 + |Slack(s)| <= output.Length
    requires check || AllValid(a, input)
    modifies output
    ensures Wrote(old(output[..]), output[..], at, a, input, q, pad) && |pad| <= |Slack(s)|
    ensures var covered := if |input| < 64 then Whole16(|input|) else Whole4(|input|);
            && (r.Blocks? <==> Valid(a, input, 0, covered))
            && (r.Blocks? ==> r.source == 4 * q == covered && r.destination == 3 * q)
  {
    hide Whole16, Whole4, Wrote, Valid, AllValid, Slack;
    if |input| < 64 {
      r, q, pad := DecodeAvx2(a, check, s, wide, input, output, at);
    } else {
      r, q := DecodeLong512(a, check, input, output, at);
      pad := [];
    }
  }

  /** A block of a trusted input is valid, and a valid input has only valid blocks. */
  lemma BlockValid(a: DecodeAlphabet, check: bool, input: seq<byte>, end: nat, lo: nat, hi: nat)
    requires lo <= hi <= end <= |input| && (check || AllValid(a, input))
    ensures check || Valid(a, input, lo, hi)
    ensures Valid(a, input, 0, end) ==> Valid(a, input, lo, hi)
  {
    hide StrictValue;
  }

  /** What is left after the pairs: single blocks, then a masked tail of whole quartets. */
  method DecodeRest512(a: DecodeAlphabet, check: bool, shuffle: seq<nat>, input: seq<byte>, source0: nat,
                       output: array<byte>, at: nat, ghost before: seq<byte>, ghost q0: nat)
    returns (r: Blocks, ghost q: nat)
    requires at + |input| / 4 * 3 <= output.Length == |before|
    requires check || AllValid(a, input)
    requires DecodeShuffle(shuffle) && source0 == 4 * q0 <= Whole4(|input|)
    requires Wrote(before, output[..], at, a, input, q0, [])
    modifies output
    ensures Wrote(before, output[..], at, a, input, q, [])
    ensures r.Blocks? <==> Valid(a, input, 0, Whole4(|input|))
    ensures r.Blocks? ==> r.source == 4 * q == Whole4(|input|) && r.destination == 3 * q
  {
    hide *;
    var source, destination := source0, source0 / 4 * 3;
    q := q0;
    ghost var end := Whole4(|input|);
    while source + 64 <= |input|
      invariant source == 4 * q <= end && destination == 3 * q
      invariant Wrote(before, output[..], at, a, input, q, [])
    {
      Whole4Step(|input|, source, q, 64);
      BlockValid(a, check, input, end, source, source + 64);
      var ok := DecodeMasked512(a, check, shuffle, input, source, 16, output, at, destination, before, q);
      if !ok {
        return InvalidBlock, q;
      }
      source, destination, q := source + 64, destination + 48, q + 16;
    }
    var groups := (|input| - source) / 4;
    Whole4End(|input|, source, groups);
    if groups != 0 {
      BlockValid(a, check, input, end, source, source + 4 * groups);
      var ok := DecodeMasked512(a, check, shuffle, input, source, groups, output, at, destination, before, q);
      if !ok {
        return InvalidBlock, q;
      }
      source, destination, q := source + 4 * groups, destination + 3 * groups, q + groups;
    }
    WroteValid(before, output[..], at, a, input, q, []);
    r := Blocks(source, destination);
  }

  method DecodeLong512(a: DecodeAlphabet, check: bool, input: seq<byte>, output: array<byte>, at: nat)
    returns (r: Blocks, ghost q: nat)
    requires at + |input| / 4 * 3 <= output.Length
    requires check || AllValid(a, input)
    modifies output
    ensures Wrote(old(output[..]), output[..], at, a, input, q, [])
    ensures r.Blocks? <==> Valid(a, input, 0, Whole4(|input|))
    ensures r.Blocks? ==> r.source == 4 * q == Whole4(|input|) && r.destination == 3 * q
  {
    hide *;
    ghost var before := output[..];
    var shuffle := ShuffleTable();
    var source, destination := 0, 0;
    q := 0;
    ghost var end := Whole4(|input|);
    WroteNothing(before, at, a, input);
    while source + 128 <= |input|
      invariant source == 4 * q <= end && destination == 3 * q
      invariant Wrote(before, output[..], at, a, input, q, [])
    {
      Whole4Step(|input|, source, q, 128);
      BlockValid(a, check, input, end, source, source + 128);
      var ok := DecodePair512(a, check, shuffle, input, source, output, at, destination, before, q);
      if !ok {
        return InvalidBlock, q;
      }
      source, destination, q := source + 128, destination + 96, q + 32;
    }
    r, q := DecodeRest512(a, check, shuffle, input, source, output, at, before, q);
  }

  /** The number of lanes before the first error lane. */
  method LeadingCleanLanes(errors: seq<byte>) returns (n: nat)
    ensures n <= |errors| && Clean(errors[..n])
    ensures n < |errors| ==> errors[n] != 0
  {
    n := 0;
    while n < |errors| && errors[n] == 0
      invariant n <= |errors| && Clean(errors[..n])
    {
      n := n + 1;
    }
  }

  method DecodePrefixAvx512(a: DecodeAlphabet, wide: bool, input: seq<byte>, output: array<byte>, at: nat)
    returns (source: nat, destination: nat, ghost q: nat)
    requires at + |input| / 4 * 3 <= output.Length
    modifies output
    ensures LongestPrefix(a, input, if |input| < 64 then 16 else 4, source)
    ensures source == 4 * q && destination == 3 * q
    ensures Wrote(old(output[..]), output[..], at, a, input, q, [])
  {
    if |input| < 64 {
      source, destination, q := DecodePrefixAvx2(a, wide, input, output, at);
    } else {
      source, destination, q := DecodePrefixLong512(a, input, output, at);
    }
  }

  /** Pairs of vectors, until one of them has an invalid byte. */
  method DecodePairs512(a: DecodeAlphabet, shuffle: seq<nat>, input: seq<byte>, output: array<byte>, at: nat,
                        ghost before: seq<byte>)
    returns (source: nat, destination: nat, ghost q: nat)
    requires DecodeShuffle(shuffle) && at + |input| / 4 * 3 <= output.Length == |before|
    requires Wrote(before, output[..], at, a, input, 0, [])
    modifies output
    ensures source == 4 * q <= Whole4(|input|) && destination == 3 * q
    ensures Wrote(before, output[..], at, a, input, q, [])
  {
    hide *;
    source, destination, q := 0, 0, 0;
    ghost var end := Whole4(|input|);
    while source + 128 <= |input|
      invariant source == 4 * q <= end && destination == 3 * q
      invariant Wrote(before, output[..], at, a, input, q, [])
    {
      Whole4Step(|input|, source, q, 128);
      var ok := DecodePair512(a, true, shuffle, input, source, output, at, destination, before, q);
      if !ok {
        break;
      }
      source, destination, q := source + 128, destination + 96, q + 32;
    }
  }

  method DecodePrefixLong512(a: DecodeAlphabet, input: seq<byte>, output: array<byte>, at: nat)
    returns (source: nat, destination: nat, ghost q: nat)
    requires at + |input| / 4 * 3 <= output.Length
    modifies output
    ensures LongestPrefix(a, input, 4, source)
    ensures source == 4 * q && destination == 3 * q
    ensures Wrote(old(output[..]), output[..], at, a, input, q, [])
  {
    hide *;
    ghost var before := output[..];
    var shuffle := ShuffleTable();
    ghost var end := Whole4(|input|);
    WroteNothing(before, at, a, input);
    source, destination, q := DecodePairs512(a, shuffle, input, output, at, before);
    ghost var stopped := false;
    while source + 64 <= |input|
      invariant source == 4 * q <= end && destination == 3 * q && !stopped
      invariant Wrote(before, output[..], at, a, input, q, [])
    {
      Whole4Step(|input|, source, q, 64);
      var ok := DecodeMasked512(a, true, shuffle, input, source, 16, output, at, destination, before, q);
      if !ok {
        stopped := true;
        break;
      }
      source, destination, q := source + 64, destination + 48, q + 16;
    }
    var rest := if |input| - source < 64 then |input| - source else 64;
    var m := rest / 4;
    Whole4Step(|input|, source, q, 4 * m);
    var n := DecodeTail512(a, shuffle, input, source, m, output, at, destination, before, q);
    WroteValid(before, output[..], at, a, input, q + n, []);
    TailIsLongest(a, input, q, n, m);
    source, destination, q := source + 4 * n, destination + 3 * n, q + n;
  }

  /** The masked retry of the vector on which the full-width loop stopped: whole quartets before the
      first error lane are still decoded. */
  method DecodeTail512(a: DecodeAlphabet, shuffle: seq<nat>, input: seq<byte>, source: nat, m: nat,
                       output: array<byte>, at: nat, destination: nat, ghost before: seq<byte>, ghost q: nat)
    returns (n: nat)
    requires DecodeShuffle(shuffle) && m <= 16
    requires source == 4 * q && destination == 3 * q && source + 4 * m <= |input|
    requires Wrote(before, output[..], at, a, input, q, [])
    requires |before| == output.Length && at + 3 * (q + m) <= output.Length
    modifies output
    ensures n <= m && Valid(a, input, source, source + 4 * n)
    ensures n < m ==> !Valid(a, input, source + 4 * n, source + 4 * n + 4)
    ensures Wrote(before, output[..], at, a, input, q + n, [])
  {
    hide Progress, StrictValue;
    if m == 0 {
      return 0;
    }
    var indices, errors := DecodeIndices(Avx512, a, true, input, source, 4 * m);
    var lanes := LeadingCleanLanes(errors);
    n := lanes / 4;
    assert forall k :: 0 <= k < 4 * n ==> errors[k] == errors[..lanes][k];
    ClassifiedPrefix(a, indices, errors, input, source, 4 * n);
    if n != 0 {
      Emit64Masked(a, indices, shuffle, n, output, at, destination, before, input, q);
    }
    if n < m {
      assert !Valid(a, input, source + 4 * n, source + 4 * n + 4) by {
        assert errors[lanes] != 0;
        assert StrictValue(a, input[source + lanes]) >= 64;
      }
    }
  }

  lemma ClassifiedPrefix(a: DecodeAlphabet, indices: seq<byte>, errors: seq<byte>, input: seq<byte>, source: nat,
                         n: nat)
    requires n <= |indices| == |errors| && source + |indices| <= |input|
    requires forall k :: 0 <= k < n ==> errors[k] == 0
    requires forall k :: 0 <= k < |errors| && errors[k] == 0 ==> StrictValue(a, input[source + k]) < 64
    requires forall k :: 0 <= k < |errors| && errors[k] == 0 ==> indices[k] == StrictValue(a, input[source + k])
    ensures Classified(a, indices[..n], input, source)
  {
    hide StrictValue;
    forall k | source <= k < source + n ensures StrictValue(a, input[k]) < 64 {
      assert errors[k - source] == 0;
    }
    forall k | 0 <= k < n ensures indices[..n][k] == StrictValue(a, input[source + k]) {
      assert errors[k] == 0;
    }
  }

  lemma TailIsLongest(a: DecodeAlphabet, input: seq<byte>, q: nat, n: nat, m: nat)
    requires 4 * (q + m) <= |input| && n <= m
    requires Valid(a, input, 0, 4 * (q + n))
    requires n < m ==> !Valid(a, input, 4 * (q + n), 4 * (q + n) + 4)
    requires |input| < 4 * (q + m) + 4 || (m == 16 && !Valid(a, input, 4 * q, 4 * q + 64))
    ensures LongestPrefix(a, input, 4, 4 * (q + n))
  {
    hide StrictValue;
  }

  method ValidateAvx512(a: DecodeAlphabet, input: seq<byte>) returns (r: Blocks)
    ensures var covered := if |input| < 64 then Whole16(|input|) else |input|;
            && (r.Blocks? <==> Valid(a, input, 0, covered))
            && (r.Blocks? ==> r.source == covered)
  {
    if |input| < 64 {
      r := ValidateAvx2(a, input);
      return;
    }
    hide StrictValue, Classified;
    var source := 0;
    while source + 64 <= |input|
      invariant source <= |input| && Valid(a, input, 0, source)
    {
      var _, errors := DecodeIndices(Avx512, a, true, input, source, 64);
      if !Clean(errors) {
        return InvalidBlock;
      }
      source := source + 64;
    }
    var remaining := |input| - source;
    if remaining != 0 {
      var _, errors := DecodeIndices(Avx512, a, true, input, source, remaining);
      if !Clean(errors) {
        return InvalidBlock;
      }
      source := source + remaining;
    }
    r := Blocks(source, 0);
  }
}
