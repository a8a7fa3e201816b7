/** Bytes, byte-indexed tables, and the algebra of stores into memory.

Every destination buffer is described as the memory it held before the call with one
run of bytes stored over it: `Store(before, at, v)`. Overlapping vector stores, block loops,
probes and retries are all compositions of such stores, so their effect (and the fact that
nothing else changed) is computed with the three laws below. */
module Bytes {
  type byte = bv8

  /** A `[u8; 256]` lookup table. */
  type Table = byte -> byte

  /** The memory `m` after the bytes `v` are stored from offset `at` on. */
  function Store(m: seq<byte>, at: nat, v: seq<byte>): (r: seq<byte>)
    requires at + |v| <= |m|
    ensures |r| == |m|
    ensures r[at..at + |v|] == v
  {
    m[..at] + v + m[at + |v|..]
  }

  /** A store that starts inside or right after an earlier one and reaches at least as far
      replaces the tail `pad` of the earlier store. With an empty `pad` this is how
      consecutive stores join. */
  lemma StoreOverlap(m: seq<byte>, at: nat, v: seq<byte>, pad: seq<byte>, w: seq<byte>)
    requires at + |v| + |w| <= |m|
    requires |pad| <= |w|
    ensures Store(Store(m, at, v + pad), at + |v|, w) == Store(m, at, v + w)
  {
    var lhs, rhs := Store(Store(m, at, v + pad), at + |v|, w), Store(m, at, v + w);
    forall k | 0 <= k < |m| ensures lhs[k] == rhs[k] {
    }
  }

  /** Consecutive stores are one store. */
  lemma StoreJoin(m: seq<byte>, at: nat, v: seq<byte>, w: seq<byte>)
    requires at + |v| + |w| <= |m|
    ensures Store(Store(m, at, v), at + |v|, w) == Store(m, at, v + w)
  {
    assert v + [] == v;
    StoreOverlap(m, at, v, [], w);
  }

  /** A later store from the same offset covers a shorter earlier one. */
  lemma StoreCover(m: seq<byte>, at: nat, v: seq<byte>, w: seq<byte>)
    requires |v| <= |w|
    requires at + |w| <= |m|
    ensures Store(Store(m, at, v), at, w) == Store(m, at, w)
  {
    assert [] + v == v && [] + w == w;
    StoreOverlap(m, at, [], v, w);
  }

  lemma StoreNothing(m: seq<byte>, at: nat)
    requires at <= |m|
    ensures Store(m, at, []) == m
  {
  }

  /** Copies `v` into `output`: a raw `copy_from_nonoverlapping`, or a vector store. */
  method StoreInto(output: array<byte>, at: nat, v: seq<byte>)
    requires at + |v| <= output.Length
    modifies output
    ensures output[..] == Store(old(output[..]), at, v)
  {
    forall k | 0 <= k < |v| {
      output[at + k] := v[k];
    }
  }

  /** The table applied to every byte. */
  function Map(t: Table, s: seq<byte>): (r: seq<byte>)
    ensures |r| == |s|
    ensures forall k :: 0 <= k < |s| ==> r[k] == t(s[k])
  {
    seq(|s|, k requires 0 <= k < |s| => t(s[k]))
  }

  lemma MapConcat(t: Table, s: seq<byte>, u: seq<byte>)
    ensures Map(t, s + u) == Map(t, s) + Map(t, u)
  {
  }

  lemma MapAgree(t: Table, u: Table, s: seq<byte>)
    requires forall k :: 0 <= k < |s| ==> t(s[k]) == u(s[k])
    ensures Map(t, s) == Map(u, s)
  {
  }

  /** Chunks one after the other. */
  function Flatten(chunks: seq<seq<byte>>): seq<byte> {
    if chunks == [] then [] else chunks[0] + Flatten(chunks[1..])
  }
}
