/** Whole vectors of the decoders: classification of a block, the 24-bit packing with its byte
shuffles, and the store shapes whose overlaps the next store repairs. */
module Vectors {
  import opened Bytes
  import opened Alphabet
  import opened Quantum
  import opened DecodeLanes

  /** The bytes that input `s` decodes to when all of it belongs to alphabet `a`. */
  function Decoded(a: DecodeAlphabet, s: seq<byte>): (d: seq<byte>)
    ensures |d| == DecodedSymbolLen(|s|)
  {
    Decode(Map(StrictTable(a), s))
  }

  /** Bytes `lo` to `hi` of `s` belong to the alphabet. */
  predicate Valid(a: DecodeAlphabet, s: seq<byte>, lo: nat, hi: nat)
    requires lo <= hi <= |s|
  {
    forall k :: lo <= k < hi ==> StrictValue(a, s[k]) < 64
  }

  predicate AllValid(a: DecodeAlphabet, s: seq<byte>) {
    Valid(a, s, 0, |s|)
  }

  lemma {:induction false} DecodedConcat(a: DecodeAlphabet, s: seq<byte>, u: seq<byte>)
    requires |s| % 4 == 0
    ensures Decoded(a, s + u) == Decoded(a, s) + Decoded(a, u)
  {
    MapConcat(StrictTable(a), s, u);
    DecodeConcat(Map(StrictTable(a), s), Map(StrictTable(a), u));
  }

  // ----- classification -----

  predicate Clean(errors: seq<byte>) {
    forall k :: 0 <= k < |errors| ==> errors[k] == 0
  }

  function OrVectors(e: seq<byte>, f: seq<byte>): (r: seq<byte>)
    requires |e| == |f|
    ensures |r| == |e|
    ensures Clean(r) <==> Clean(e) && Clean(f)
  {
    var r := seq(|e|, k requires 0 <= k < |e| => e[k] | f[k]);
    assert forall k :: 0 <= k < |e| ==> (r[k] == 0 <==> e[k] == 0 && f[k] == 0);
    r
  }

  /** `indices` holds the values of the alphabet bytes from `lo` on. */
  predicate Classified(a: DecodeAlphabet, indices: seq<byte>, s: seq<byte>, lo: nat) {
    && lo + |indices| <= |s| && Valid(a, s, lo, lo + |indices|)
    && (forall k :: 0 <= k < |indices| ==> indices[k] == StrictValue(a, s[lo + k]))
  }

  /** Loads `w` bytes and returns their index lanes and error lanes. With `check` off (input known to
      be valid) the error lanes are zero. */
  method DecodeIndices(f: Lanes, a: DecodeAlphabet, check: bool, input: seq<byte>, source: nat, w: nat)
    returns (indices: seq<byte>, errors: seq<byte>)
    requires source + w <= |input| && (ShiftsPairs(f) ==> w % 2 == 0)
    requires check || Valid(a, input, source, source + w)
    ensures |indices| == w == |errors|
    ensures Clean(errors) <==> Valid(a, input, source, source + w)
    ensures forall k :: 0 <= k < w ==> (errors[k] == 0 <==> StrictValue(a, input[source + k]) < 64)
    ensures forall k :: 0 <= k < w && errors[k] == 0 ==> indices[k] == StrictValue(a, input[source + k])
    ensures Clean(errors) ==> Classified(a, indices, input, source)
  {
    hide StrictValue, ErrorLane, IndexLane, NibbleLanes;
    var block := input[source..source + w];
    var nibbles := NibbleLanes(f, block);
    indices := seq(w, k requires 0 <= k < w => IndexLane(f, a, block[k], nibbles[k]));
    errors := seq(w, k requires 0 <= k < w => if check then ErrorLane(f, a, block[k], nibbles[k]) else 0);
    forall k | 0 <= k < w
      ensures StrictValue(a, input[source + k]) < 64 ==> indices[k] == StrictValue(a, input[source + k])
      ensures errors[k] == 0 <==> StrictValue(a, input[source + k]) < 64
    {
      NibbleLanesAt(f, block, k);
      LaneAgreesWithTable(f, a, block[k]);
    }
    if Clean(errors) {
      forall k | source <= k < source + w ensures StrictValue(a, input[k]) < 64 {
        assert errors[k - source] == 0;
      }
    }
  }

  // ----- packing -----

  /** The 32-bit lanes after both multiply-adds, as bytes in memory order. */
  function Dwords(v: seq<byte>): (m: seq<byte>)
    ensures |m| == |v| / 4 * 4
  {
    if |v| < 4 then []
    else
      var w := PackedDword(v[0], v[1], v[2], v[3]);
      [DwordByte(w, 0), DwordByte(w, 1), DwordByte(w, 2), DwordByte(w, 3)] + Dwords(v[4..])
  }

  /** A byte shuffle: lane `k` takes byte `idx[k]`, or zero when that is out of range. */
  function Gather(m: seq<byte>, idx: seq<nat>): (r: seq<byte>)
    ensures |r| == |idx|
  {
    seq(|idx|, k requires 0 <= k < |idx| => if idx[k] < |m| then m[idx[k]] else 0)
  }

  /** Shuffle indices that take the three payload bytes of each 32-bit lane, high byte first. */
  function PackIndices(n: nat): (idx: seq<nat>)
    ensures |idx| == n
    ensures forall k :: 0 <= k < n ==> idx[k] == k / 3 * 4 + 2 - k % 3
  {
    seq(n, k requires 0 <= k => k / 3 * 4 + 2 - k % 3)
  }

  const PACK_SHUFFLE: seq<nat> := [2, 1, 0, 6, 5, 4, 10, 9, 8, 14, 13, 12, 255, 255, 255, 255]

  const LANE_PADDING: seq<byte> := [0, 0, 0, 0]

  /** Builds the 64-byte shuffle of the 512-bit decoder. */
  method BuildDecodeShuffle() returns (shuffle: array<nat>)
    ensures fresh(shuffle) && shuffle.Length == 64
    ensures forall k :: 0 <= k < 48 ==> shuffle[k] == PackIndices(48)[k]
    ensures forall k :: 48 <= k < 64 ==> shuffle[k] == 0
  {
    shuffle := new nat[64](_ => 0);
    var lane := 0;
    while lane < 4
      invariant 0 <= lane <= 4
      invariant forall k :: 0 <= k < lane * 12 ==> shuffle[k] == k / 3 * 4 + 2 - k % 3
      invariant forall k :: lane * 12 <= k < 64 ==> shuffle[k] == 0
    {
      var group := 0;
      while group < 4
        invariant 0 <= group <= 4
        invariant forall k :: 0 <= k < lane * 12 + group * 3 ==> shuffle[k] == k / 3 * 4 + 2 - k % 3
        invariant forall k :: lane * 12 + group * 3 <= k < 64 ==> shuffle[k] == 0
      {
        var source := lane * 16 + group * 4;
        var destination := lane * 12 + group * 3;
        shuffle[destination] := source + 2;
        shuffle[destination + 1] := source + 1;
        shuffle[destination + 2] := source;
        group := group + 1;
      }
      lane := lane + 1;
    }
  }

  lemma {:induction false} DwordsStep(v: seq<byte>)
    requires |v| >= 4
    ensures var w := PackedDword(v[0], v[1], v[2], v[3]);
            Dwords(v) == [DwordByte(w, 0), DwordByte(w, 1), DwordByte(w, 2), DwordByte(w, 3)] + Dwords(v[4..])
  {
    hide DwordByte, PackedDword;
  }

  lemma {:induction false} DwordAt(v: seq<byte>, g: nat)
    requires 4 * g + 4 <= |v|
    ensures var w := PackedDword(v[4 * g], v[4 * g + 1], v[4 * g + 2], v[4 * g + 3]);
            forall j :: 0 <= j < 4 ==> Dwords(v)[4 * g + j] == DwordByte(w, j)
  {
    hide DwordByte, PackedDword, Dwords;
    DwordsStep(v);
    if g > 0 {
      DwordAt(v[4..], g - 1);
      assert Dwords(v)[4..] == Dwords(v[4..]);
    }
  }

  lemma {:induction false} DecodeAt(v: seq<byte>, g: nat)
    requires 4 * g + 4 <= |v|
    ensures DecodedSymbolLen(|v|) >= 3 * g + 3
    ensures Decode(v)[3 * g] == First(v[4 * g], v[4 * g + 1])
    ensures Decode(v)[3 * g + 1] == Second(v[4 * g + 1], v[4 * g + 2])
    ensures Decode(v)[3 * g + 2] == Third(v[4 * g + 2], v[4 * g + 3])
  {
    hide First, Second, Third, Decode;
    DecodeStep(v);
    if g > 0 {
      DecodeAt(v[4..], g - 1);
    }
  }

  /** Packing and shuffling the leading valid quartets of a vector gives their decoding, whatever
      the remaining lanes hold. */
  lemma {:induction false} PackedPrefix(indices: seq<byte>, v: seq<byte>)
    requires |v| % 4 == 0 && v <= indices && Sextets(v)
    ensures Gather(Dwords(indices), PackIndices(|v| / 4 * 3)) == Decode(v)
  {
    hide First, Second, Third, DwordByte, PackedDword, Decode, Dwords;
    var packed := Gather(Dwords(indices), PackIndices(|v| / 4 * 3));
    forall k | 0 <= k < |packed| ensures packed[k] == Decode(v)[k] {
      var g := k / 3;
      DwordAt(indices, g);
      DecodeAt(v, g);
      PackedDwordIsQuantum(v[4 * g], v[4 * g + 1], v[4 * g + 2], v[4 * g + 3]);
      assert PackIndices(|v| / 4 * 3)[k] == 4 * g + (2 - k % 3);
    }
  }

  /** One 128-bit lane: twelve payload bytes, then four zero bytes. */
  lemma {:induction false} PackedLane(v: seq<byte>)
    requires |v| == 16 && Sextets(v)
    ensures Gather(Dwords(v), PACK_SHUFFLE) == Decode(v) + LANE_PADDING
  {
    hide Decode, Dwords;
    PackedPrefix(v, v);
    forall k | 0 <= k < 12 ensures PACK_SHUFFLE[k] == PackIndices(12)[k] {
    }
  }
}
