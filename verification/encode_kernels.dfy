/** The vector encoders: shuffled and shifted loads, multi-width loops, and the scalar loops behind them.
All loads stay inside the input; what is consumed is whole groups, and the output holds exactly their
encoding. */
module EncodeKernels {
  import opened Bytes
  import opened Vectors
  import opened EncodeSpec
  import opened EncodeLanes

  /** The output holds the encoding of the first `g` groups from `at` on, and is otherwise unchanged. */
  ghost predicate Stored(before: seq<byte>, now: seq<byte>, at: nat, sym: Table, input: seq<byte>, g: nat) {
    && 3 * g <= |input| && at + 4 * g <= |before|
    && |Symbols(sym, input[..3 * g])| == 4 * g
    && now == Store(before, at, Symbols(sym, input[..3 * g]))
  }

  lemma StoredNothing(before: seq<byte>, at: nat, sym: Table, input: seq<byte>)
    requires at <= |before|
    ensures Stored(before, before, at, sym, input, 0)
  {
    assert Symbols(sym, input[..0]) == [];
    StoreNothing(before, at);
  }

  /** Stores the symbols of `m` more groups. */
  method PutSymbols(sym: Table, input: seq<byte>, output: array<byte>, at: nat, destination: nat, v: seq<byte>,
                    ghost before: seq<byte>, ghost g: nat, ghost m: nat)
    requires Stored(before, output[..], at, sym, input, g) && destination == 4 * g
    requires 3 * (g + m) <= |input| && at + 4 * (g + m) <= output.Length == |before|
    requires |v| == 4 * m && v == Symbols(sym, input[3 * g..3 * (g + m)])
    modifies output
    ensures Stored(before, output[..], at, sym, input, g + m)
  {
    hide Symbols, Store;
    StoreInto(output, at + destination, v);
    StoreJoin(before, at, Symbols(sym, input[..3 * g]), v);
    assert input[..3 * (g + m)] == input[..3 * g] + input[3 * g..3 * (g + m)];
    SymbolsConcat(sym, input[..3 * g], input[3 * g..3 * (g + m)]);
  }

  // ----- loads and shuffles -----

  /** A vector load. */
  function Load(input: seq<byte>, at: nat, n: nat): (v: seq<byte>)
    requires at + n <= |input|
    ensures |v| == n
  {
    input[at..at + n]
  }

  const SHUFFLE_FROM_START: seq<nat> := [1, 0, 2, 1, 4, 3, 5, 4, 7, 6, 8, 7, 10, 9, 11, 10]
  const SHUFFLE_FROM_FOUR: seq<nat> := [5, 4, 6, 5, 8, 7, 9, 8, 11, 10, 12, 11, 14, 13, 15, 14]

  /** The source of shuffled byte `k`: within each group the order is second, first, third, second. */
  function SpreadIndex(from: nat, k: nat): nat {
    from + k / 4 * 3 + (if k % 4 == 1 then 0 else if k % 4 == 2 then 2 else 1)
  }

  lemma GatherSpreads(m: seq<byte>, idx: seq<nat>, from: nat, n: nat)
    requires |idx| == 4 * n && from + 3 * n <= |m|
    requires forall k :: 0 <= k < 4 * n ==> idx[k] == SpreadIndex(from, k)
    ensures Gather(m, idx) == Spread(m[from..from + 3 * n])
  {
    hide Spread;
    var s := m[from..from + 3 * n];
    var v, w := Gather(m, idx), Spread(s);
    forall k | 0 <= k < 4 * n ensures v[k] == w[k] {
      var g := k / 4;
      SpreadAt(s, g);
      assert w[k] == w[4 * g..4 * g + 4][k % 4];
      assert m[idx[k]] == s[idx[k] - from];
    }
  }

  /** The byte shuffles spread twelve bytes of a lane, from its start or from byte four. */
  lemma ShuffleSpreads(m: seq<byte>, from: nat)
    requires |m| == 16 && (from == 0 || from == 4)
    ensures Gather(m, if from == 0 then SHUFFLE_FROM_START else SHUFFLE_FROM_FOUR) == Spread(m[from..from + 12])
  {
    hide Spread, Gather;
    var idx := if from == 0 then SHUFFLE_FROM_START else SHUFFLE_FROM_FOUR;
    forall k | 0 <= k < 16 ensures idx[k] == SpreadIndex(from, k) {
    }
    GatherSpreads(m, idx, from, 4);
  }

  /** Twelve bytes, with a load of sixteen. */
  method Encode12(sym: Table, input: seq<byte>, source: nat) returns (v: seq<byte>)
    requires HasStandardPrefix(sym) && source + 16 <= |input|
    ensures |v| == 16 && v == Symbols(sym, input[source..source + 12])
  {
    hide HasStandardPrefix, Symbols, Fields, Spread, Gather;
    var load := Load(input, source, 16);
    ShuffleSpreads(load, 0);
    assert load[0..12] == input[source..source + 12];
    EncodedVector(HighMultiply, sym, input[source..source + 12]);
    v := AsciiVector(sym, Fields(HighMultiply, Gather(load, SHUFFLE_FROM_START)));
  }

  /** A 32-byte vector encodes its bytes 4 to 27: the low lane's payload starts at byte four, the high
      lane's at its start. */
  method Encode24ShiftedValue(e: Extraction, sym: Table, shifted: seq<byte>) returns (v: seq<byte>)
    requires HasStandardPrefix(sym) && |shifted| == 32
    ensures |v| == 32 && v == Symbols(sym, shifted[4..28])
  {
    hide HasStandardPrefix, Symbols, Fields, Spread, Gather;
    var low, high := shifted[..16], shifted[16..];
    ShuffleSpreads(low, 4);
    ShuffleSpreads(high, 0);
    EncodedVector(e, sym, low[4..16]);
    EncodedVector(e, sym, high[0..12]);
    SymbolsConcat(sym, low[4..16], high[0..12]);
    assert low[4..16] + high[0..12] == shifted[4..28];
    v := AsciiVector(sym, Fields(e, Gather(low, SHUFFLE_FROM_FOUR)))
         + AsciiVector(sym, Fields(e, Gather(high, SHUFFLE_FROM_START)));
  }

  /** The first block has no byte in front of it: a lane permutation shifts it instead of the load. */
  method Encode24First(sym: Table, input: seq<byte>) returns (v: seq<byte>)
    requires HasStandardPrefix(sym) && |input| >= 32
    ensures |v| == 32 && v == Symbols(sym, input[0..24])
  {
    hide HasStandardPrefix, Symbols;
    var value := Load(input, 0, 32);
    var shifted := value[0..4] + value[0..28];
    assert shifted[4..32] == value[0..28] && shifted[4..28] == shifted[4..32][..24];
    assert value[0..28][..24] == input[0..24];
    v := Encode24ShiftedValue(HighMultiply, sym, shifted);
  }

  /** Later blocks load from four bytes in front of the bytes they encode. */
  method Encode24Shifted(e: Extraction, sym: Table, input: seq<byte>, loadOffset: nat) returns (v: seq<byte>)
    requires HasStandardPrefix(sym) && loadOffset + 32 <= |input|
    ensures |v| == 32 && v == Symbols(sym, input[loadOffset + 4..loadOffset + 28])
  {
    hide HasStandardPrefix, Symbols;
    var load := Load(input, loadOffset, 32);
    SliceOfSlice(input, loadOffset, 32, 4, 28);
    v := Encode24ShiftedValue(e, sym, load);
  }

  // ----- 128-bit encoder -----

  method EncodeSsse3(sym: Table, input: seq<byte>, output: array<byte>, at: nat) returns (source: nat, ghost g: nat)
    requires HasStandardPrefix(sym) && at + |input| / 3 * 4 <= output.Length
    modifies output
    ensures source == 3 * g && Stored(old(output[..]), output[..], at, sym, input, g)
    ensures |input| - source < 16
  {
    hide HasStandardPrefix, Symbols, Store, Stored;
    ghost var before := output[..];
    var destination := 0;
    source, g := 0, 0;
    StoredNothing(before, at, sym, input);
    while source + 52 <= |input|
      invariant source == 3 * g <= |input| && destination == 4 * g && Stored(before, output[..], at, sym, input, g)
    {
      GroupsFit(|input|, g + 16);
      var first := Encode12(sym, input, source);
      var second := Encode12(sym, input, source + 12);
      var third := Encode12(sym, input, source + 24);
      var fourth := Encode12(sym, input, source + 36);
      PutSymbols(sym, input, output, at, destination, first, before, g, 4);
      PutSymbols(sym, input, output, at, destination + 16, second, before, g + 4, 4);
      PutSymbols(sym, input, output, at, destination + 32, third, before, g + 8, 4);
      PutSymbols(sym, input, output, at, destination + 48, fourth, before, g + 12, 4);
      source, destination, g := source + 48, destination + 64, g + 16;
    }
    while source + 16 <= |input|
      invariant source == 3 * g <= |input| && destination == 4 * g && Stored(before, output[..], at, sym, input, g)
    {
      GroupsFit(|input|, g + 4);
      var encoded := Encode12(sym, input, source);
      PutSymbols(sym, input, output, at, destination, encoded, before, g, 4);
      source, destination, g := source + 12, destination + 16, g + 4;
    }
  }

  lemma GroupsFit(n: nat, g: nat)
    ensures 3 * g <= n ==> 4 * g <= n / 3 * 4
  {
  }

  // ----- 256-bit encoder -----

  /** Four shifted blocks: 96 bytes. */
  method Encode96(e: Extraction, sym: Table, input: seq<byte>, loadOffset: nat, output: array<byte>, at: nat,
                  destination: nat, ghost before: seq<byte>, ghost g: nat)
    requires HasStandardPrefix(sym) && loadOffset + 4 == 3 * g && destination == 4 * g && loadOffset + 104 <= |input|
    requires Stored(before, output[..], at, sym, input, g) && at + |input| / 3 * 4 <= output.Length == |before|
    modifies output
    ensures Stored(before, output[..], at, sym, input, g + 32)
  {
    hide HasStandardPrefix, Symbols, Store, Stored;
    GroupsFit(|input|, g + 32);
    var first := Encode24Shifted(e, sym, input, loadOffset);
    var second := Encode24Shifted(e, sym, input, loadOffset + 24);
    var third := Encode24Shifted(e, sym, input, loadOffset + 48);
    var fourth := Encode24Shifted(e, sym, input, loadOffset + 72);
    PutSymbols(sym, input, output, at, destination, first, before, g, 8);
    PutSymbols(sym, input, output, at, destination + 32, second, before, g + 8, 8);
    PutSymbols(sym, input, output, at, destination + 64, third, before, g + 16, 8);
    PutSymbols(sym, input, output, at, destination + 96, fourth, before, g + 24, 8);
  }

  /** A positive number of 96-byte groups. The streaming form takes two at a time. */
  method Encode96Groups(streaming: bool, sym: Table, input: seq<byte>, loadOffset0: nat, output: array<byte>, at: nat,
                        destination0: nat, groups0: nat, ghost before: seq<byte>, ghost g0: nat)
    returns (loadOffset: nat, destination: nat, ghost g: nat)
    requires HasStandardPrefix(sym) && loadOffset0 + 4 == 3 * g0 && destination0 == 4 * g0
    requires groups0 > 0 && loadOffset0 + 96 * groups0 + 8 <= |input|
    requires Stored(before, output[..], at, sym, input, g0) && at + |input| / 3 * 4 <= output.Length == |before|
    modifies output
    ensures loadOffset == loadOffset0 + 96 * groups0 && destination == destination0 + 128 * groups0
    ensures g == g0 + 32 * groups0 && Stored(before, output[..], at, sym, input, g)
  {
    hide HasStandardPrefix, Symbols, Store, Stored;
    var groups := groups0;
    loadOffset, destination, g := loadOffset0, destination0, g0;
    while streaming && groups >= 2
      invariant 0 <= groups <= groups0 && loadOffset == loadOffset0 + 96 * (groups0 - groups)
      invariant destination == destination0 + 128 * (groups0 - groups) && g == g0 + 32 * (groups0 - groups)
      invariant Stored(before, output[..], at, sym, input, g)
      decreases groups
    {
      Encode96(LowMultiplyShift, sym, input, loadOffset, output, at, destination, before, g);
      Encode96(LowMultiplyShift, sym, input, loadOffset + 96, output, at, destination + 128, before, g + 32);
      loadOffset, destination, g, groups := loadOffset + 192, destination + 256, g + 64, groups - 2;
    }
    while groups > 0
      invariant 0 <= groups <= groups0 && loadOffset == loadOffset0 + 96 * (groups0 - groups)
      invariant destination == destination0 + 128 * (groups0 - groups) && g == g0 + 32 * (groups0 - groups)
      invariant Stored(before, output[..], at, sym, input, g)
      decreases groups
    {
      Encode96(LowMultiplyShift, sym, input, loadOffset, output, at, destination, before, g);
      loadOffset, destination, g, groups := loadOffset + 96, destination + 128, g + 32, groups - 1;
    }
  }

  /** The 256-bit encoder. `helper` tells whether the grouped 96-byte helper exists (64-bit code); there an
      alignment block may precede it. Without it the same groups run inline. */
  method EncodeAvx2(helper: bool, streaming: bool, misaligned: bool, sym: Table, input: seq<byte>, output: array<byte>,
                    at: nat)
    returns (consumed: nat, ghost g: nat)
    requires HasStandardPrefix(sym) && at + |input| / 3 * 4 <= output.Length
    modifies output
    ensures consumed == 3 * g && Stored(old(output[..]), output[..], at, sym, input, g)
    ensures |input| - consumed < 28
  {
    hide HasStandardPrefix, Symbols, Store, Stored;
    ghost var before := output[..];
    if |input| < 32 {
      consumed, g := EncodeSsse3(sym, input, output, at);
      return;
    }
    StoredNothing(before, at, sym, input);
    GroupsFit(|input|, 8);
    var first := Encode24First(sym, input);
    PutSymbols(sym, input, output, at, 0, first, before, 0, 8);
    var loadOffset, destination := 20, 32;
    g := 8;
    if helper {
      loadOffset, destination, g := HelperGroups(streaming, misaligned, sym, input, output, at, before);
    } else {
      while loadOffset + 104 <= |input|
        invariant loadOffset + 4 == 3 * g <= |input| && destination == 4 * g
        invariant Stored(before, output[..], at, sym, input, g)
        invariant loadOffset + 8 <= |input|
      {
        Encode96(HighMultiply, sym, input, loadOffset, output, at, destination, before, g);
        loadOffset, destination, g := loadOffset + 96, destination + 128, g + 32;
      }
    }
    while loadOffset + 32 <= |input|
      invariant loadOffset + 4 == 3 * g <= |input| && destination == 4 * g
      invariant Stored(before, output[..], at, sym, input, g)
    {
      GroupsFit(|input|, g + 8);
      var encoded := Encode24Shifted(HighMultiply, sym, input, loadOffset);
      PutSymbols(sym, input, output, at, destination, encoded, before, g, 8);
      loadOffset, destination, g := loadOffset + 24, destination + 32, g + 8;
    }
    consumed := loadOffset + 4;
    if consumed + 16 <= |input| {
      GroupsFit(|input|, g + 4);
      var encoded := Encode12(sym, input, consumed);
      PutSymbols(sym, input, output, at, destination, encoded, before, g, 4);
      consumed, g := consumed + 12, g + 4;
    }
  }

  /** Groups of 96 bytes behind the first block, if there are at least two; the alignment block costs
      twelve bytes and may cost a group. */
  method HelperGroups(streaming: bool, misaligned: bool, sym: Table, input: seq<byte>, output: array<byte>, at: nat,
                      ghost before: seq<byte>)
    returns (loadOffset: nat, destination: nat, ghost g: nat)
    requires HasStandardPrefix(sym) && |input| >= 32 && at + |input| / 3 * 4 <= output.Length == |before|
    requires Stored(before, output[..], at, sym, input, 8)
    modifies output
    ensures loadOffset + 4 == 3 * g <= |input| && destination == 4 * g && Stored(before, output[..], at, sym, input, g)
  {
    hide HasStandardPrefix, Symbols, Store, Stored;
    loadOffset, destination, g := 20, 32, 8;
    var groups := (|input| - loadOffset - 8) / 96;
    if groups >= 2 {
      if misaligned {
        GroupsFit(|input|, 12);
        var encoded := Encode12(sym, input, 24);
        PutSymbols(sym, input, output, at, destination, encoded, before, g, 4);
        loadOffset, destination, g := loadOffset + 12, destination + 16, g + 4;
        groups := (|input| - loadOffset - 8) / 96;
      }
      loadOffset, destination, g :=
        Encode96Groups(streaming, sym, input, loadOffset, output, at, destination, groups, before, g);
    }
  }

  // ----- 512-bit encoder -----

  /** Builds the 64-byte shuffle that spreads sixteen groups. */
  method BuildEncodeShuffle() returns (shuffle: seq<nat>)
    ensures |shuffle| == 64
    ensures forall k :: 0 <= k < 64 ==> shuffle[k] == SpreadIndex(0, k)
  {
    shuffle := [];
    var group := 0;
    while group < 16
      invariant 0 <= group <= 16 && |shuffle| == 4 * group
      invariant forall k :: 0 <= k < 4 * group ==> shuffle[k] == SpreadIndex(0, k)
    {
      var input := group * 3;
      shuffle := shuffle + [input + 1, input, input + 2, input + 1];
      group := group + 1;
    }
  }

  lemma SliceOfSlice(s: seq<byte>, at: nat, n: nat, lo: nat, hi: nat)
    requires lo <= hi <= n && at + n <= |s|
    ensures s[at..at + n][lo..hi] == s[at + lo..at + hi]
  {
    var inner := s[at..at + n];
    forall k | 0 <= k < hi - lo ensures inner[lo..hi][k] == s[at + lo..at + hi][k] {
      assert inner[lo + k] == s[at + lo + k];
    }
  }

  /** A masked load: lanes outside the mask are zero. */
  function MaskedLoad(input: seq<byte>, at: nat, n: nat): (v: seq<byte>)
    requires at + n <= |input| && n <= 64
    ensures |v| == 64
  {
    input[at..at + n] + seq(64 - n, _ => 0)
  }

  /** A 512-bit vector of up to 48 masked bytes: the symbols of the whole groups among them come first. */
  method EncodeMasked(sym: Table, input: seq<byte>, source: nat, n: nat) returns (v: seq<byte>)
    requires n % 3 == 0 && n <= 48 && source + n <= |input|
    ensures |v| == 64 && |Symbols(sym, input[source..source + n])| == n / 3 * 4
    ensures v[..n / 3 * 4] == Symbols(sym, input[source..source + n])
  {
    hide Spread, Values, Multishift, Gather;
    var shuffle := BuildEncodeShuffle();
    var load := MaskedLoad(input, source, n);
    GatherSpreads(load, shuffle, 0, 16);
    assert load[0..48] == load[..48];
    var shuffled := Gather(load, shuffle);
    MultishiftOfSpread(load[..48]);
    var indices := Multishift(shuffled);
    v := Map(sym, indices);
    ghost var x, rest := input[source..source + n], load[n..48];
    assert load[..48] == x + rest;
    SymbolsConcat(sym, x, rest);
    assert v == Symbols(sym, x + rest);
  }

  method Encode48(sym: Table, input: seq<byte>, source: nat, output: array<byte>, at: nat, destination: nat,
                  ghost before: seq<byte>, ghost g: nat)
    requires source == 3 * g && destination == 4 * g && source + 48 <= |input|
    requires Stored(before, output[..], at, sym, input, g) && at + |input| / 3 * 4 <= output.Length == |before|
    modifies output
    ensures Stored(before, output[..], at, sym, input, g + 16)
  {
    hide Symbols, Store, Stored;
    GroupsFit(|input|, g + 16);
    var encoded := EncodeMasked(sym, input, source, 48);
    assert encoded[..64] == encoded;
    PutSymbols(sym, input, output, at, destination, encoded, before, g, 16);
  }

  /** The 512-bit encoder: groups of 192, then 48, then a masked tail. */
  method EncodeAvx512(helper: bool, misaligned: bool, sym: Table, input: seq<byte>, output: array<byte>, at: nat)
    returns (consumed: nat, ghost g: nat)
    requires HasStandardPrefix(sym) && at + |input| / 3 * 4 <= output.Length
    modifies output
    ensures consumed == 3 * g && Stored(old(output[..]), output[..], at, sym, input, g)
    ensures |input| >= 48 ==> |input| - consumed < 3
  {
    hide HasStandardPrefix, Symbols, Store, Stored;
    ghost var before := output[..];
    if |input| < 48 {
      consumed, g := EncodeAvx2(helper, false, misaligned, sym, input, output, at);
      return;
    }
    var source, destination := 0, 0;
    g := 0;
    StoredNothing(before, at, sym, input);
    while source + 192 <= |input|
      invariant source == 3 * g <= |input| && destination == 4 * g && Stored(before, output[..], at, sym, input, g)
    {
      Encode48(sym, input, source, output, at, destination, before, g);
      Encode48(sym, input, source + 48, output, at, destination + 64, before, g + 16);
      Encode48(sym, input, source + 96, output, at, destination + 128, before, g + 32);
      Encode48(sym, input, source + 144, output, at, destination + 192, before, g + 48);
      source, destination, g := source + 192, destination + 256, g + 64;
    }
    while source + 48 <= |input|
      invariant source == 3 * g <= |input| && destination == 4 * g && Stored(before, output[..], at, sym, input, g)
    {
      Encode48(sym, input, source, output, at, destination, before, g);
      source, destination, g := source + 48, destination + 64, g + 16;
    }
    var completeInput := (|input| - source) / 3 * 3;
    if completeInput != 0 {
      ghost var m := completeInput / 3;
      GroupsFit(|input|, g + m);
      var encoded := EncodeMasked(sym, input, source, completeInput);
      PutSymbols(sym, input, output, at, destination, encoded[..completeInput / 3 * 4], before, g, m);
      g := g + m;
    }
    consumed := source + completeInput;
  }
}
