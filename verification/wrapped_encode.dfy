/** Encoding with line breaks: vector and scalar encoders that stream into the column-tracking writer, and
the prepared encoder that picks between them and wrapping in place. */
module WrappedEncode {
  import opened Bytes
  import opened Quantum
  import opened Strict
  import opened StrictApi
  import opened EncodeSpec
  import opened EncodedText
  import opened EncodeLanes
  import opened EncodeKernels
  import opened EncodeNeon
  import opened EncodeApi
  import opened EncodeWrap
  import opened WrappedOutputs

  /** The writer has taken the symbols of the first `g` groups, and there is room for all of them. */
  ghost predicate Streamed(w: WrappedOutput, sym: Table, padded: bool, input: seq<byte>, g: nat)
    reads w, w.output
  {
    && w.Valid() && w.column % 4 == 0 && 3 * g <= |input|
    && w.Payload() == Symbols(sym, input[..3 * g]) && w.Room(Encoded(sym, padded, input))
  }

  lemma SymbolsPrefix(sym: Table, padded: bool, input: seq<byte>, g: nat, m: nat)
    requires 3 * (g + m) <= |input|
    ensures Symbols(sym, input[..3 * g]) + Symbols(sym, input[3 * g..3 * (g + m)]) == Symbols(sym, input[..3 * (g + m)])
    ensures Symbols(sym, input[..3 * (g + m)]) <= Encoded(sym, padded, input)
    ensures |Symbols(sym, input[3 * g..3 * (g + m)])| == 4 * m
  {
    hide Symbols, Encoded;
    assert input[..3 * (g + m)] == input[..3 * g] + input[3 * g..3 * (g + m)];
    SymbolsConcat(sym, input[..3 * g], input[3 * g..3 * (g + m)]);
    EncodedSplit(sym, padded, input, 3 * (g + m));
    EncodedSplit(sym, padded, input, 3 * g);
  }

  /** Writes a vector of whole groups in blocks of sixteen. */
  method WriteVector(w: WrappedOutput, sym: Table, ghost padded: bool, input: seq<byte>, v: seq<byte>, ghost g: nat,
                     ghost m: nat)
    requires Streamed(w, sym, padded, input, g) && 3 * (g + m) <= |input|
    requires |v| % 16 == 0 && v == Symbols(sym, input[3 * g..3 * (g + m)])
    modifies w, w.output
    ensures Streamed(w, sym, padded, input, g + m)
  {
    hide Symbols, Encoded, Wrapped, WrappedOutput.Open, WrappedOutput.Valid;
    ghost var all, start := Encoded(sym, padded, input), w.Payload();
    SymbolsPrefix(sym, padded, input, g, m);
    var offset := 0;
    assert start + v[..0] == start;
    while offset < |v|
      invariant 0 <= offset <= |v| && offset % 16 == 0
      invariant w.Valid() && w.column % 4 == 0 && w.Payload() == start + v[..offset]
    {
      assert v[..offset + 16] == v[..offset] + v[offset..offset + 16];
      ConcatAssociates(start, v[..offset], v[offset..offset + 16]);
      PrefixOf(start, v, all, offset + 16);
      w.Write16(v[offset..offset + 16], all);
      offset := offset + 16;
    }
    assert v[..offset] == v;
  }

  method EncodeWrappedSsse3(sym: Table, ghost padded: bool, input: seq<byte>, w: WrappedOutput)
    returns (source: nat, ghost g: nat)
    requires HasStandardPrefix(sym) && Streamed(w, sym, padded, input, 0)
    modifies w, w.output
    ensures source == 3 * g && Streamed(w, sym, padded, input, g)
  {
    hide HasStandardPrefix, Symbols, Streamed;
    source, g := 0, 0;
    while source + 52 <= |input|
      invariant source == 3 * g <= |input| && Streamed(w, sym, padded, input, g)
    {
      var k := 0;
      while k < 4
        invariant 0 <= k <= 4 && source + 52 <= |input| && source == 3 * g && Streamed(w, sym, padded, input, g + 4 * k)
      {
        var encoded := Encode12(sym, input, source + 12 * k);
        WriteVector(w, sym, padded, input, encoded, g + 4 * k, 4);
        k := k + 1;
      }
      source, g := source + 48, g + 16;
    }
    while source + 16 <= |input|
      invariant source == 3 * g <= |input| && Streamed(w, sym, padded, input, g)
    {
      var encoded := Encode12(sym, input, source);
      WriteVector(w, sym, padded, input, encoded, g, 4);
      source, g := source + 12, g + 4;
    }
  }

  method EncodeWrappedAvx2(sym: Table, ghost padded: bool, input: seq<byte>, w: WrappedOutput)
    returns (consumed: nat, ghost g: nat)
    requires HasStandardPrefix(sym) && Streamed(w, sym, padded, input, 0)
    modifies w, w.output
    ensures consumed == 3 * g && Streamed(w, sym, padded, input, g)
  {
    hide HasStandardPrefix, Symbols, Streamed;
    if |input| < 32 {
      consumed, g := EncodeWrappedSsse3(sym, padded, input, w);
      return;
    }
    var first := Encode24First(sym, input);
    WriteVector(w, sym, padded, input, first, 0, 8);
    var loadOffset := 20;
    g := 8;
    while loadOffset + 104 <= |input|
      invariant loadOffset + 4 == 3 * g <= |input| && Streamed(w, sym, padded, input, g)
    {
      var k := 0;
      while k < 4
        invariant 0 <= k <= 4 && loadOffset + 104 <= |input| && loadOffset + 4 == 3 * g
        invariant Streamed(w, sym, padded, input, g + 8 * k)
      {
        var encoded := Encode24Shifted(HighMultiply, sym, input, loadOffset + 24 * k);
        WriteVector(w, sym, padded, input, encoded, g + 8 * k, 8);
        k := k + 1;
      }
      loadOffset, g := loadOffset + 96, g + 32;
    }
    while loadOffset + 32 <= |input|
      invariant loadOffset + 4 == 3 * g <= |input| && Streamed(w, sym, padded, input, g)
    {
      var encoded := Encode24Shifted(HighMultiply, sym, input, loadOffset);
      WriteVector(w, sym, padded, input, encoded, g, 8);
      loadOffset, g := loadOffset + 24, g + 8;
    }
    consumed := loadOffset + 4;
    if consumed + 16 <= |input| {
      var encoded := Encode12(sym, input, consumed);
      WriteVector(w, sym, padded, input, encoded, g, 4);
      consumed, g := consumed + 12, g + 4;
    }
  }

  method EncodeWrappedAvx512(sym: Table, ghost padded: bool, input: seq<byte>, w: WrappedOutput)
    returns (consumed: nat, ghost g: nat)
    requires HasStandardPrefix(sym) && Streamed(w, sym, padded, input, 0)
    modifies w, w.output
    ensures consumed == 3 * g && Streamed(w, sym, padded, input, g)
  {
    hide HasStandardPrefix, Symbols, Streamed;
    if |input| < 48 {
      consumed, g := EncodeWrappedAvx2(sym, padded, input, w);
      return;
    }
    var source := 0;
    g := 0;
    while source + 192 <= |input|
      invariant source == 3 * g <= |input| && Streamed(w, sym, padded, input, g)
    {
      var k := 0;
      while k < 4
        invariant 0 <= k <= 4 && source + 192 <= |input| && source == 3 * g
        invariant Streamed(w, sym, padded, input, g + 16 * k)
      {
        WriteBlock48(sym, padded, input, source + 48 * k, w, g + 16 * k);
        k := k + 1;
      }
      source, g := source + 192, g + 64;
    }
    while source + 48 <= |input|
      invariant source == 3 * g <= |input| && Streamed(w, sym, padded, input, g)
    {
      WriteBlock48(sym, padded, input, source, w, g);
      source, g := source + 48, g + 16;
    }
    var completeInput := (|input| - source) / 3 * 3;
    if completeInput != 0 {
      ghost var m := completeInput / 3;
      var encoded := EncodeMasked(sym, input, source, completeInput);
      WriteWhole(w, sym, padded, input, encoded[..completeInput / 3 * 4], g, m);
      g := g + m;
    }
    consumed := source + completeInput;
  }

  method WriteBlock48(sym: Table, ghost padded: bool, input: seq<byte>, source: nat, w: WrappedOutput, ghost g: nat)
    requires source == 3 * g && source + 48 <= |input| && Streamed(w, sym, padded, input, g)
    modifies w, w.output
    ensures Streamed(w, sym, padded, input, g + 16)
  {
    hide Symbols, Streamed;
    var encoded := EncodeMasked(sym, input, source, 48);
    assert encoded[..64] == encoded;
    WriteVector(w, sym, padded, input, encoded, g, 16);
  }

  method EncodeWrappedNeon(sym: Table, ghost padded: bool, input: seq<byte>, w: WrappedOutput)
    returns (source: nat, ghost g: nat)
    requires Streamed(w, sym, padded, input, 0)
    modifies w, w.output
    ensures source == 3 * g && Streamed(w, sym, padded, input, g)
  {
    hide Symbols, Streamed;
    source, g := 0, 0;
    while source + 192 <= |input|
      invariant source == 3 * g <= |input| && Streamed(w, sym, padded, input, g)
    {
      var k := 0;
      while k < 4
        invariant 0 <= k <= 4 && source + 192 <= |input| && source == 3 * g
        invariant Streamed(w, sym, padded, input, g + 16 * k)
      {
        var encoded := ZippedBlock(sym, input, source + 48 * k, 48);
        WriteVector(w, sym, padded, input, encoded, g + 16 * k, 16);
        k := k + 1;
      }
      source, g := source + 192, g + 64;
    }
    while source + 48 <= |input|
      invariant source == 3 * g <= |input| && Streamed(w, sym, padded, input, g)
    {
      var encoded := ZippedBlock(sym, input, source, 48);
      WriteVector(w, sym, padded, input, encoded, g, 16);
      source, g := source + 48, g + 16;
    }
    if source + 24 <= |input| {
      var encoded := ZippedBlock(sym, input, source, 24);
      WriteVector(w, sym, padded, input, encoded, g, 8);
      source, g := source + 24, g + 8;
    }
  }

  /** Writes whole groups as bytes. */
  method WriteWhole(w: WrappedOutput, sym: Table, ghost padded: bool, input: seq<byte>, v: seq<byte>, ghost g: nat,
                    ghost m: nat)
    requires Streamed(w, sym, padded, input, g) && 3 * (g + m) <= |input|
    requires v == Symbols(sym, input[3 * g..3 * (g + m)])
    modifies w, w.output
    ensures Streamed(w, sym, padded, input, g + m)
  {
    hide Symbols, Encoded, Wrapped, WrappedOutput.Open;
    SymbolsPrefix(sym, padded, input, g, m);
    w.WriteBytes(v, Encoded(sym, padded, input));
  }

  /** Two groups at a time into a small buffer, and a tail that is cut for unpadded output. */
  method EncodeScalarWrapped(sym: Table, padded: bool, input: seq<byte>, source0: nat, w: WrappedOutput, ghost g0: nat)
    requires source0 == 3 * g0 && Streamed(w, sym, padded, input, g0)
    modifies w, w.output
    ensures w.Valid() && w.Payload() == Encoded(sym, padded, input)
  {
    hide Symbols, Encoded, Streamed, Store;
    var source := source0;
    ghost var g := g0;
    StreamedWithin(w, sym, padded, input, g);
    while source + 6 <= |input|
      invariant source == 3 * g <= |input| && Streamed(w, sym, padded, input, g)
    {
      var encoded := new byte[8](_ => 0);
      var block := input[source..source + 6];
      WholeEncoded(sym, block);
      EncodeScalar(sym, block, encoded, 0);
      SymbolsPrefix(sym, padded, input, g, 2);
      assert encoded[0..8] == encoded[..];
      WriteWhole(w, sym, padded, input, encoded[..], g, 2);
      source, g := source + 6, g + 2;
    }
    EncodeWrappedTail(sym, padded, input, source, w, g);
  }

  lemma StreamedWithin(w: WrappedOutput, sym: Table, padded: bool, input: seq<byte>, g: nat)
    requires Streamed(w, sym, padded, input, g)
    ensures 3 * g <= |input|
  {
  }

  method EncodeWrappedTail(sym: Table, padded: bool, input: seq<byte>, source: nat, w: WrappedOutput, ghost g: nat)
    requires source == 3 * g && source <= |input| < source + 6 && Streamed(w, sym, padded, input, g)
    modifies w, w.output
    ensures w.Valid() && w.Payload() == Encoded(sym, padded, input)
  {
    hide Symbols, Store, Values, Wrapped, WrappedOutput.Open;
    EncodedSplit(sym, padded, input, source);
    if source != |input| {
      var tail := input[source..];
      var encoded := new byte[8](_ => 0);
      EncodeScalar(sym, tail, encoded, 0);
      var paddedLen := PaddedLen(|tail|);
      var written := if padded then paddedLen else paddedLen - (if |tail| % 3 == 0 then 0 else 3 - |tail| % 3);
      EncodedLengths(|tail|);
      assert encoded[0..paddedLen] == Encoded(sym, true, tail);
      assert encoded[..written] == Encoded(sym, padded, tail);
      w.WriteBytes(encoded[..written], Encoded(sym, padded, input));
    } else {
      EncodedNothing(sym);
      assert Symbols(sym, input[..source]) + [] == Symbols(sym, input[..source]);
    }
  }

  /** Streaming with line breaks: a kernel, then the scalar encoder. */
  method EncodeWrappedToPtr(m: Machine, a: EncodeAlphabet, padded: bool, width: nat, input: seq<byte>,
                            output: array<byte>)
    requires ValidAlphabet(a) && width >= 4 && width % 4 == 0
    requires |Wrapped(Encoded(SymbolTable(a), padded, input), width)| <= output.Length
    modifies output
    ensures output[..] == Store(old(output[..]), 0, Wrapped(Encoded(SymbolTable(a), padded, input), width))
  {
    hide Symbols, Encoded, Store, Wrapped, WrappedOutput.Open, SymbolTable;
    var sym := SymbolTable(a);
    var w := new WrappedOutput(output, 0, width);
    assert Symbols(sym, input[..0]) == [] by {
      NoSymbols(sym);
    }
    var source := 0;
    ghost var g := 0;
    if |input| >= 16 {
      source, g := EncodeWrappedWithBackend(m, a, padded, input, w);
    }
    EncodeScalarWrapped(sym, padded, input, source, w, g);
    w.Wraps();
  }

  lemma NoSymbols(sym: Table)
    ensures Symbols(sym, []) == []
  {
  }

  method EncodeWrappedWithBackend(m: Machine, a: EncodeAlphabet, ghost padded: bool, input: seq<byte>, w: WrappedOutput)
    returns (source: nat, ghost g: nat)
    requires ValidAlphabet(a) && Streamed(w, SymbolTable(a), padded, input, 0)
    modifies w, w.output
    ensures source == 3 * g && Streamed(w, SymbolTable(a), padded, input, g)
  {
    hide Streamed;
    if a.CustomAlphabet? && !a.standardPrefix {
      return 0, 0;
    }
    var sym := SymbolTable(a);
    assert HasStandardPrefix(sym);
    match m.backend {
      case ScalarEncoder => source, g := 0, 0;
      case Ssse3Encoder => source, g := EncodeWrappedSsse3(sym, padded, input, w);
      case Avx2Encoder => source, g := EncodeWrappedAvx2(sym, padded, input, w);
      case Avx512Encoder => source, g := EncodeWrappedAvx512(sym, padded, input, w);
      case NeonEncoder => source, g := EncodeWrappedNeon(sym, padded, input, w);
    }
  }

  // ----- the prepared encoder -----

  const DIRECT_WRAPPED_INPUT_THRESHOLD: nat := 4194304

  datatype PreparedEncoder = PreparedEncoder(alphabet: EncodeAlphabet, padded: bool, wrapping: Option<nat>)

  /** Line widths are multiples of four, as `NormalizeWrapcol` makes them. */
  ghost predicate ValidEncoder(e: PreparedEncoder) {
    ValidAlphabet(e.alphabet) && (e.wrapping.Some? ==> e.wrapping.value >= 4 && e.wrapping.value % 4 == 0)
  }

  const USIZE_END: nat := 0x1_0000_0000_0000_0000

  datatype Wrapcol = NegativeWrapcol | OverflowingWrapcol | Lines(width: Option<nat>)

  /** A column limit becomes the largest multiple of four within it, at least four; zero means no line
      breaks. Negative limits and those beyond the machine word are errors. */
  function NormalizeWrapcol(wrapcol: int): (r: Wrapcol)
    ensures r.NegativeWrapcol? <==> wrapcol < 0
    ensures r.OverflowingWrapcol? <==> wrapcol >= USIZE_END
    ensures r == Lines(None) <==> wrapcol == 0
    ensures r.Lines? && r.width.Some? ==> r.width.value % 4 == 0 && 4 <= r.width.value < USIZE_END
    ensures r.Lines? && r.width.Some? && wrapcol >= 4 ==> r.width.value <= wrapcol < r.width.value + 4
    ensures r.Lines? && r.width.Some? && wrapcol < 4 ==> r.width.value == 4
  {
    if wrapcol < 0 then NegativeWrapcol
    else if wrapcol >= USIZE_END then OverflowingWrapcol
    else if wrapcol == 0 then Lines(None)
    else Lines(Some((if wrapcol / 4 < 1 then 1 else wrapcol / 4) * 4))
  }

  /** The text an encoder produces. */
  function Text(e: PreparedEncoder, input: seq<byte>): seq<byte>
    requires e.wrapping.Some? ==> e.wrapping.value > 0
  {
    var data := Encoded(SymbolTable(e.alphabet), e.padded, input);
    if e.wrapping.None? then data else Wrapped(data, e.wrapping.value)
  }

  /** Every character of that text, in plain numbers. */
  lemma TextIs(e: PreparedEncoder, s: seq<byte>, k: nat)
    requires e.wrapping.Some? ==> e.wrapping.value > 0
    requires k < |Text(e, s)|
    ensures Text(e, s)[k] == TextAt(SymbolTable(e.alphabet), e.wrapping, s, k)
  {
    hide Encoded, Wrapped, CharacterAt, SymbolTable;
    var sym := SymbolTable(e.alphabet);
    if e.wrapping.None? {
      EncodedAt(sym, e.padded, s, k);
    } else {
      var w := e.wrapping.value;
      WrappedAt(Encoded(sym, e.padded, s), w, k);
      if k % (w + 1) != w {
        EncodedAt(sym, e.padded, s, k / (w + 1) * w + k % (w + 1));
      }
    }
  }

  function DataLen(e: PreparedEncoder, inputLen: nat): nat {
    if e.padded then PaddedLen(inputLen) else UnpaddedEncodedLen(inputLen)
  }

  function UnpaddedEncodedLen(inputLen: nat): (n: nat)
    ensures n == UnpaddedLen(inputLen)
  {
    EncodedLengths(inputLen);
    PaddedLen(inputLen) - (if inputLen % 3 != 0 then 3 - inputLen % 3 else 0)
  }

  function OutputLen(e: PreparedEncoder, inputLen: nat): nat
    requires e.wrapping.Some? ==> e.wrapping.value > 0
  {
    var dataLen := DataLen(e, inputLen);
    if dataLen == 0 || e.wrapping.None? then dataLen else dataLen + (dataLen - 1) / e.wrapping.value
  }

  /** The computed length is the length of the text. */
  lemma OutputLenIsExact(e: PreparedEncoder, input: seq<byte>)
    requires ValidEncoder(e)
    ensures OutputLen(e, |input|) == |Text(e, input)|
  {
    hide Wrapped, Symbols, SymbolTable;
    var data := Encoded(SymbolTable(e.alphabet), e.padded, input);
    if e.wrapping.Some? {
      WrappedLen(data, e.wrapping.value);
    }
  }

  lemma StoredText(e: PreparedEncoder, s: seq<byte>, before: seq<byte>, after: seq<byte>)
    requires e.wrapping.Some? ==> e.wrapping.value > 0
    requires |Text(e, s)| <= |before| && after == Store(before, 0, Text(e, s))
    ensures forall k :: 0 <= k < |Text(e, s)| ==> after[k] == TextAt(SymbolTable(e.alphabet), e.wrapping, s, k)
  {
    hide Text, TextAt, SymbolTable;
    forall k | 0 <= k < |Text(e, s)| ensures after[k] == TextAt(SymbolTable(e.alphabet), e.wrapping, s, k) {
      TextIs(e, s, k);
    }
  }

  /** Encodes into a buffer of sufficient size: large wrapped output streams, other wrapped output is
      encoded and then expanded in place. */
  method EncodeInto(m: Machine, e: PreparedEncoder, input: seq<byte>, output: array<byte>) returns (r: DecodeResult)
    requires ValidEncoder(e)
    modifies output
    ensures r == if |Text(e, input)| <= output.Length then Ok(|Text(e, input)|)
                 else OutputTooSmall(|Text(e, input)|, output.Length)
    ensures r.Ok? ==> output[..] == Store(old(output[..]), 0, Text(e, input))
    ensures r.Ok? ==> forall k :: 0 <= k < r.written ==>
                        output[k] == TextAt(SymbolTable(e.alphabet), e.wrapping, input, k)
    ensures !r.Ok? ==> output[..] == old(output[..])
  {
    hide Wrapped, Encoded, SymbolTable, Store, TextAt;
    var required := OutputLen(e, |input|);
    OutputLenIsExact(e, input);
    if output.Length < required {
      return OutputTooSmall(required, output.Length);
    }
    r := Ok(required);
    ghost var before := output[..];
    ghost var data := Encoded(SymbolTable(e.alphabet), e.padded, input);
    var dataLen := DataLen(e, |input|);
    if e.wrapping.None? {
      EncodeUnwrapped(m, e.alphabet, e.padded, input, output, 0);
    } else if |input| > DIRECT_WRAPPED_INPUT_THRESHOLD && dataLen > e.wrapping.value {
      EncodeWrappedToPtr(m, e.alphabet, e.padded, e.wrapping.value, input, output);
    } else {
      WrappedGrows(data, [], e.wrapping.value);
      assert data + [] == data;
      EncodeUnwrapped(m, e.alphabet, e.padded, input, output, 0);
      assert output[0..|data|] == output[..dataLen] == data;
      WrapEncoded(output, dataLen, e.wrapping.value);
      StoreCover(before, 0, data, Wrapped(data, e.wrapping.value));
    }
    StoredText(e, input, before, output[..]);
  }
}
