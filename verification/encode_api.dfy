/** Encoding: the scalar loops, kernels with a scalar rest, custom alphabets, and unpadded output. */
module EncodeApi {
  import opened Bytes
  import opened Alphabet
  import opened Quantum
  import opened EncodeSpec
  import opened EncodeLanes
  import opened EncodeKernels
  import opened EncodeNeon

  datatype EncodeBackend = ScalarEncoder | Ssse3Encoder | Avx2Encoder | Avx512Encoder | NeonEncoder

  /** What a run may differ in without changing its result: the kernel, whether the 96-byte helper exists,
      streaming stores, and the alignment of the destination. */
  datatype Machine = Machine(backend: EncodeBackend, helper: bool, streaming: bool, misaligned: bool)

  datatype EncodeAlphabet = StandardAlphabet | UrlSafeAlphabet | CustomAlphabet(table: Table, standardPrefix: bool)

  ghost predicate ValidAlphabet(a: EncodeAlphabet) {
    a.CustomAlphabet? ==> (a.standardPrefix <==> HasStandardPrefix(a.table))
  }

  function SymbolTable(a: EncodeAlphabet): Table {
    match a
    case StandardAlphabet => (v: byte) => StandardSymbol(v)
    case UrlSafeAlphabet => (v: byte) => UrlSafeSymbol(v)
    case CustomAlphabet(table, _) => table
  }

  /** The symbols of a value under optional altchars. */
  function AltSymbol(alt: Altchars, v: byte): byte {
    if alt.Altchars? && v == 62 then alt.plus else if alt.Altchars? && v == 63 then alt.slash else StandardSymbol(v)
  }

  method NewCustomAlphabet(table: Table) returns (a: EncodeAlphabet)
    ensures ValidAlphabet(a) && a.CustomAlphabet? && a.table == table
  {
    hide StandardSymbol;
    var v: byte := 0;
    while v < 62
      invariant v <= 62 && forall u: byte :: u < v ==> table(u) == StandardSymbol(u)
      decreases 62 - v
    {
      if table(v) != StandardSymbol(v) {
        return CustomAlphabet(table, false);
      }
      v := v + 1;
    }
    a := CustomAlphabet(table, true);
  }

  method NewEncodeAlphabet(alt: Altchars) returns (a: EncodeAlphabet)
    ensures ValidAlphabet(a)
    ensures forall v: byte :: v < 64 ==> SymbolTable(a)(v) == AltSymbol(alt, v)
  {
    if alt == NoAltchars {
      a := StandardAlphabet;
    } else if alt == URLSAFE_ALTCHARS {
      a := UrlSafeAlphabet;
    } else {
      a := NewCustomAlphabet((v: byte) => AltSymbol(alt, v));
    }
  }

  // ----- scalar encoding -----

  function Block(a: byte, b: byte, c: byte): bv32 {
    ((a as bv32) << 16) | ((b as bv32) << 8) | c as bv32
  }

  function BlockField(block: bv32, shift: bv32): byte
    requires shift < 32
  {
    ((block >> shift) & 0x3f) as byte
  }

  function BlockFields(block: bv32): (v: seq<byte>)
    ensures |v| == 4
  {
    [BlockField(block, 18), BlockField(block, 12), BlockField(block, 6), BlockField(block, 0)]
  }

  lemma BlockIsGroup(a: byte, b: byte, c: byte)
    ensures BlockFields(Block(a, b, c)) == Group(a, b, c)
  {
    BlockFieldValues(a, b, c);
    hide SextetA, SextetB, SextetC, SextetD, BlockField, Block;
  }

  lemma BlockFieldValues(a: byte, b: byte, c: byte)
    ensures BlockField(Block(a, b, c), 18) == SextetA(a)
    ensures BlockField(Block(a, b, c), 12) == SextetB(a, b)
    ensures BlockField(Block(a, b, c), 6) == SextetC(b, c)
    ensures BlockField(Block(a, b, c), 0) == SextetD(c)
  {
  }

  /** The symbols of one or two whole groups. */
  lemma GroupSymbols(sym: Table, s: seq<byte>)
    requires |s| == 3 || |s| == 6
    ensures |s| == 3 ==> Symbols(sym, s) == Map(sym, BlockFields(Block(s[0], s[1], s[2])))
    ensures |s| == 6 ==>
              Symbols(sym, s) == Map(sym, BlockFields(Block(s[0], s[1], s[2])) + BlockFields(Block(s[3], s[4], s[5])))
  {
    hide Group, Values, BlockFields, Block;
    BlockIsGroup(s[0], s[1], s[2]);
    if |s| == 3 {
      ValuesStep(s);
      assert s[3..] == [];
      EmptyValues();
      assert Group(s[0], s[1], s[2]) + [] == Group(s[0], s[1], s[2]);
    } else {
      BlockIsGroup(s[3], s[4], s[5]);
      ValuesSix(s);
    }
  }

  /** Behind whole groups the encoding starts afresh. */
  lemma EncodedSplit(sym: Table, padded: bool, s: seq<byte>, n: nat)
    requires n <= |s| && n % 3 == 0
    ensures Encoded(sym, padded, s) == Symbols(sym, s[..n]) + Encoded(sym, padded, s[n..])
    ensures |Symbols(sym, s[..n])| == n / 3 * 4
  {
    hide Values;
    assert s == s[..n] + s[n..];
    SymbolsConcat(sym, s[..n], s[n..]);
    assert Pads(|s|) == Pads(|s| - n);
    ConcatAssociates(Symbols(sym, s[..n]), Symbols(sym, s[n..]), if padded then Pads(|s|) else []);
  }

  /** The last one or two bytes: two or three symbols and padding. */
  method EncodeTail(sym: Table, s: seq<byte>, output: array<byte>, at: nat)
    requires |s| == 1 || |s| == 2
    requires at + 4 <= output.Length
    modifies output
    ensures |Encoded(sym, true, s)| == 4 && output[..] == Store(old(output[..]), at, Encoded(sym, true, s))
  {
    hide BlockField, Store, SextetA, SextetB, SextetC, SextetD;
    var block := Block(s[0], if |s| == 2 then s[1] else 0, 0);
    BlockFieldValues(s[0], if |s| == 2 then s[1] else 0, 0);
    var encoded := [sym(BlockField(block, 18)), sym(BlockField(block, 12)),
                    if |s| == 2 then sym(BlockField(block, 6)) else EQUALS, EQUALS];
    assert encoded == Encoded(sym, true, s);
    StoreInto(output, at, encoded);
  }

  /** The scalar encoder: two groups, one group, tail. */
  method EncodeScalar(sym: Table, input: seq<byte>, output: array<byte>, at: nat)
    requires at + PaddedLen(|input|) <= output.Length
    modifies output
    ensures output[..] == Store(old(output[..]), at, Encoded(sym, true, input))
  {
    hide Symbols, Store, Stored, BlockFields, Block, Values, Encoded;
    ghost var before := output[..];
    var source, destination := 0, 0;
    ghost var g := 0;
    StoredNothing(before, at, sym, input);
    while source + 6 <= |input|
      invariant source == 3 * g <= |input| && destination == 4 * g && Stored(before, output[..], at, sym, input, g)
    {
      PaddedFits(|input|, g + 2);
      var block := input[source..source + 6];
      GroupSymbols(sym, block);
      var fields := BlockFields(Block(block[0], block[1], block[2])) + BlockFields(Block(block[3], block[4], block[5]));
      var encoded := Map(sym, fields);
      PutSymbols(sym, input, output, at, destination, encoded, before, g, 2);
      source, destination, g := source + 6, destination + 8, g + 2;
    }
    while source + 3 <= |input|
      invariant source == 3 * g <= |input| && destination == 4 * g && Stored(before, output[..], at, sym, input, g)
    {
      PaddedFits(|input|, g + 1);
      var block := input[source..source + 3];
      GroupSymbols(sym, block);
      var encoded := Map(sym, BlockFields(Block(block[0], block[1], block[2])));
      PutSymbols(sym, input, output, at, destination, encoded, before, g, 1);
      source, destination, g := source + 3, destination + 4, g + 1;
    }
    var tail := input[source..];
    ghost var was := output[..];
    StoredMeaning(before, was, at, sym, input, g);
    EncodedSplit(sym, true, input, source);
    if tail != [] {
      PaddedFits(|input|, g);
      EncodeTail(sym, tail, output, at + destination);
      StoreJoin(before, at, Symbols(sym, input[..source]), Encoded(sym, true, tail));
    } else {
      EncodedNothing(sym);
      assert Symbols(sym, input[..source]) + [] == Symbols(sym, input[..source]);
    }
  }

  lemma EncodedNothing(sym: Table)
    ensures Encoded(sym, true, []) == [] == Encoded(sym, false, [])
  {
  }

  lemma StoredMeaning(before: seq<byte>, now: seq<byte>, at: nat, sym: Table, input: seq<byte>, g: nat)
    requires Stored(before, now, at, sym, input, g)
    ensures 3 * g <= |input| && at + 4 * g <= |before| && |Symbols(sym, input[..3 * g])| == 4 * g
    ensures now == Store(before, at, Symbols(sym, input[..3 * g]))
  {
  }

  lemma PaddedFits(n: nat, g: nat)
    ensures 3 * g <= n ==> 4 * g <= PaddedLen(n)
    ensures 3 * g <= n && n != 3 * g ==> 4 * g + 4 <= PaddedLen(n)
    ensures n / 3 * 4 <= PaddedLen(n)
  {
  }

  /** The kernel's share. Tables without the standard prefix stay scalar. */
  method EncodeWithBackend(m: Machine, a: EncodeAlphabet, input: seq<byte>, output: array<byte>, at: nat)
    returns (source: nat, ghost g: nat)
    requires ValidAlphabet(a) && at + |input| / 3 * 4 <= output.Length
    modifies output
    ensures source == 3 * g && Stored(old(output[..]), output[..], at, SymbolTable(a), input, g)
  {
    hide Stored, Symbols;
    if a.CustomAlphabet? && !a.standardPrefix {
      StoredNothing(output[..], at, SymbolTable(a), input);
      return 0, 0;
    }
    var sym := SymbolTable(a);
    assert HasStandardPrefix(sym);
    match m.backend {
      case ScalarEncoder =>
        StoredNothing(output[..], at, sym, input);
        source, g := 0, 0;
      case Ssse3Encoder => source, g := EncodeSsse3(sym, input, output, at);
      case Avx2Encoder => source, g := EncodeAvx2(m.helper, m.streaming, m.misaligned, sym, input, output, at);
      case Avx512Encoder => source, g := EncodeAvx512(m.helper, m.misaligned, sym, input, output, at);
      case NeonEncoder => source, g := EncodeStructured(sym, input, output, at);
    }
  }

  /** Padded encoding: a kernel for whole groups, the scalar encoder for the rest. */
  method EncodeToPtr(m: Machine, a: EncodeAlphabet, input: seq<byte>, output: array<byte>, at: nat)
    requires ValidAlphabet(a) && at + PaddedLen(|input|) <= output.Length
    modifies output
    ensures output[..] == Store(old(output[..]), at, Encoded(SymbolTable(a), true, input))
  {
    hide Stored, Symbols, Store, Encoded, SymbolTable, ValidAlphabet;
    ghost var before := output[..];
    var sym := SymbolTable(a);
    if |input| < 16 {
      EncodeScalar(sym, input, output, at);
      return;
    }
    PaddedFits(|input|, 0);
    var source;
    ghost var g;
    source, g := EncodeWithBackend(m, a, input, output, at);
    StoredMeaning(before, output[..], at, sym, input, g);
    EncodedSplit(sym, true, input, source);
    PaddedRest(|input|, g);
    EncodeScalar(sym, input[source..], output, at + source / 3 * 4);
    StoreJoin(before, at, Symbols(sym, input[..source]), Encoded(sym, true, input[source..]));
  }

  lemma PaddedRest(n: nat, g: nat)
    requires 3 * g <= n
    ensures PaddedLen(n) == 4 * g + PaddedLen(n - 3 * g) && 3 * g / 3 * 4 == 4 * g
  {
  }

  /** Encoding without line breaks. Unpadded output encodes whole groups in place and the tail aside. */
  method EncodeUnwrapped(m: Machine, a: EncodeAlphabet, padded: bool, input: seq<byte>, output: array<byte>, at: nat)
    requires ValidAlphabet(a) && at + |Encoded(SymbolTable(a), padded, input)| <= output.Length
    modifies output
    ensures output[..] == Store(old(output[..]), at, Encoded(SymbolTable(a), padded, input))
  {
    hide Symbols, Store, SymbolTable, ValidAlphabet, Pads;
    ghost var before := output[..];
    ghost var sym := SymbolTable(a);
    if padded {
      EncodeToPtr(m, a, input, output, at);
      return;
    }
    var completeInputLen := |input| / 3 * 3;
    var completeOutputLen := completeInputLen / 3 * 4;
    var complete, tail := input[..completeInputLen], input[completeInputLen..];
    EncodedSplit(sym, false, input, completeInputLen);
    WholeEncoded(sym, complete);
    EncodeToPtr(m, a, complete, output, at);
    if tail != [] {
      var encodedTail := new byte[4](_ => 0);
      EncodeToPtr(m, a, tail, encodedTail, 0);
      var tailLen := UnpaddedLen(|tail|);
      assert encodedTail[0..4] == Encoded(sym, true, tail);
      assert encodedTail[..tailLen] == Encoded(sym, false, tail);
      StoreInto(output, at + completeOutputLen, encodedTail[..tailLen]);
      StoreJoin(before, at, Symbols(sym, complete), Encoded(sym, false, tail));
    } else {
      EncodedNothing(sym);
      assert Symbols(sym, complete) + [] == Symbols(sym, complete);
    }
  }

  lemma WholeEncoded(sym: Table, s: seq<byte>)
    requires |s| % 3 == 0
    ensures Encoded(sym, true, s) == Symbols(sym, s) == Encoded(sym, false, s)
  {
    assert Symbols(sym, s) + [] == Symbols(sym, s);
  }
}
