/** The 128-bit Arm encoder: loads that take groups apart by byte, table lookups, and stores that
interleave the four symbols of each group again. The wrapped form interleaves with zips. */
module EncodeNeon {
  import opened Bytes
  import opened EncodeSpec
  import opened EncodeKernels

  /** One register of a structured load: byte `j` of every group. */
  function ByteOfGroups(block: seq<byte>, j: nat): (v: seq<byte>)
    requires |block| % 3 == 0 && j < 3
    ensures |v| == |block| / 3
  {
    seq(|block| / 3, k requires 0 <= k < |block| / 3 => block[3 * k + j])
  }

  /** Shift left and insert: the low `n` bits of the destination survive. */
  function ShiftLeftInsert4(d: byte, s: byte): byte { (s << 4) | (d & 0x0f) }
  function ShiftLeftInsert2(d: byte, s: byte): byte { (s << 2) | (d & 0x03) }

  /** The four lanes that a group of bytes becomes. */
  function ValueLane(a: byte, b: byte, c: byte, j: nat): byte
    requires j < 4
  {
    if j == 0 then a >> 2
    else if j == 1 then ShiftLeftInsert4(b >> 4, a) & 0x3f
    else if j == 2 then ShiftLeftInsert2(c >> 6, b) & 0x3f
    else c & 0x3f
  }

  lemma ValueLanes(a: byte, b: byte, c: byte)
    ensures ValueLane(a, b, c, 0) == SextetA(a) && ValueLane(a, b, c, 1) == SextetB(a, b)
    ensures ValueLane(a, b, c, 2) == SextetC(b, c) && ValueLane(a, b, c, 3) == SextetD(c)
  {
  }

  /** One of the four result registers: value `j` of every group, looked up. */
  function SymbolLanes(sym: Table, block: seq<byte>, j: nat): (v: seq<byte>)
    requires |block| % 3 == 0 && j < 4
    ensures |v| == |block| / 3
  {
    var first, second, third := ByteOfGroups(block, 0), ByteOfGroups(block, 1), ByteOfGroups(block, 2);
    seq(|first|, k requires 0 <= k < |first| => sym(ValueLane(first[k], second[k], third[k], j)))
  }

  /** A structured store of four registers. */
  function Interleave(p: seq<byte>, q: seq<byte>, r: seq<byte>, s: seq<byte>): (m: seq<byte>)
    requires |p| == |q| == |r| == |s|
    ensures |m| == 4 * |p|
  {
    seq(4 * |p|, k requires 0 <= k < 4 * |p| =>
      if k % 4 == 0 then p[k / 4] else if k % 4 == 1 then q[k / 4] else if k % 4 == 2 then r[k / 4] else s[k / 4])
  }

  function Encoding(sym: Table, block: seq<byte>): (m: seq<byte>)
    requires |block| % 3 == 0
    ensures |m| == |block| / 3 * 4
  {
    Interleave(SymbolLanes(sym, block, 0), SymbolLanes(sym, block, 1),
               SymbolLanes(sym, block, 2), SymbolLanes(sym, block, 3))
  }

  /** Taking groups apart, looking values up and interleaving is the encoding of the block. */
  lemma {:induction false} EncodingIsSymbols(sym: Table, block: seq<byte>)
    requires |block| % 3 == 0
    ensures Encoding(sym, block) == Symbols(sym, block)
  {
    hide SextetA, SextetB, SextetC, SextetD, ValueLane, Values;
    var m, values := Encoding(sym, block), Values(block);
    assert |m| == |values|;
    forall k | 0 <= k < |m| ensures m[k] == Symbols(sym, block)[k] {
      var g, j := k / 4, k % 4;
      ValuesAt(block, g);
      ValueLanes(block[3 * g], block[3 * g + 1], block[3 * g + 2]);
      assert values[k] == values[4 * g..4 * g + 4][j];
      assert m[k] == SymbolLanes(sym, block, j)[g];
    }
  }

  // ----- zips -----

  /** The two halves of the byte-wise zip of two registers. */
  function ZipLow(p: seq<byte>, q: seq<byte>): (m: seq<byte>)
    requires |p| == |q| && |p| % 2 == 0
    ensures |m| == |p|
  {
    seq(|p|, k requires 0 <= k < |p| => if k % 2 == 0 then p[k / 2] else q[k / 2])
  }

  function ZipHigh(p: seq<byte>, q: seq<byte>): (m: seq<byte>)
    requires |p| == |q| && |p| % 2 == 0
    ensures |m| == |p|
  {
    seq(|p|, k requires 0 <= k < |p| =>
      if k % 2 == 0 then p[(|p| + k) / 2] else q[(|p| + k) / 2])
  }

  /** The zip of 16-bit units, both halves together. */
  function ZipPairs(x: seq<byte>, y: seq<byte>): (m: seq<byte>)
    requires |x| == |y| && |x| % 2 == 0
    ensures |m| == 2 * |x|
  {
    seq(2 * |x|, k requires 0 <= k < 2 * |x| =>
      if k % 4 < 2 then x[k / 4 * 2 + k % 4] else y[k / 4 * 2 + k % 4 - 2])
  }

  lemma ZipsAt(p: seq<byte>, q: seq<byte>, h: nat, u: nat, b: nat)
    requires |p| == |q| == 2 * h && u < h && b < 2
    ensures ZipLow(p, q)[2 * u + b] == if b == 0 then p[u] else q[u]
    ensures ZipHigh(p, q)[2 * u + b] == if b == 0 then p[h + u] else q[h + u]
  {
    assert (2 * u + b) / 2 == u && (2 * u + b) % 2 == b;
    assert (2 * h + (2 * u + b)) / 2 == h + u;
  }

  lemma PairsAt(x: seq<byte>, y: seq<byte>, u: nat, j: nat)
    requires |x| == |y| && |x| % 2 == 0 && 2 * u < |x| && j < 4
    ensures ZipPairs(x, y)[4 * u + j] == if j < 2 then x[2 * u + j] else y[2 * u + j - 2]
  {
    assert (4 * u + j) / 4 == u && (4 * u + j) % 4 == j;
  }

  lemma InterleaveAt(p: seq<byte>, q: seq<byte>, r: seq<byte>, s: seq<byte>, u: nat, j: nat)
    requires |p| == |q| == |r| == |s| && u < |p| && j < 4
    ensures Interleave(p, q, r, s)[4 * u + j] ==
              if j == 0 then p[u] else if j == 1 then q[u] else if j == 2 then r[u] else s[u]
  {
    assert (4 * u + j) / 4 == u && (4 * u + j) % 4 == j;
  }

  /** Zipping by bytes and then by pairs interleaves: the wrapped form writes what the store writes. */
  lemma ZipsInterleave(p: seq<byte>, q: seq<byte>, r: seq<byte>, s: seq<byte>)
    requires |p| == |q| == |r| == |s| && |p| % 2 == 0
    ensures ZipPairs(ZipLow(p, q), ZipLow(r, s)) + ZipPairs(ZipHigh(p, q), ZipHigh(r, s)) == Interleave(p, q, r, s)
  {
    hide ZipLow, ZipHigh, ZipPairs, Interleave;
    var h := |p| / 2;
    var low, high := ZipPairs(ZipLow(p, q), ZipLow(r, s)), ZipPairs(ZipHigh(p, q), ZipHigh(r, s));
    var m := Interleave(p, q, r, s);
    forall k | 0 <= k < 4 * h ensures low[k] == m[k] && high[k] == m[4 * h + k] {
      ZippedAt(p, q, r, s, h, k / 4, k % 4);
    }
  }

  lemma ZippedAt(p: seq<byte>, q: seq<byte>, r: seq<byte>, s: seq<byte>, h: nat, u: nat, j: nat)
    requires |p| == |q| == |r| == |s| == 2 * h && u < h && j < 4
    ensures ZipPairs(ZipLow(p, q), ZipLow(r, s))[4 * u + j] == Interleave(p, q, r, s)[4 * u + j]
    ensures ZipPairs(ZipHigh(p, q), ZipHigh(r, s))[4 * u + j] == Interleave(p, q, r, s)[4 * h + (4 * u + j)]
  {
    hide ZipLow, ZipHigh, ZipPairs, Interleave;
    PairsAt(ZipLow(p, q), ZipLow(r, s), u, j);
    PairsAt(ZipHigh(p, q), ZipHigh(r, s), u, j);
    ZipsAt(p, q, h, u, j % 2);
    ZipsAt(r, s, h, u, j % 2);
    InterleaveAt(p, q, r, s, u, j);
    InterleaveAt(p, q, r, s, h + u, j);
    assert 4 * (h + u) + j == 4 * h + (4 * u + j);
  }

  // ----- the encoder -----

  /** Encodes and stores one block of `n` bytes. */
  method EncodeBlock(sym: Table, input: seq<byte>, source: nat, n: nat, output: array<byte>, at: nat, destination: nat,
                     ghost before: seq<byte>, ghost g: nat)
    requires n % 3 == 0 && source == 3 * g && destination == 4 * g && source + n <= |input|
    requires Stored(before, output[..], at, sym, input, g) && at + |input| / 3 * 4 <= output.Length == |before|
    modifies output
    ensures Stored(before, output[..], at, sym, input, g + n / 3)
  {
    hide Stored, Symbols, Encoding;
    var block := input[source..source + n];
    EncodingIsSymbols(sym, block);
    GroupsFit(|input|, g + n / 3);
    PutSymbols(sym, input, output, at, destination, Encoding(sym, block), before, g, n / 3);
  }

  method EncodeStructured(sym: Table, input: seq<byte>, output: array<byte>, at: nat)
    returns (source: nat, ghost g: nat)
    requires at + |input| / 3 * 4 <= output.Length
    modifies output
    ensures source == 3 * g && Stored(old(output[..]), output[..], at, sym, input, g)
    ensures |input| - source < 24
  {
    hide *;
    ghost var before := output[..];
    var destination := 0;
    source, g := 0, 0;
    StoredNothing(before, at, sym, input);
    while source + 192 <= |input|
      invariant source == 3 * g <= |input| && destination == 4 * g && Stored(before, output[..], at, sym, input, g)
    {
      EncodeBlock(sym, input, source, 48, output, at, destination, before, g);
      EncodeBlock(sym, input, source + 48, 48, output, at, destination + 64, before, g + 16);
      EncodeBlock(sym, input, source + 96, 48, output, at, destination + 128, before, g + 32);
      EncodeBlock(sym, input, source + 144, 48, output, at, destination + 192, before, g + 48);
      source, destination, g := source + 192, destination + 256, g + 64;
    }
    while source + 48 <= |input|
      invariant source == 3 * g <= |input| && destination == 4 * g && Stored(before, output[..], at, sym, input, g)
    {
      EncodeBlock(sym, input, source, 48, output, at, destination, before, g);
      source, destination, g := source + 48, destination + 64, g + 16;
    }
    if source + 24 <= |input| {
      EncodeBlock(sym, input, source, 24, output, at, destination, before, g);
      source, g := source + 24, g + 8;
    }
  }

  /** The symbols of a block as the wrapped form assembles them. */
  method ZippedBlock(sym: Table, input: seq<byte>, source: nat, n: nat) returns (v: seq<byte>)
    requires n % 6 == 0 && source + n <= |input|
    ensures |v| == n / 3 * 4 && v == Symbols(sym, input[source..source + n])
  {
    hide ZipLow, ZipHigh, ZipPairs, SymbolLanes, Interleave;
    var block := input[source..source + n];
    var p, q := SymbolLanes(sym, block, 0), SymbolLanes(sym, block, 1);
    var r, s := SymbolLanes(sym, block, 2), SymbolLanes(sym, block, 3);
    v := ZipPairs(ZipLow(p, q), ZipLow(r, s)) + ZipPairs(ZipHigh(p, q), ZipHigh(r, s));
    ZipsInterleave(p, q, r, s);
    EncodingIsSymbols(sym, block);
  }
}
