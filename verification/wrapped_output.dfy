/** The column-tracking writer and the encoders that stream into it: line breaks appear in front of the
first byte that needs a new line, so none is left at the end. */
module WrappedOutputs {
  import opened Bytes
  import opened Alphabet
  import opened Quantum
  import opened EncodeSpec
  import opened EncodeWrap

  /** Full lines, each with its newline. */
  function Broken(lines: seq<byte>, width: nat): seq<byte>
    requires width > 0
    decreases |lines|
  {
    if |lines| < width then [] else lines[..width] + [NEWLINE] + Broken(lines[width..], width)
  }

  predicate WholeLines(lines: seq<byte>, width: nat)
    requires width > 0
    decreases |lines|
  {
    lines == [] || (|lines| >= width && WholeLines(lines[width..], width))
  }

  /** Full lines and a last one that is not empty are the wrapped text. */
  lemma {:induction false} BrokenWraps(lines: seq<byte>, line: seq<byte>, width: nat)
    requires width > 0 && WholeLines(lines, width) && 0 < |line| <= width
    ensures Wrapped(lines + line, width) == Broken(lines, width) + line
    decreases |lines|
  {
    if lines == [] {
      assert lines + line == line;
    } else {
      BrokenWraps(lines[width..], line, width);
      assert (lines + line)[width..] == lines[width..] + line && (lines + line)[..width] == lines[..width];
      ConcatAssociates(lines[..width] + [NEWLINE], Broken(lines[width..], width), line);
    }
  }

  /** One more full line. */
  lemma {:induction false} BrokenPush(lines: seq<byte>, line: seq<byte>, width: nat)
    requires width > 0 && WholeLines(lines, width) && |line| == width
    ensures WholeLines(lines + line, width)
    ensures Broken(lines + line, width) == Broken(lines, width) + line + [NEWLINE]
    decreases |lines|
  {
    if lines == [] {
      assert lines + line == line && line[width..] == [] && line[..width] == line;
    } else {
      BrokenPush(lines[width..], line, width);
      assert (lines + line)[width..] == lines[width..] + line && (lines + line)[..width] == lines[..width];
      ConcatAssociates(lines[..width] + [NEWLINE], Broken(lines[width..], width), line);
      ConcatAssociates(lines[..width] + [NEWLINE], Broken(lines[width..], width) + line, [NEWLINE]);
    }
  }

  class WrappedOutput {
    const output: array<byte>
    const width: nat
    const base: nat
    var position: nat
    var column: nat
    ghost const before: seq<byte>
    /** The payload so far: full lines that are closed, and the open line. */
    ghost var lines: seq<byte>
    ghost var line: seq<byte>

    ghost function Payload(): seq<byte>
      reads this
    {
      lines + line
    }

    /** The output holds the closed lines and the open one. */
    ghost predicate Open()
      reads this, output
    {
      && width >= 4 && width % 4 == 0 && |before| == output.Length
      && WholeLines(lines, width) && |line| == column <= width
      && base + |Broken(lines, width)| + column == position <= |before|
      && output[..] == Store(before, base, Broken(lines, width) + line)
    }

    /** Between two writes the open line is not empty, unless nothing is written. */
    ghost predicate Valid()
      reads this, output
    {
      Open() && (line == [] ==> lines == [])
    }

    /** Room for a whole text. */
    ghost predicate Room(all: seq<byte>) {
      width > 0 && base + |Wrapped(all, width)| <= output.Length
    }

    constructor (output: array<byte>, base: nat, width: nat)
      requires base <= output.Length && width >= 4 && width % 4 == 0
      ensures Valid() && Payload() == [] && column == 0
      ensures this.output == output && this.base == base && this.before == output[..] && this.width == width
    {
      this.output, this.base, this.width := output, base, width;
      this.position, this.column := base, 0;
      this.before, this.lines, this.line := output[..], [], [];
      new;
      StoreNothing(before, base);
    }

    /** What is written is the wrapped payload. */
    lemma Wraps()
      requires Valid()
      ensures base + |Wrapped(Payload(), width)| <= |before|
      ensures output[..] == Store(before, base, Wrapped(Payload(), width))
    {
      if line == [] {
        assert Payload() == [] && Wrapped(Payload(), width) == [];
        assert Broken([], width) + [] == [];
      } else {
        BrokenWraps(lines, line, width);
      }
    }

    /** The part of a text that fits: `x` behind the payload, on the open line. */
    lemma Fits(x: seq<byte>, all: seq<byte>)
      requires Open() && x != [] && Payload() + x <= all && Room(all) && column + |x| <= width
      ensures position + |x| <= output.Length
    {
      ConcatAssociates(lines, line, x);
      BrokenWraps(lines, line + x, width);
      WrappedGrows(Payload() + x, all[|Payload() + x|..], width);
      assert all == Payload() + x + all[|Payload() + x|..];
    }

    /** Closes a full line; more payload must follow. */
    method StartLine(ghost x: seq<byte>, ghost all: seq<byte>)
      requires Valid() && x != [] && |x| <= 4 && Payload() + x <= all && Room(all) && column % 4 == 0
      modifies this`position, this`column, this`lines, this`line, output
      ensures Open() && Payload() == old(Payload()) && column % 4 == 0 && column < width
    {
      if column == width {
        ghost var text := Broken(lines, width) + line;
        BrokenPush(lines, line, width);
        NewlineFits(x, all);
        output[position] := NEWLINE;
        PutByte(before, base, text, NEWLINE, old(output[..]), output[..]);
        position, column := position + 1, 0;
        lines, line := lines + line, [];
        assert Broken(lines, width) + [] == text + [NEWLINE];
        assert lines + [] == old(lines) + old(line);
      }
    }

    lemma NewlineFits(x: seq<byte>, all: seq<byte>)
      requires Open() && column == width && x != [] && |x| <= 4 && Payload() + x <= all && Room(all)
      ensures position + 1 + |x| <= output.Length
    {
      BrokenPush(lines, line, width);
      BrokenWraps(lines + line, x, width);
      WrappedGrows(Payload() + x, all[|Payload() + x|..], width);
      assert all == Payload() + x + all[|Payload() + x|..];
    }

    /** Writes on the open line. */
    method Put(x: seq<byte>, ghost all: seq<byte>)
      requires Open() && x != [] && Payload() + x <= all && Room(all) && column + |x| <= width
      modifies this`position, this`column, this`line, output
      ensures Valid() && Payload() == old(Payload()) + x && column == old(column) + |x|
    {
      Fits(x, all);
      ghost var text := Broken(lines, width) + line;
      StoreInto(output, position, x);
      StoreJoin(before, base, text, x);
      ConcatAssociates(Broken(lines, width), line, x);
      ConcatAssociates(lines, line, x);
      position, column := position + |x|, column + |x|;
      line := line + x;
    }

    method WriteQuad(x: seq<byte>, ghost all: seq<byte>)
      requires Valid() && |x| == 4 && Payload() + x <= all && Room(all) && column % 4 == 0
      modifies this`position, this`column, this`lines, this`line, output
      ensures Valid() && Payload() == old(Payload()) + x && column % 4 == 0
    {
      hide Wrapped, Broken, WholeLines, Store;
      StartLine(x, all);
      Put(x, all);
    }

    /** Sixteen bytes at once where the line has room, else in quads. */
    method Write16(block: seq<byte>, ghost all: seq<byte>)
      requires Valid() && |block| == 16 && Payload() + block <= all && Room(all) && column % 4 == 0
      modifies this`position, this`column, this`lines, this`line, output
      ensures Valid() && Payload() == old(Payload()) + block && column % 4 == 0
    {
      hide Wrapped, Broken, WholeLines, Store;
      ghost var start := Payload();
      PrefixOf(start, block, all, 4);
      StartLine(block[..4], all);
      if width - column >= 16 {
        Put(block, all);
        return;
      }
      PutOpenQuads(block, all);
    }

    /** The quads of a block whose first may still have to be put on an open line. */
    method PutOpenQuads(block: seq<byte>, ghost all: seq<byte>)
      requires Open() && column < width && |block| % 4 == 0 && block != [] && column % 4 == 0
      requires Payload() + block <= all && Room(all)
      modifies this`position, this`column, this`lines, this`line, output
      ensures Valid() && Payload() == old(Payload()) + block && column % 4 == 0
    {
      hide Wrapped, Broken, WholeLines, Store;
      ghost var start := Payload();
      PrefixOf(start, block, all, 4);
      Put(block[..4], all);
      WriteQuads(block[4..], start + block[..4], all);
      assert block == block[..4] + block[4..];
      ConcatAssociates(start, block[..4], block[4..]);
    }

    method WriteQuads(x: seq<byte>, ghost start: seq<byte>, ghost all: seq<byte>)
      requires Valid() && |x| % 4 == 0 && Payload() == start && start + x <= all && Room(all) && column % 4 == 0
      modifies this`position, this`column, this`lines, this`line, output
      ensures Valid() && Payload() == start + x && column % 4 == 0
    {
      hide Wrapped, Broken, WholeLines, Store;
      var offset := 0;
      assert start + x[..0] == start;
      while offset < |x|
        invariant 0 <= offset <= |x| && offset % 4 == 0
        invariant Valid() && Payload() == start + x[..offset] && column % 4 == 0
      {
        assert x[..offset + 4] == x[..offset] + x[offset..offset + 4];
        ConcatAssociates(start, x[..offset], x[offset..offset + 4]);
        PrefixOf(start, x, all, offset + 4);
        WriteQuad(x[offset..offset + 4], all);
        offset := offset + 4;
      }
      assert x[..offset] == x;
    }

    /** Any number of bytes: whole quads, then a tail that fits the line. */
    method WriteBytes(x: seq<byte>, ghost all: seq<byte>)
      requires Valid() && Payload() + x <= all && Room(all) && column % 4 == 0
      modifies this`position, this`column, this`lines, this`line, output
      ensures Valid() && Payload() == old(Payload()) + x
      ensures |x| % 4 == 0 ==> column % 4 == 0
    {
      hide Wrapped, Broken, WholeLines, Store;
      ghost var start := Payload();
      var complete := |x| / 4 * 4;
      PrefixOf(start, x, all, complete);
      WriteQuads(x[..complete], start, all);
      if complete != |x| {
        var tail := x[complete..];
        assert x == x[..complete] + tail;
        ConcatAssociates(start, x[..complete], tail);
        StartLine(tail, all);
        Put(tail, all);
      } else {
        assert x[..complete] == x;
      }
    }
  }

  lemma PrefixOf(start: seq<byte>, x: seq<byte>, all: seq<byte>, k: nat)
    requires start + x <= all && k <= |x|
    ensures start + x[..k] <= all
  {
    assert x == x[..k] + x[k..];
    ConcatAssociates(start, x[..k], x[k..]);
  }

  lemma PutByte(before: seq<byte>, at: nat, text: seq<byte>, b: byte, was: seq<byte>, now: seq<byte>)
    requires at + |text| < |before| && was == Store(before, at, text)
    requires now == was[at + |text| := b]
    ensures now == Store(before, at, text + [b])
  {
    StoreJoin(before, at, text, [b]);
  }
}
