/** Line breaks by in-place expansion: lines move to their places from the end, which gives the wrapped text. */
module EncodeWrap {
  import opened Bytes
  import opened Alphabet
  import opened Quantum
  import opened Division
  import opened EncodeSpec

  // ----- laws of wrapping -----

  /** A text splits behind any number of full lines. */
  lemma {:induction false} WrappedSplit(s: seq<byte>, k: nat, width: nat)
    requires width > 0 && 0 < k < |s| && k % width == 0
    ensures Wrapped(s, width) == Wrapped(s[..k], width) + [NEWLINE] + Wrapped(s[k..], width)
    decreases |s|
  {
    if k < width {
      SmallRemainder(k, width);
      assert false;
    }
    if k > width {
      ModMinus(k, width);
      WrappedSplit(s[width..], k - width, width);
      assert s[width..][..k - width] == s[..k][width..] && s[width..][k - width..] == s[k..];
      assert s[..k][..width] == s[..width];
      var line, head := s[..width] + [NEWLINE], Wrapped(s[..k][width..], width);
      var tail := [NEWLINE] + Wrapped(s[k..], width);
      assert Wrapped(s, width) == line + (Wrapped(s[..k][width..], width) + [NEWLINE] + Wrapped(s[k..], width));
      assert Wrapped(s[..k], width) == line + head;
      assert line + (head + [NEWLINE] + Wrapped(s[k..], width)) == line + head + [NEWLINE] + Wrapped(s[k..], width);
    }
  }

  lemma {:induction false} WrappedGrows(s: seq<byte>, u: seq<byte>, width: nat)
    requires width > 0
    ensures |Wrapped(s, width)| <= |Wrapped(s + u, width)| && |s| <= |Wrapped(s, width)|
    decreases |s| + |u|
  {
    if |s| <= width {
      if |s + u| > width {
        WrappedGrows((s + u)[width..], [], width);
      }
    } else {
      assert (s + u)[width..] == s[width..] + u;
      WrappedGrows(s[width..], u, width);
    }
  }

  // ----- backwards, in place -----

  /** What stands behind the first `k` bytes of a wrapped text. */
  function WrappedRest(s: seq<byte>, k: nat, width: nat): seq<byte>
    requires width > 0 && k <= |s|
  {
    if k == |s| then [] else if k == 0 then Wrapped(s, width) else [NEWLINE] + Wrapped(s[k..], width)
  }

  /** The length of the line that ends at `source`. */
  function LineLen(source: nat, width: nat): nat
    requires width > 0
  {
    if source % width == 0 then width else source % width
  }

  /** A position between two lines, or the end of the text. */
  predicate AtLineStart(s: seq<byte>, k: nat, width: nat)
    requires width > 0
  {
    k <= |s| && (k == |s| || k % width == 0)
  }

  /** One line up: its bytes, and the newline in front of it unless it is the first. */
  lemma RestStep(s: seq<byte>, source: nat, line: nat, width: nat)
    requires width > 0 && 0 < source && AtLineStart(s, source, width) && line == LineLen(source, width)
    ensures 0 < line <= source && AtLineStart(s, source - line, width)
    ensures var k := source - line;
            && Wrapped(s[k..], width) == s[k..source] + WrappedRest(s, source, width)
            && |Wrapped(s, width)| == (if k == 0 then 0 else |Wrapped(s[..k], width)| + 1) + |Wrapped(s[k..], width)|
            && k <= if k == 0 then 0 else |Wrapped(s[..k], width)|
  {
    LineLength(source, line, width);
    var k := source - line;
    if source == |s| {
      assert s[k..source] == s[k..] && s[k..] + [] == s[k..];
    } else {
      assert s[k..][..width] == s[k..source] && s[k..][width..] == s[source..];
      ConcatAssociates(s[k..source], [NEWLINE], Wrapped(s[source..], width));
    }
    if k > 0 {
      WrappedSplit(s, k, width);
      WrappedGrows(s[..k], [], width);
    } else {
      assert s[0..] == s;
    }
  }

  lemma LineLength(source: nat, line: nat, width: nat)
    requires width > 0 && source > 0
    requires line == if source % width == 0 then width else source % width
    ensures line <= source && line <= width && (source - line) % width == 0
  {
    var q, r := source / width, source % width;
    assert source == q * width + r;
    if r == 0 {
      if source < width {
        SmallRemainder(source, width);
        assert false;
      }
      ModMinus(source, width);
    } else {
      MulAtMost(0, q, width);
      QuotientUnique(source - r, width, q, 0);
    }
  }

  /** What holds between two lines: the text behind `source` is in place, the bytes in front are data. */
  ghost predicate Expanding(before: seq<byte>, now: seq<byte>, data: seq<byte>, width: nat, source: nat,
                            destination: nat)
  {
    && width > 0 && AtLineStart(data, source, width) && |data| <= |before| == |now|
    && var text := |Wrapped(data, width)|;
       && source <= destination <= text <= |before|
       && now[..source] == data[..source]
       && now[destination..text] == WrappedRest(data, source, width)
       && now[text..] == before[text..]
  }

  /** Moves one line to its place and puts the newline in front of it. */
  method WrapLine(output: array<byte>, width: nat, source: nat, destination: nat, ghost before: seq<byte>,
                  ghost data: seq<byte>)
    returns (source': nat, destination': nat)
    requires Expanding(before, output[..], data, width, source, destination) && source > 0
    modifies output
    ensures source' < source && Expanding(before, output[..], data, width, source', destination')
    ensures source' == 0 ==> destination' == 0
  {
    hide Wrapped, LineLen, AtLineStart, WrappedRest, Store;
    var lineLen := LineLen(source, width);
    ghost var was := output[..];
    InFront(before, was, data, width, source, destination);
    RestStep(data, source, lineLen, width);
    RestLength(data, source, width, destination, was);
    var line := output[source - lineLen..source];
    source', destination' := source - lineLen, destination - lineLen;
    StoreInto(output, destination', line);
    ghost var moved := output[..];
    if source' != 0 {
      destination' := destination' - 1;
      output[destination'] := NEWLINE;
    }
    LineMoved(before, was, moved, output[..], data, width, source, destination, lineLen);
  }

  lemma InFront(before: seq<byte>, was: seq<byte>, data: seq<byte>, width: nat, source: nat, destination: nat)
    requires Expanding(before, was, data, width, source, destination)
    ensures source <= |data| && source <= destination <= |was| == |before| && was[..source] == data[..source]
  {
  }

  lemma LineMoved(before: seq<byte>, was: seq<byte>, moved: seq<byte>, now: seq<byte>, data: seq<byte>, width: nat,
                  source: nat, destination: nat, line: nat)
    requires Expanding(before, was, data, width, source, destination) && source > 0 && line == LineLen(source, width)
    requires line <= source <= destination <= |was|
    requires moved == Store(was, destination - line, was[source - line..source])
    requires now == if source == line then moved else if destination - line - 1 < 0 then moved
                    else moved[destination - line - 1 := NEWLINE]
    ensures source == line ==> Expanding(before, now, data, width, 0, 0) && destination == line
    ensures source > line ==>
              destination > line && Expanding(before, now, data, width, source - line, destination - line - 1)
  {
    hide Wrapped, LineLen, Store;
    RestStep(data, source, line, width);
    RestLength(data, source, width, destination, was);
    var k, d, text := source - line, destination - line, |Wrapped(data, width)|;
    assert was[k..source] == was[..source][k..] == data[k..source];
    MovedLine(was, moved, d, was[k..source], k, text);
    assert moved[d..text] == data[k..source] + WrappedRest(data, source, width);
    hide AtLineStart;
    if k == 0 {
      assert data[0..] == data;
    } else {
      assert k < d;
      assert WrappedRest(data, k, width) == [NEWLINE] + Wrapped(data[k..], width);
      NewlineInFront(moved, d, text);
      assert moved[..k] == was[..k] == was[..source][..k] == data[..k];
      assert now[..k] == now[..d - 1][..k] == moved[..d - 1][..k] == moved[..k];
    }
  }

  lemma NewlineInFront(m: seq<byte>, d: nat, text: nat)
    requires 0 < d <= text <= |m|
    ensures var now := m[d - 1 := NEWLINE];
            && now[d - 1..text] == [NEWLINE] + m[d..text] && now[text..] == m[text..] && now[..d - 1] == m[..d - 1]
  {
  }

  lemma RestLength(data: seq<byte>, source: nat, width: nat, destination: nat, now: seq<byte>)
    requires width > 0 && source <= |data| && destination <= |Wrapped(data, width)| <= |now|
    requires now[destination..|Wrapped(data, width)|] == WrappedRest(data, source, width)
    ensures destination + |WrappedRest(data, source, width)| == |Wrapped(data, width)|
  {
  }

  /** Expands the first `dataLen` bytes of the output into their lines. */
  method WrapEncoded(output: array<byte>, dataLen: nat, width: nat)
    requires width > 0 && dataLen <= output.Length
    requires |Wrapped(output[..dataLen], width)| <= output.Length
    modifies output
    ensures output[..] == Store(old(output[..]), 0, Wrapped(old(output[..dataLen]), width))
  {
    ghost var before, data := output[..], output[..dataLen];
    if dataLen <= width {
      ShortText(data, width);
      return;
    }
    WrappedLen(data, width);
    WrappedGrows(data, [], width);
    var source: nat := dataLen;
    var destination: nat := dataLen + (dataLen - 1) / width;
    hide Wrapped;
    assert Expanding(before, output[..], data, width, source, destination);
    while source != 0
      invariant Expanding(before, output[..], data, width, source, destination)
      invariant source == 0 ==> destination == 0
      decreases source
    {
      source, destination := WrapLine(output, width, source, destination, before, data);
    }
    Expanded(before, output[..], data, width);
  }

  lemma Expanded(before: seq<byte>, now: seq<byte>, data: seq<byte>, width: nat)
    requires data != [] && Expanding(before, now, data, width, 0, 0)
    ensures now == Store(before, 0, Wrapped(data, width))
  {
    hide Wrapped;
    var text := Wrapped(data, width);
    assert now == now[0..|text|] + now[|text|..];
  }

  lemma ShortText(s: seq<byte>, width: nat)
    requires 0 < width && |s| <= width
    ensures Wrapped(s, width) == s
  {
  }

  /** Moving a line leaves the bytes in front of it and behind its end. */
  lemma MovedLine(was: seq<byte>, now: seq<byte>, destination: nat, line: seq<byte>, k: nat, end: nat)
    requires k <= destination && destination + |line| <= end <= |was|
    requires now == Store(was, destination, line)
    ensures now[..k] == was[..k] && now[end..] == was[end..]
    ensures now[destination..end] == line + was[destination + |line|..end]
  {
  }
}
