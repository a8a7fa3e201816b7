/** Cutting a message into blocks: the fold that consumes whole blocks, and the buffer that keeps what is
left between updates. */
module MurmurBlocks {
  import opened Bytes
  import opened Division
  import opened Quantum

  /** Mixes block after block. */
  function Fold<S>(step: (S, seq<byte>) -> S, size: nat, s: S, blocks: seq<byte>): S
    requires size > 0
    decreases |blocks|
  {
    if |blocks| < size then s else Fold(step, size, step(s, blocks[..size]), blocks[size..])
  }

  /** Mixing two runs of blocks is mixing the whole. */
  lemma {:induction false} FoldConcat<S>(step: (S, seq<byte>) -> S, size: nat, s: S, a: seq<byte>, b: seq<byte>)
    requires size > 0 && |a| % size == 0
    ensures Fold(step, size, s, a + b) == Fold(step, size, Fold(step, size, s, a), b)
    decreases |a|
  {
    if |a| < size {
      SmallRemainder(|a|, size);
      assert a + b == b;
    } else {
      ModMinus(|a|, size);
      assert (a + b)[..size] == a[..size] && (a + b)[size..] == a[size..] + b;
      FoldConcat(step, size, step(s, a[..size]), a[size..], b);
    }
  }

  /** A step that tells states apart, and one that tells blocks apart. */
  ghost predicate TellsStates<S(!new)>(step: (S, seq<byte>) -> S, size: nat) {
    forall s, t, b :: |b| == size && step(s, b) == step(t, b) ==> s == t
  }

  ghost predicate TellsBlocks<S(!new)>(step: (S, seq<byte>) -> S, size: nat) {
    forall s, b, c :: |b| == |c| == size && step(s, b) == step(s, c) ==> b == c
  }

  lemma {:induction false} FoldTellsStates<S(!new)>(step: (S, seq<byte>) -> S, size: nat, s: S, t: S, blocks: seq<byte>)
    requires size > 0 && TellsStates(step, size) && Fold(step, size, s, blocks) == Fold(step, size, t, blocks)
    ensures s == t
    decreases |blocks|
  {
    if |blocks| >= size {
      var block := blocks[..size];
      FoldTellsStates(step, size, step(s, block), step(t, block), blocks[size..]);
      assert |block| == size && step(s, block) == step(t, block);
    }
  }

  /** Messages of one length that agree outside the `size` bytes from `at` on. */
  predicate DifferAt(m: seq<byte>, n: seq<byte>, at: nat, size: nat) {
    |m| == |n| && at <= |m| && m[..at] == n[..at] && (at + size <= |m| ==> m[at + size..] == n[at + size..])
  }

  lemma SameLength(m: seq<byte>, n: seq<byte>, at: nat, size: nat)
    requires DifferAt(m, n, at, size)
    ensures |m| == |n|
  {
  }

  /** A fold over such a step tells two runs of blocks apart that differ in one block only. */
  lemma {:induction false} FoldTellsBlocks<S(!new)>(step: (S, seq<byte>) -> S, size: nat, s: S, a: seq<byte>,
                                                    b: seq<byte>, at: nat)
    requires size > 0 && TellsStates(step, size) && TellsBlocks(step, size)
    requires at % size == 0 && at + size <= |a| && DifferAt(a, b, at, size)
    requires Fold(step, size, s, a) == Fold(step, size, s, b)
    ensures a == b
  {
    var before := Fold(step, size, s, a[..at]);
    var x, y, rest := a[at..at + size], b[at..at + size], a[at + size..];
    assert a == a[..at] + (x + rest) && b == a[..at] + (y + rest);
    FoldConcat(step, size, s, a[..at], x + rest);
    FoldConcat(step, size, s, a[..at], y + rest);
    assert (x + rest)[..size] == x && (x + rest)[size..] == rest;
    assert (y + rest)[..size] == y && (y + rest)[size..] == rest;
    FoldTellsStates(step, size, step(before, x), step(before, y), rest);
    assert |x| == |y| == size && step(before, x) == step(before, y);
  }

  lemma ModSum(a: nat, b: nat, m: nat)
    requires m > 0 && a % m == 0 && b % m == 0
    ensures (a + b) % m == 0
  {
    assert a == a / m * m && b == b / m * m;
    assert a + b == (a / m + b / m) * m;
    QuotientUnique(a + b, m, a / m + b / m, 0);
  }

  /** The length of the whole blocks at the start of `n` bytes. */
  function BodyLen(n: nat, size: nat): (k: nat)
    requires size > 0
    ensures k <= n && n - k < size && k % size == 0
  {
    var q := n / size;
    QuotientUnique(q * size, size, q, 0);
    q * size
  }

  /** Whole blocks and what follows them. */
  function Split(input: seq<byte>, size: nat): (r: (seq<byte>, seq<byte>))
    requires size > 0
    ensures r.0 + r.1 == input && |r.0| % size == 0 && |r.1| < size
  {
    (input[..BodyLen(|input|, size)], input[BodyLen(|input|, size)..])
  }

  /** There is only one way to cut a message into whole blocks and a rest. */
  lemma BodyUnique(n: nat, k: nat, size: nat)
    requires size > 0 && k <= n && k % size == 0 && n - k < size
    ensures k == BodyLen(n, size)
  {
    assert k == k / size * size;
    assert n == k / size * size + (n - k);
    QuotientUnique(n, size, k / size, n - k);
  }

  class BlockBuffer {
    const size: nat
    const bytes: array<byte>
    var len: nat

    ghost predicate Valid()
      reads this
    {
      bytes.Length == size && len < size
    }

    ghost function Remaining(): (r: seq<byte>)
      requires Valid()
      reads this, bytes
      ensures |r| == len
    {
      bytes[..len]
    }

    constructor (size: nat)
      requires size > 0
      ensures Valid() && Remaining() == [] && this.size == size && fresh(bytes)
    {
      this.size := size;
      bytes := new byte[size](_ => 0);
      len := 0;
    }

    /** Completes the buffered block as far as the input reaches. */
    method Fill(input: seq<byte>) returns (rest: seq<byte>, filled: bool)
      requires Valid()
      modifies this, bytes
      ensures filled ==> len == size == bytes.Length && bytes[..] + rest == old(Remaining()) + input
      ensures !filled ==> Valid() && rest == [] && Remaining() == old(Remaining()) + input
    {
      ghost var start := Remaining();
      var needed := size - len;
      var copied := if needed < |input| then needed else |input|;
      StoreInto(bytes, len, input[..copied]);
      Appended(start, input[..copied], old(bytes[..]), bytes[..]);
      len := len + copied;
      rest := input[copied..];
      filled := len == size;
      assert input == input[..copied] + rest;
      if filled {
        assert bytes[..] == bytes[..len] == start + input[..copied];
        assert start + input[..copied] + rest == start + input;
      } else {
        assert input[..copied] == input;
      }
    }

    /** Takes input and gives back, in order, the runs of whole blocks that are complete now: the buffered
        block if the input fills it, then the whole blocks of the rest. */
    method Consume(input: seq<byte>) returns (runs: seq<seq<byte>>)
      requires Valid()
      modifies this, bytes
      ensures Valid() && |runs| <= 2
      ensures forall k :: 0 <= k < |runs| ==> runs[k] != [] && |runs[k]| % size == 0
      ensures Flatten(runs) + Remaining() == old(Remaining()) + input
    {
      hide Flatten, Split;
      ghost var all := Remaining() + input;
      var rest := input;
      runs := [];
      FlattenNothing();
      if len != 0 {
        var filled;
        rest, filled := Fill(input);
        if !filled {
          return;
        }
        runs := [bytes[..]];
        FlattenOne(bytes[..]);
        SelfRemainder(size);
        len := 0;
      }
      ghost var first := Flatten(runs);
      assert first + rest == all;
      var (blocks, remaining) := Split(rest, size);
      if blocks != [] {
        FlattenPush(runs, blocks);
        runs := runs + [blocks];
      }
      assert Flatten(runs) == first + blocks;
      StoreInto(bytes, 0, remaining);
      len := |remaining|;
      assert Remaining() == bytes[0..|remaining|] == remaining;
      ConcatAssociates(first, blocks, remaining);
    }
  }

  lemma Appended(start: seq<byte>, x: seq<byte>, was: seq<byte>, now: seq<byte>)
    requires |start| + |x| <= |was| && was[..|start|] == start && now == Store(was, |start|, x)
    ensures now[..|start| + |x|] == start + x
  {
  }

  lemma FlattenNothing()
    ensures Flatten([]) == []
  {
  }

  lemma FlattenOne(x: seq<byte>)
    ensures Flatten([x]) == x
  {
    assert [x][1..] == [] && x + [] == x;
  }

  lemma SelfRemainder(n: nat)
    requires n > 0
    ensures n % n == 0
  {
    QuotientUnique(n, n, 1, 0);
  }

  lemma {:induction false} FlattenPush(runs: seq<seq<byte>>, x: seq<byte>)
    ensures Flatten(runs + [x]) == Flatten(runs) + x
  {
    if runs == [] {
      assert [x][1..] == [] && Flatten([x]) == x + [];
      assert runs + [x] == [x];
    } else {
      assert (runs + [x])[1..] == runs[1..] + [x];
      FlattenPush(runs[1..], x);
    }
  }

  lemma {:induction false} WholeRuns(size: nat, runs: seq<seq<byte>>)
    requires size > 0 && forall k :: 0 <= k < |runs| ==> |runs[k]| % size == 0
    ensures |Flatten(runs)| % size == 0
  {
    if runs == [] {
      SmallRemainder(0, size);
    } else {
      WholeRuns(size, runs[1..]);
      ModSum(|runs[0]|, |Flatten(runs[1..])|, size);
    }
  }

  /** Mixing the runs one after the other mixes their concatenation. */
  lemma FoldRuns<S>(step: (S, seq<byte>) -> S, size: nat, s: S, runs: seq<seq<byte>>)
    requires size > 0 && runs != [] && forall k :: 0 <= k < |runs| ==> |runs[k]| % size == 0
    ensures Fold(step, size, s, Flatten(runs)) == Fold(step, size, Fold(step, size, s, runs[0]), Flatten(runs[1..]))
  {
    FoldConcat(step, size, s, runs[0], Flatten(runs[1..]));
  }

  // ----- premixed words -----

  /** The words that whole blocks premix to, in block order. */
  function Premixed<W>(words: seq<byte> -> seq<W>, size: nat, x: seq<byte>): seq<W>
    requires size > 0
    decreases |x|
  {
    if |x| < size then [] else words(x[..size]) + Premixed(words, size, x[size..])
  }

  /** Mixes premixed words, `n` at a time. */
  function MixWords<S, W>(mix: (S, seq<W>) -> S, n: nat, s: S, w: seq<W>): S
    requires n > 0
    decreases |w|
  {
    if |w| < n then s else MixWords(mix, n, mix(s, w[..n]), w[n..])
  }

  lemma {:induction false} PremixedConcat<W>(words: seq<byte> -> seq<W>, size: nat, a: seq<byte>, b: seq<byte>)
    requires size > 0 && |a| % size == 0
    ensures Premixed(words, size, a + b) == Premixed(words, size, a) + Premixed(words, size, b)
    decreases |a|
  {
    if |a| < size {
      SmallRemainder(|a|, size);
      assert a + b == b;
    } else {
      ModMinus(|a|, size);
      assert (a + b)[..size] == a[..size] && (a + b)[size..] == a[size..] + b;
      PremixedConcat(words, size, a[size..], b);
      ConcatAssociates(words(a[..size]), Premixed(words, size, a[size..]), Premixed(words, size, b));
    }
  }

  lemma PremixedOne<W>(words: seq<byte> -> seq<W>, size: nat, b: seq<byte>)
    requires |b| == size > 0
    ensures Premixed(words, size, b) == words(b) && Premixed(words, size, []) == []
  {
    assert b[..size] == b && b[size..] == [];
    assert words(b) + [] == words(b);
  }

  /** The split of a message is determined by its parts. */
  lemma SplitOf(body: seq<byte>, rest: seq<byte>, size: nat)
    requires size > 0 && |body| % size == 0 && |rest| < size
    ensures Split(body + rest, size) == (body, rest)
  {
    BodyUnique(|body + rest|, |body|, size);
  }

  lemma SplitNothing(size: nat)
    requires size > 0
    ensures Split([], size) == ([], [])
  {
    SmallRemainder(0, size);
    var nothing: seq<byte> := [];
    assert nothing + nothing == nothing;
    SplitOf(nothing, nothing, size);
  }

  lemma SplitParts(message: seq<byte>, size: nat, body: seq<byte>, rest: seq<byte>)
    requires size > 0 && Split(message, size).0 == body && Split(message, size).1 == rest
    ensures Split(message, size) == (body, rest) && body + rest == message
  {
  }

  /** New input behind a message: its whole blocks behind the old ones, and the new rest. */
  lemma UpdateSplit(size: nat, message: seq<byte>, body: seq<byte>, rest: seq<byte>, input: seq<byte>,
                    joined: seq<byte>, left: seq<byte>)
    requires size > 0 && Split(message, size) == (body, rest)
    requires joined + left == rest + input && |joined| % size == 0 && |left| < size
    ensures Split(message + input, size) == (body + joined, left)
  {
    ConcatAssociates(body, rest, input);
    ConcatAssociates(body, joined, left);
    ModSum(|body|, |joined|, size);
    SplitOf(body + joined, left, size);
  }

  /** Such messages differ in one whole block, or only behind the whole blocks. */
  lemma SplitDiffers(m: seq<byte>, n: seq<byte>, at: nat, size: nat)
    requires size > 0 && at % size == 0 && DifferAt(m, n, at, size)
    ensures |Split(m, size).0| == |Split(n, size).0|
    ensures if at + size <= |Split(m, size).0|
            then DifferAt(Split(m, size).0, Split(n, size).0, at, size) && Split(m, size).1 == Split(n, size).1
            else Split(m, size).0 == Split(n, size).0
  {
    var k := BodyLen(|m|, size);
    if at + size <= k {
      assert m[k..] == m[at + size..][k - at - size..] && n[k..] == n[at + size..][k - at - size..];
      assert m[..k][at + size..] == m[at + size..][..k - at - size];
      assert n[..k][at + size..] == n[at + size..][..k - at - size];
      assert m[..k][..at] == m[..at] && n[..k][..at] == n[..at];
    } else {
      if at < k {
        MultipleStep(at, k, size);
      }
      assert m[..k] == m[..at][..k] && n[..k] == n[..at][..k];
    }
  }

  /** Messages of less than two blocks. */
  lemma SplitAt(m: seq<byte>, size: nat)
    requires size > 0
    ensures |m| < size ==> Split(m, size) == ([], m)
    ensures size <= |m| < 2 * size ==> Split(m, size) == (m[..size], m[size..])
  {
    if |m| < size {
      SmallRemainder(0, size);
      BodyUnique(|m|, 0, size);
      assert m[..0] == [] && m[0..] == m;
    } else if |m| < 2 * size {
      QuotientUnique(size, size, 1, 0);
      BodyUnique(|m|, size, size);
    }
  }
}
