/** Strict configured decoding without ignored bytes: the whole input is symbols followed by exactly the
padding they need, as plain strict decoding reads it. */
module ConfiguredPlain {
  import opened Bytes
  import opened Alphabet
  import opened Strict
  import opened ConfiguredSpec
  import opened ConfiguredSpecials

  /** No byte is ignored. */
  ghost predicate Plain(t: Table) {
    forall b: byte :: t(b) <= 64
  }

  lemma PlainKept(t: Table, input: seq<byte>, n: nat)
    requires Plain(t) && n <= |input|
    ensures Kept(t, input, n) == input[..n]
  {
    forall k | 0 <= k < n ensures t(input[k]) != IGNORED_CONFIGURED_VALUE {
      var b := input[k];
      assert t(b) <= 64;
    }
    KeptRun(t, input, 0, n);
    assert input[0..n] == input[..n] && Kept(t, input, 0) == [];
  }

  /** Behind the first padding byte only padding is accepted. */
  lemma {:induction false} PlainTail(t: Table, input: seq<byte>, i: nat, values: seq<byte>, padding: nat)
    requires i <= |input| && Plain(t) && t(EQUALS) == 64 && padding > 0
    ensures StrictRun(t, true, input, i, values, padding)
         == if forall k :: i <= k < |input| ==> input[k] == EQUALS then Some((values, padding + |input| - i)) else None
    decreases |input| - i
  {
    if i < |input| && input[i] == EQUALS {
      PlainTail(t, input, i + 1, values, padding + 1);
      assert (forall k :: i <= k < |input| ==> input[k] == EQUALS)
          <==> (forall k :: i + 1 <= k < |input| ==> input[k] == EQUALS);
    }
  }

  /** Where '=' is not padding, the whole input must be symbols. */
  lemma PlainUnpadded(t: Table, padded: bool, canonical: bool, input: seq<byte>)
    requires Plain(t) && !EqualsIsPadding(t, padded)
    ensures StrictValues(t, padded, canonical, input)
         == if AllSymbols(t, input) && |input| % 4 != 1 && (padded ==> |input| % 4 == 0)
               && IsCanonical(canonical, Map(t, input))
            then Some(Map(t, input)) else None
  {
    hide Kept, StrictRun;
    DataEndIsFirst(t, padded, input, 0, 0);
    PlainKept(t, input, |input|);
    assert input[..|input|] == input;
    StrictData(t, padded, input, |input|);
    RunAtEnd(t, padded, input, Map(t, input));
  }

  lemma RunAtEnd(t: Table, padded: bool, input: seq<byte>, values: seq<byte>)
    ensures StrictRun(t, padded, input, |input|, values, 0) == Some((values, 0))
  {
  }

  /** Where '=' is padding, the layout of the input is that of plain strict decoding. */
  lemma PlainPadded(t: Table, canonical: bool, input: seq<byte>)
    requires Plain(t) && EqualsIsPadding(t, true)
    ensures var data := input[..|input| - TrailingPadding(input)];
            StrictValues(t, true, canonical, input)
            == if |input| % 4 == 0 && AllSymbols(t, data) && IsCanonical(canonical, Map(t, data))
               then Some(Map(t, data)) else None
  {
    hide Kept, StrictRun, DataEnd;
    var n := DataEnd(t, true, input, 0);
    var m := |input| - TrailingPadding(input);
    DataEndIsFirst(t, true, input, 0, m);
    if m > 0 {
      DataEndIsFirst(t, true, input, 0, m - 1);
    }
    PlainKept(t, input, n);
    StrictData(t, true, input, n);
    PlainEnd(t, input, n, Map(t, input[..n]));
    if n < m {
      assert input[..m][n] == EQUALS && !AllSymbols(t, input[..m]);
    }
  }

  /** From the first padding byte, or the end, on. */
  lemma PlainEnd(t: Table, input: seq<byte>, n: nat, values: seq<byte>)
    requires n <= |input| && Plain(t) && t(EQUALS) == 64 && (n < |input| ==> input[n] == EQUALS)
    ensures StrictRun(t, true, input, n, values, 0)
         == if forall k :: n <= k < |input| ==> input[k] == EQUALS then Some((values, |input| - n)) else None
  {
    if n < |input| {
      PlainTail(t, input, n + 1, values, 1);
      assert (forall k :: n <= k < |input| ==> input[k] == EQUALS)
          <==> (forall k :: n + 1 <= k < |input| ==> input[k] == EQUALS);
    }
  }
}
