/** When a scan accepts, in terms of the input alone: how many symbols there are, and how much '=' stands behind the
last of them. */
module ScanLaws {
  import opened Bytes
  import opened Alphabet
  import opened Quantum
  import opened Strict
  import opened LenientSpec
  import opened LenientApi
  import opened ConfiguredSpec

  /** The values of the symbols, everything else dropped. */
  function Picked(t: Table, x: seq<byte>): (v: seq<byte>)
    ensures |v| <= |x|
    ensures forall k :: 0 <= k < |v| ==> v[k] < 64
  {
    if x == [] then []
    else
      var b := x[|x| - 1];
      if t(b) < 64 then Picked(t, x[..|x| - 1]) + [t(b)] else Picked(t, x[..|x| - 1])
  }

  /** All symbols stand in front of `j`, the last of them right in front. */
  predicate EndsAt(t: Table, x: seq<byte>, j: nat) {
    && j <= |x| && (j > 0 ==> t(x[j - 1]) < 64)
    && (forall k :: j <= k < |x| ==> t(x[k]) >= 64)
  }

  /** How many bytes '=' there are. */
  function EqualsIn(x: seq<byte>): nat {
    if x == [] then 0 else EqualsIn(x[..|x| - 1]) + if x[|x| - 1] == 61 then 1 else 0
  }

  /** What a number of symbols lacks to whole quartets. */
  function Missing(symbols: nat): nat {
    if symbols % 4 == 0 then 0 else 4 - symbols % 4
  }

  /** The bits of the last value that no byte carries are zero. */
  predicate ZeroTail(v: seq<byte>) {
    && (|v| % 4 == 2 ==> v[|v| - 1] as nat % 16 == 0)
    && (|v| % 4 == 3 ==> v[|v| - 1] as nat % 4 == 0)
  }

  // ----- counting -----

  lemma {:induction false} EqualsConcat(x: seq<byte>, y: seq<byte>)
    ensures EqualsIn(x + y) == EqualsIn(x) + EqualsIn(y)
  {
    if y == [] {
      assert x + y == x;
    } else {
      var z := x + y;
      assert z[..|z| - 1] == x + y[..|y| - 1] && z[|z| - 1] == y[|y| - 1];
      EqualsConcat(x, y[..|y| - 1]);
    }
  }

  lemma OneLess(x: seq<byte>)
    requires x != []
    ensures EqualsIn(x) == EqualsIn(x[1..]) + if x[0] == 61 then 1 else 0
  {
    assert x == x[..1] + x[1..] && x[..1][..0] == [];
    EqualsConcat(x[..1], x[1..]);
  }

  lemma {:induction false} PickedConcat(t: Table, x: seq<byte>, y: seq<byte>)
    ensures Picked(t, x + y) == Picked(t, x) + Picked(t, y)
  {
    if y == [] {
      assert x + y == x;
    } else {
      var z := x + y;
      assert z[..|z| - 1] == x + y[..|y| - 1] && z[|z| - 1] == y[|y| - 1];
      PickedConcat(t, x, y[..|y| - 1]);
    }
  }

  lemma {:induction false} NothingPicked(t: Table, x: seq<byte>)
    requires forall k :: 0 <= k < |x| ==> t(x[k]) >= 64
    ensures Picked(t, x) == []
  {
    if x != [] {
      NothingPicked(t, x[..|x| - 1]);
    }
  }

  lemma PickedTo(t: Table, x: seq<byte>, j: nat)
    requires EndsAt(t, x, j)
    ensures Picked(t, x) == Picked(t, x[..j])
  {
    NothingPicked(t, x[j..]);
    assert x == x[..j] + x[j..];
    PickedConcat(t, x[..j], x[j..]);
  }

  // ----- lenient scans -----

  /** The padding bytes since the last symbol. */
  function Pads(t: Table, x: seq<byte>): nat {
    if x == [] then 0
    else
      var b := x[|x| - 1];
      if t(b) < 64 then 0 else Pads(t, x[..|x| - 1]) + if b == 61 then 1 else 0
  }

  lemma {:induction false} PadsAre(t: Table, x: seq<byte>, j: nat)
    requires EndsAt(t, x, j)
    ensures Pads(t, x) == EqualsIn(x[j..])
  {
    if j < |x| {
      var y := x[..|x| - 1];
      PadsAre(t, y, j);
      assert x[j..][..|x| - j - 1] == y[j..];
    } else {
      assert x[j..] == [];
    }
  }

  /** The byte '=' at `e` completes an open quartet. */
  predicate Completes(t: Table, x: seq<byte>, e: nat) {
    && e < |x| && x[e] == 61 && t(61) >= 64
    && |Picked(t, x[..e])| % 4 >= 2 && |Picked(t, x[..e])| % 4 + Pads(t, x[..e]) + 1 >= 4
  }

  predicate Stops(m: Mode) {
    m.padded && !m.continueAfterPadding
  }

  /** The scan up to `i`, if nothing stops it before. */
  lemma {:induction false} ScanTo(t: Table, m: Mode, x: seq<byte>, i: nat)
    requires i <= |x| && (Stops(m) ==> forall e :: 0 <= e < i ==> !Completes(t, x, e))
    ensures Scan(t, m, x) == Run(t, m, x, i, Picked(t, x[..i]), if m.padded then Pads(t, x[..i]) else 0)
  {
    if i == 0 {
      assert x[..0] == [];
    } else {
      ScanTo(t, m, x, i - 1);
      assert x[..i][..i - 1] == x[..i - 1] && x[..i][i - 1] == x[i - 1];
      assert !Stops(m) || !Completes(t, x, i - 1);
    }
  }

  /** Where decoding goes on after padding, or needs none, the number of symbols and the '=' behind the last one
      decide. */
  lemma ContinuingScan(t: Table, m: Mode, x: seq<byte>, j: nat)
    requires !Stops(m) && EndsAt(t, x, j)
    ensures var n := |Picked(t, x)|;
            Scan(t, m, x)
            == Outcome(Picked(t, x), n % 4 != 1 && (m.padded && n % 4 != 0 ==> EqualsIn(x[j..]) >= 4 - n % 4))
  {
    ScanTo(t, m, x, |x|);
    assert x[..|x|] == x;
    PadsAre(t, x, j);
  }

  /** Where decoding stops after padding, the first '=' that completes a quartet ends it, and what follows has no
      meaning; without one, it is as if decoding went on. */
  lemma StoppingScan(t: Table, m: Mode, x: seq<byte>, e: nat)
    requires Stops(m) && e <= |x| && (forall i :: 0 <= i < e ==> !Completes(t, x, i))
    requires e < |x| ==> Completes(t, x, e)
    ensures Scan(t, m, x)
         == if e < |x| then Outcome(Picked(t, x[..e]), true) else Scan(t, Mode(true, true), x)
  {
    ScanTo(t, m, x, e);
    if e == |x| {
      ScanTo(t, Mode(true, true), x, |x|);
    }
  }

  /** When '=' completes: two or three symbols are open, and it is the last of the missing ones. */
  lemma CompletesIs(t: Table, x: seq<byte>, e: nat, j: nat)
    requires e < |x| && x[e] == 61 && t(61) >= 64 && EndsAt(t, x[..e], j)
    ensures Completes(t, x, e) <==>
              var n := |Picked(t, x[..e])|; n % 4 >= 2 && EqualsIn(x[j..e + 1]) >= 4 - n % 4
  {
    PadsAre(t, x[..e], j);
    assert x[..e][j..] == x[j..e + 1][..e - j];
  }

  /** So what the plain lenient decoder makes of an input: with the '=' behind the last symbol counted where padding is
      required. */
  lemma ContinuingMeaning(t: Table, m: Mode, x: seq<byte>, j: nat)
    requires !Stops(m) && EndsAt(t, x, j)
    ensures var n := |Picked(t, x)|;
            LenientMeaning(t, m, x)
            == if n % 4 != 1 && (m.padded && n % 4 != 0 ==> EqualsIn(x[j..]) >= 4 - n % 4)
               then Some(Decode(Picked(t, x))) else None
  {
    hide Scan, Picked, EqualsIn, Decode;
    ContinuingScan(t, m, x, j);
  }

  /** And where decoding stops behind padding: what stands in front of the first '=' that completes a quartet. */
  lemma StoppingMeaning(t: Table, x: seq<byte>, e: nat)
    requires e <= |x| && (forall i :: 0 <= i < e ==> !Completes(t, x, i)) && (e < |x| ==> Completes(t, x, e))
    ensures LenientMeaning(t, Mode(true, false), x)
         == if e < |x| then Some(Decode(Picked(t, x[..e]))) else LenientMeaning(t, Mode(true, true), x)
  {
    hide Scan, Picked, Completes, Decode;
    StoppingScan(t, Mode(true, false), x, e);
  }

  // ----- strict scans -----

  /** Symbols and ignored bytes only. */
  predicate IsData(t: Table, x: seq<byte>) {
    forall k :: 0 <= k < |x| ==> t(x[k]) < 64 || t(x[k]) == 65
  }

  /** Padding and ignored bytes only. */
  predicate IsPadding(t: Table, padded: bool, x: seq<byte>) {
    forall k :: 0 <= k < |x| ==> t(x[k]) == 65 || (x[k] == 61 && padded)
  }

  /** A symbol behind padding is refused. */
  lemma {:induction false} SymbolBehindPadding(t: Table, padded: bool, x: seq<byte>, i: nat, j: nat, values: seq<byte>,
                                               padding: nat)
    requires i < j <= |x| && t(x[j - 1]) < 64 && padding > 0
    ensures StrictRun(t, padded, x, i, values, padding).None?
    decreases j - i
  {
    if t(x[i]) >= 64 {
      if t(x[i]) == IGNORED_CONFIGURED_VALUE {
        SymbolBehindPadding(t, padded, x, i + 1, j, values, padding);
      } else if x[i] == EQUALS && padded {
        SymbolBehindPadding(t, padded, x, i + 1, j, values, padding + 1);
      }
    }
  }

  /** The part that the last symbol ends. */
  lemma {:induction false} StrictFront(t: Table, padded: bool, x: seq<byte>, i: nat, j: nat)
    requires i <= j && EndsAt(t, x, j)
    ensures StrictRun(t, padded, x, i, Picked(t, x[..i]), 0)
         == if IsData(t, x[i..j]) then StrictRun(t, padded, x, j, Picked(t, x[..j]), 0) else None
    decreases j - i
  {
    if i < j {
      var b := x[i];
      assert x[..i + 1][..i] == x[..i] && x[..i + 1][i] == b;
      assert x[i..j] == [b] + x[i + 1..j];
      assert IsData(t, x[i..j]) <==> (t(b) < 64 || t(b) == 65) && IsData(t, x[i + 1..j]);
      StrictFront(t, padded, x, i + 1, j);
      if t(b) >= 64 && t(b) != 65 && b == EQUALS && padded {
        SymbolBehindPadding(t, padded, x, i + 1, j, Picked(t, x[..i]), 1);
      }
    }
  }

  /** The part behind it. */
  lemma {:induction false} StrictBack(t: Table, padded: bool, x: seq<byte>, i: nat, values: seq<byte>, padding: nat)
    requires i <= |x| && forall k :: i <= k < |x| ==> t(x[k]) >= 64
    ensures StrictRun(t, padded, x, i, values, padding)
         == if IsPadding(t, padded, x[i..])
            then Some((values, padding + if t(61) == 65 then 0 else EqualsIn(x[i..]))) else None
    decreases |x| - i
  {
    if i < |x| {
      var b := x[i];
      assert x[i..] == [b] + x[i + 1..];
      OneLess(x[i..]);
      assert IsPadding(t, padded, x[i..]) <==> (t(b) == 65 || (b == 61 && padded)) && IsPadding(t, padded, x[i + 1..]);
      if t(b) == IGNORED_CONFIGURED_VALUE {
        StrictBack(t, padded, x, i + 1, values, padding);
      } else if b == EQUALS && padded {
        StrictBack(t, padded, x, i + 1, values, padding + 1);
      }
    } else {
      assert x[i..] == [];
    }
  }

  /** What a strict scan accepts: symbols, then '=', and ignored bytes anywhere. */
  lemma StrictScanIs(t: Table, padded: bool, x: seq<byte>, j: nat)
    requires EndsAt(t, x, j)
    ensures StrictScan(t, padded, x)
         == if IsData(t, x[..j]) && IsPadding(t, padded, x[j..])
            then Some((Picked(t, x), if t(61) == 65 then 0 else EqualsIn(x[j..]))) else None
  {
    hide StrictRun;
    assert x[..0] == [] && x[0..j] == x[..j];
    StrictFront(t, padded, x, 0, j);
    StrictBack(t, padded, x, j, Picked(t, x[..j]), 0);
    PickedTo(t, x, j);
  }

  lemma {:induction false} SymbolsArePicked(t: Table, x: seq<byte>, i: nat)
    requires i <= |x|
    ensures SymbolValues(t, x, i) == Picked(t, x[i..])
    decreases |x| - i
  {
    if i < |x| {
      SymbolsArePicked(t, x, i + 1);
      assert x[i..] == [x[i]] + x[i + 1..];
      PickedConcat(t, [x[i]], x[i + 1..]);
      PickedOne(t, x[i]);
    } else {
      assert x[i..] == [];
    }
  }

  lemma PickedOne(t: Table, b: byte)
    ensures Picked(t, [b]) == if t(b) < 64 then [t(b)] else []
  {
    assert [b][..0] == [];
  }

  /** The padding that is counted where '=' is ignored. */
  lemma {:induction false} FinalPadsAre(t: Table, x: seq<byte>, i: nat, j: nat, pads: nat)
    requires i <= |x| && EndsAt(t, x, j)
    ensures FinalPads(t, x, i, pads) == if i < j then EqualsIn(x[j..]) else pads + EqualsIn(x[i..])
    decreases |x| - i
  {
    if i < |x| {
      var b := x[i];
      FinalPadsAre(t, x, i + 1, j, if t(b) < 64 then 0 else if b == EQUALS then pads + 1 else pads);
      OneLess(x[i..]);
      assert x[i..][1..] == x[i + 1..];
    } else {
      assert x[i..] == [];
    }
  }

  // ----- configured meanings -----

  lemma ZeroTailIs(v: seq<byte>)
    requires forall k :: 0 <= k < |v| ==> v[k] < 64
    ensures |v| % 4 != 1 ==> (Leftover(v) == 0 <==> ZeroTail(v))
  {
    if |v| % 4 == 2 {
      LowBits(v[|v| - 1]);
    } else if |v| % 4 == 3 {
      LowBits(v[|v| - 1]);
    }
  }

  lemma LowBits(b: byte)
    ensures b & 0x0f == 0 <==> b as nat % 16 == 0
    ensures b & 0x03 == 0 <==> b as nat % 4 == 0
  {
  }

  /** The judgement on a number of symbols with some '=' behind the last of them. */
  predicate StrictCounts(symbols: nat, pads: nat, padded: bool, padsIgnored: bool) {
    && symbols % 4 != 1
    && (padded ==> if padsIgnored then pads >= Missing(symbols) else pads == Missing(symbols))
  }

  predicate LenientCounts(symbols: nat, pads: nat, padded: bool) {
    symbols % 4 != 1 && (padded ==> pads >= Missing(symbols))
  }

  /** What strict reading accepts, and as what. */
  lemma StrictIs(t: Table, padded: bool, canonical: bool, continueAfterPadding: bool, x: seq<byte>, j: nat)
    requires EndsAt(t, x, j)
    ensures var v := Picked(t, x);
            ConfiguredValues(t, true, padded, canonical, continueAfterPadding, x)
            == if && IsData(t, x[..j]) && IsPadding(t, padded, x[j..])
                  && StrictCounts(|v|, EqualsIn(x[j..]), padded, t(61) == 65) && (canonical ==> ZeroTail(v))
               then Some(v) else None
  {
    hide StrictScan, SymbolValues, FinalPads, Picked, IsData, IsPadding, EqualsIn, Leftover, ZeroTail, EndsAt;
    StrictScanIs(t, padded, x, j);
    StrictScanIs(t, false, x, j);
    SymbolsArePicked(t, x, 0);
    FinalPadsAre(t, x, 0, j, 0);
    ZeroTailIs(Picked(t, x));
    assert x[0..] == x;
    FromStart(t, x, j);
    IgnoredPadding(t, x[j..]);
  }

  lemma FromStart(t: Table, x: seq<byte>, j: nat)
    requires EndsAt(t, x, j)
    ensures j <= |x| && (0 < j || x[j..] == x)
  {
  }

  lemma IgnoredPadding(t: Table, x: seq<byte>)
    ensures t(61) == 65 ==> (IsPadding(t, true, x) <==> IsPadding(t, false, x))
    ensures IsPadding(t, false, x) && t(61) != 65 ==> EqualsIn(x) == 0
  {
    if IsPadding(t, false, x) && t(61) != 65 {
      NoEquals(x);
    }
  }

  lemma {:induction false} NoEquals(x: seq<byte>)
    requires 61 !in x
    ensures EqualsIn(x) == 0
  {
    if x != [] {
      NoEquals(x[..|x| - 1]);
    }
  }

  /** What lenient reading accepts, and as what, where it goes on behind padding or needs none. */
  lemma LenientIs(t: Table, m: Mode, canonical: bool, x: seq<byte>, j: nat)
    requires !Stops(m) && EndsAt(t, x, j)
    ensures var v := Picked(t, x);
            LenientValues(t, m, canonical, x)
            == if LenientCounts(|v|, EqualsIn(x[j..]), m.padded) && (canonical ==> ZeroTail(v)) then Some(v) else None
  {
    hide Scan, Picked, EqualsIn, Leftover, ZeroTail, EndsAt;
    ContinuingScan(t, m, x, j);
    ZeroTailIs(Picked(t, x));
  }

  /** Where it stops behind padding: the first '=' that completes a quartet ends the text. */
  lemma StoppedIs(t: Table, m: Mode, canonical: bool, x: seq<byte>, e: nat)
    requires Stops(m) && Completes(t, x, e) && forall i :: 0 <= i < e ==> !Completes(t, x, i)
    ensures var v := Picked(t, x[..e]);
            LenientValues(t, m, canonical, x) == if canonical ==> ZeroTail(v) then Some(v) else None
  {
    hide Scan, Picked, Pads, Leftover, ZeroTail;
    StoppingScan(t, m, x, e);
    ZeroTailIs(Picked(t, x[..e]));
  }

  /** If none does, it is as if decoding went on. */
  lemma UnstoppedIs(t: Table, m: Mode, canonical: bool, x: seq<byte>)
    requires Stops(m) && forall i :: 0 <= i < |x| ==> !Completes(t, x, i)
    ensures LenientValues(t, m, canonical, x) == LenientValues(t, Mode(true, true), canonical, x)
  {
    hide Scan, Completes;
    StoppingScan(t, m, x, |x|);
  }

  // ----- symbols and padding -----

  function Repeat(b: byte, k: nat): (x: seq<byte>)
    ensures |x| == k && forall i :: 0 <= i < k ==> x[i] == b
  {
    seq(k, _ => b)
  }

  lemma {:induction false} OnlyEquals(k: nat)
    ensures EqualsIn(Repeat(61, k)) == k
  {
    if k > 0 {
      OnlyEquals(k - 1);
      assert Repeat(61, k)[..k - 1] == Repeat(61, k - 1);
    }
  }

  lemma {:induction false} AllPicked(t: Table, x: seq<byte>)
    requires AllSymbols(t, x)
    ensures Picked(t, x) == Map(t, x)
  {
    if x != [] {
      AllPicked(t, x[..|x| - 1]);
      assert x == x[..|x| - 1] + [x[|x| - 1]];
    }
  }

  lemma PaddedText(t: Table, x: seq<byte>, k: nat)
    requires AllSymbols(t, x) && t(61) >= 64
    ensures var y := x + Repeat(61, k);
            && EndsAt(t, y, |x|) && Picked(t, y) == Map(t, x) && EqualsIn(y[|x|..]) == k
            && IsData(t, y[..|x|])
            && forall padded :: IsPadding(t, padded, y[|x|..]) <==> k == 0 || padded || t(61) == 65
  {
    var y := x + Repeat(61, k);
    assert y[|x|..] == Repeat(61, k) && y[..|x|] == x;
    OnlyEquals(k);
    PickedTo(t, y, |x|);
    AllPicked(t, x);
    forall padded ensures IsPadding(t, padded, y[|x|..]) <==> k == 0 || padded || t(61) == 65 {
      if k > 0 {
        assert y[|x|..][0] == 61;
      }
    }
  }

  /** How much padding symbols need, strictly. */
  lemma StrictDemand(t: Table, padded: bool, canonical: bool, continueAfterPadding: bool, x: seq<byte>, k: nat)
    requires AllSymbols(t, x) && t(61) >= 64
    ensures ConfiguredValues(t, true, padded, canonical, continueAfterPadding, x + Repeat(61, k))
         == if && |x| % 4 != 1 && (canonical ==> ZeroTail(Map(t, x)))
               && (if t(61) == 65 then padded ==> k >= Missing(|x|) else k == if padded then Missing(|x|) else 0)
            then Some(Map(t, x)) else None
  {
    hide ConfiguredValues, Picked, EqualsIn, ZeroTail, IsData, IsPadding, EndsAt;
    PaddedText(t, x, k);
    StrictIs(t, padded, canonical, continueAfterPadding, x + Repeat(61, k), |x|);
  }

  /** And leniently, in every mode. */
  lemma LenientDemand(t: Table, m: Mode, canonical: bool, x: seq<byte>, k: nat)
    requires AllSymbols(t, x) && t(61) >= 64
    ensures LenientValues(t, m, canonical, x + Repeat(61, k))
         == if && |x| % 4 != 1 && (canonical ==> ZeroTail(Map(t, x))) && (m.padded ==> k >= Missing(|x|))
            then Some(Map(t, x)) else None
  {
    hide LenientValues, Picked, EqualsIn, Pads, ZeroTail, EndsAt, Completes;
    var y := x + Repeat(61, k);
    PaddedText(t, x, k);
    if !Stops(m) {
      LenientIs(t, m, canonical, y, |x|);
    } else {
      CompletedBy(t, x, k);
      var e := |x| + Missing(|x|) - 1;
      if |x| % 4 >= 2 && k >= Missing(|x|) {
        assert y[..e] == x + Repeat(61, Missing(|x|) - 1);
        PaddedText(t, x, Missing(|x|) - 1);
        StoppedIs(t, m, canonical, y, e);
      } else {
        UnstoppedIs(t, m, canonical, y);
        LenientIs(t, Mode(true, true), canonical, y, |x|);
      }
    }
  }

  /** The last missing '=' completes, and no other byte before it. */
  lemma CompletedBy(t: Table, x: seq<byte>, k: nat)
    requires AllSymbols(t, x) && t(61) >= 64
    ensures var y := x + Repeat(61, k);
            forall e :: 0 <= e < |y| ==>
              (Completes(t, y, e) <==> e >= |x| && |x| % 4 >= 2 && e - |x| + 1 >= Missing(|x|))
  {
    hide Picked, Pads;
    var y := x + Repeat(61, k);
    forall e | 0 <= e < |y|
      ensures Completes(t, y, e) <==> e >= |x| && |x| % 4 >= 2 && e - |x| + 1 >= Missing(|x|)
    {
      if e < |x| {
        assert t(y[e]) == t(x[e]) < 64;
      } else {
        assert y[..e] == x + Repeat(61, e - |x|) && y[|x|..e + 1] == Repeat(61, e - |x| + 1);
        PaddedText(t, x, e - |x|);
        OnlyEquals(e - |x| + 1);
        CompletesIs(t, y, e, |x|);
      }
    }
  }
}
