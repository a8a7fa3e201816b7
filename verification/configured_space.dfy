/** Which failing scans store bytes behind the space that an allocating decode reserves. Only Neon can: it tests
an interval of up to 4096 symbols after storing it, and an unpadded scan hands a final '=' to the decoder
although the estimate takes it for padding. */
module ConfiguredSpace {
  import opened Bytes
  import opened Alphabet
  import opened Division
  import opened Vectors
  import opened DecodeKernels
  import opened DecodeNeon
  import opened Strict
  import opened StrictApi
  import opened LenientApi
  import opened Staging
  import opened StagingCuts
  import opened ConfiguredSpec
  import opened ConfiguredTable
  import opened ConfiguredSpecials

  // ----- one chunk -----

  /** The start of the last interval that ends at `t`, counted from `o` on. */
  function LastInterval(o: nat, t: nat): (x: nat)
    requires o < t
    ensures o <= x < t <= x + 4096
  {
    o + (t - o - 1) / 4096 * 4096
  }

  /** An input whose last byte is invalid is stored whole exactly when it is whole blocks and the test of its
      last interval is the first to fail. */
  lemma {:induction false} StoredWhole(a: DecodeAlphabet, x: seq<byte>, source: nat)
    requires source % 4096 == 0 && source < |x| && !Valid(a, x, |x| - 1, |x|)
    ensures StoredEnd(a, x, source) == |x| <==> |x| % 64 == 0 && Valid(a, x, source, LastInterval(source, |x|))
    decreases |x| - source
  {
    hide Valid;
    var take := Interval(|x|, source);
    Blocks64(|x|, source);
    if |x| - source > 4096 {
      ValidSplits(a, x, source, source + 4096, LastInterval(source, |x|));
      StoredWhole(a, x, source + 4096);
    } else {
      ValidNothing(a, x, source);
      if take == 4096 {
        ValidSplits(a, x, source, |x| - 1, |x|);
      } else if take > 0 {
        assert Interval(|x|, source + take) == 0;
      }
    }
  }

  lemma Blocks64(n: nat, source: nat)
    requires source % 4096 == 0 && source < n
    ensures n - source <= 4096 ==> LastInterval(source, n) == source
    ensures n - source > 4096 ==>
              Interval(n, source) == 4096 && LastInterval(source + 4096, n) == LastInterval(source, n)
    ensures n - source < 4096 ==> Interval(n, source) == (n - source) / 64 * 64
    ensures n - source == 4096 ==> Interval(n, source) == 4096
    ensures (n - source) / 64 * 64 == n - source <==> n % 64 == 0
  {
    var k, m := source / 4096, n - source;
    assert source == 64 * (64 * k);
    assert n % 64 == m % 64;
    assert m > 4096 ==> (m - 1) / 4096 == (m - 4096 - 1) / 4096 + 1;
  }

  /** A chunk up to the invalid symbol in front of `t` that stops a scan on Neon. */
  lemma ChunkStored(s: seq<byte>, o: nat, t: nat, w: seq<byte>)
    requires o < t <= |s| && (t - o) % 4 == 0 && !Valid(Standard, s, t - 1, t)
    requires Halted(Neon, s, Chunk(o, t - o), w)
    ensures |w| == t / 4 * 3 <==> (t - o) % 64 == 0 && Valid(Standard, s, 0, LastInterval(o, t))
  {
    hide Valid, Decoded, RawDecoded, StoredEnd, Halted, Accumulated;
    var x := s[o..t];
    var q := ChunkAccumulated(s, o, t, w);
    ValidSlice(Standard, s, o, t);
    SliceValid(s, o, t);
    ValidSplits(Standard, s, 0, o, LastInterval(o, t));
    StoredWhole(Standard, x, 0);
    WholeAccumulated(x, q, w[o / 4 * 3..]);
  }

  /** A failing decode of `x` stored all of it exactly when the late test let it. */
  lemma WholeAccumulated(x: seq<byte>, q: nat, w: seq<byte>)
    requires |x| > 0 && !Valid(Standard, x, |x| - 1, |x|) && Accumulated(Standard, x, q, w)
    ensures 4 * q == |x| <==> StoredEnd(Standard, x, 0) == |x|
  {
    hide Valid, RawDecoded, StoredEnd;
    ValidSplits(Standard, x, 0, |x| - 1, |x|);
    StoredWhole(Standard, x, 0);
    if |x| % 64 == 0 {
      assert Bulk(|x|) == |x|;
    }
  }

  lemma ChunkAccumulated(s: seq<byte>, o: nat, t: nat, w: seq<byte>) returns (q: nat)
    requires o < t <= |s| && (t - o) % 4 == 0 && Halted(Neon, s, Chunk(o, t - o), w)
    ensures o / 4 * 3 <= |w| && Valid(Standard, s, 0, o) && Accumulated(Standard, s[o..t], q, w[o / 4 * 3..])
    ensures |w| == o / 4 * 3 + 3 * q && t / 4 * 3 == o / 4 * 3 + (t - o) / 4 * 3
  {
    hide Valid, Decoded, Accumulated;
    var x, v := s[o..t], w[o / 4 * 3..];
    assert x[..|x| / 4 * 4] == x;
    q := |v| / 3;
  }

  lemma SliceValid(s: seq<byte>, o: nat, t: nat)
    requires o < t <= |s| && !Valid(Standard, s, t - 1, t)
    ensures !Valid(Standard, s[o..t], t - o - 1, t - o)
  {
  }

  // ----- buffered pushes: every chunk is a full buffer, and what is left is decoded at the end -----

  ghost predicate BadBuffer(s: seq<byte>, c: Chunk) {
    c.size == 4096 && c.start % 4096 == 0 && c.start + 4096 <= |s| && !Valid(Standard, s, c.start, c.start + 4096)
  }

  lemma {:induction false} BufferedHalt(s: seq<byte>, flushed: nat, staged: nat, more: nat)
    requires flushed % 4096 == 0 && staged < 4096 && flushed + staged + more <= |s|
    ensures var end := flushed + staged + more;
            match Halt(s, true, flushed, staged, more)
            case Some(c) => BadBuffer(s, c)
            case None => StagedAfter(true, staged, more) == end % 4096 && Valid(Standard, s, flushed, end - end % 4096)
    decreases more
  {
    hide Valid, Halt, StagedAfter;
    CutStep(s, true, flushed, staged, more);
    EndOf(flushed, staged + more);
    if staged + more >= 4096 {
      BufferedHalt(s, flushed + 4096, 0, more - (4096 - staged));
      ValidSplits(Standard, s, flushed, flushed + 4096, flushed + staged + more - (flushed + staged + more) % 4096);
    } else {
      ValidNothing(Standard, s, flushed);
    }
  }

  lemma EndOf(flushed: nat, more: nat)
    requires flushed % 4096 == 0
    ensures (flushed + more) % 4096 == more % 4096 && (more < 4096 ==> more % 4096 == more)
    ensures more >= 4096 ==> flushed + 4096 <= flushed + more - (flushed + more) % 4096
    ensures (flushed + 4096) % 4096 == 0 && (flushed + more - (flushed + more) % 4096) % 4096 == 0
  {
  }

  /** Buffered pushes are stopped by a full buffer, or all of these are valid. */
  ghost predicate BufferedEnd(s: seq<byte>, cuts: Cuts) {
    match cuts
    case Stops(c) => BadBuffer(s, c)
    case Stages(count) => count == |s| % 4096 && Valid(Standard, s, 0, |s| - count)
  }

  lemma {:induction false} BufferedCuts(d: Decoder, input: seq<byte>, n: nat, source: nat, flushed: nat, staged: nat)
    requires d.translation.Some? && source <= n <= |input| && staged < 4096
    requires flushed % 4096 == 0 && flushed + staged == |Kept(d.table, input, source)|
    requires flushed <= |Stream(d, input, n)| && Valid(Standard, Stream(d, input, n), 0, flushed)
    ensures BufferedEnd(Stream(d, input, n), RunCuts(d, input, n, source, flushed, staged))
    decreases n - source
  {
    hide *;
    if source == n {
      StagedEnd(d, input, n, flushed, staged);
    } else {
      var s, e := Stream(d, input, n), NextIgnored(d.table, input, source, n);
      var cuts := BufferedStep(d, input, n, source, flushed, staged);
      if e == source {
        BufferedCuts(d, input, n, source + 1, flushed, staged);
      } else if !BufferedEnd(s, cuts) {
        var end := flushed + staged + (e - source);
        ValidSplits(Standard, s, 0, flushed, end - end % 4096);
        EndOf(flushed, staged + (e - source));
        BufferedCuts(d, input, n, e, end - end % 4096, end % 4096);
      }
    }
  }

  lemma BufferedStep(d: Decoder, input: seq<byte>, n: nat, source: nat, flushed: nat, staged: nat) returns (cuts: Cuts)
    requires d.translation.Some? && source < n <= |input| && staged < 4096 && flushed % 4096 == 0
    requires flushed + staged == |Kept(d.table, input, source)|
    ensures var e, s := NextIgnored(d.table, input, source, n), Stream(d, input, n);
            var end := flushed + staged + (e - source);
            && cuts == RunCuts(d, input, n, source, flushed, staged) && end == |Kept(d.table, input, e)| <= |s|
            && if e == source then
                 && |Kept(d.table, input, source + 1)| == flushed + staged
                 && cuts == RunCuts(d, input, n, source + 1, flushed, staged)
               else if BufferedEnd(s, cuts) then true
               else
                 && flushed <= end - end % 4096 && Valid(Standard, s, flushed, end - end % 4096)
                 && cuts == RunCuts(d, input, n, e, end - end % 4096, end % 4096)
  {
    hide Kept, Halt, StagedAfter, NextIgnored, Stream, RunCuts, Valid, BadBuffer;
    var e, s := NextIgnored(d.table, input, source, n), Stream(d, input, n);
    cuts := RunCuts(d, input, n, source, flushed, staged);
    RunStep(d, input, n, source, flushed, staged);
    if e > source {
      BufferedHalt(s, flushed, staged, e - source);
      EndOf(flushed, staged + (e - source));
    }
  }

  lemma StagedEnd(d: Decoder, input: seq<byte>, n: nat, flushed: nat, staged: nat)
    requires n <= |input| && staged < 4096 && flushed % 4096 == 0
    requires flushed + staged == |Kept(d.table, input, n)|
    requires Valid(Standard, Stream(d, input, n), 0, flushed)
    ensures BufferedEnd(Stream(d, input, n), RunCuts(d, input, n, n, flushed, staged))
  {
    hide Valid, Kept;
  }

  // ----- the inputs concerned -----

  /** The whole quartets of an input end with '=', which is no symbol; the estimate takes it for padding, and an
      unpadded scan that searches for special bytes hands it to the decoder. */
  predicate FinalEquals(d: Decoder, input: seq<byte>) {
    && d.strict && !d.padded && d.table(EQUALS) == INVALID_CONFIGURED_VALUE && UsesSpecials(d)
    && |input| > 256 && |input| % 4 <= 1 && input[|input| / 4 * 4 - 1] == EQUALS && input[|input| - 1] == EQUALS
  }

  /** Where the intervals of the last chunk are counted from: the start of the input, or, for symbols decoded
      without a buffer, the whole quartets in front of the ignored byte. */
  function Origin(d: Decoder, input: seq<byte>): (o: nat)
    ensures o <= |input| && o % 4 == 0
  {
    if d.translation.None? && |Kept(d.table, input, |input|)| < |input|
    then NextIgnored(d.table, input, 0, |input|) / 4 * 4 else 0
  }

  /** The size of which the last chunk is a multiple when all of it is stored: a block, or a full buffer if a
      lone symbol behind the quartets ends the scan before the rest is decoded. */
  function Grain(d: Decoder, input: seq<byte>): (g: nat)
    ensures g > 0
  {
    if d.translation.Some? && |input| % 4 == 1 && |Kept(d.table, input, |input|)| == |input| then 4096 else 64
  }

  /** A failing scan on Neon stores more than the estimate: all whole quartets, with the final '=' among them,
      are stored before the test that fails for it. No forbidden byte stops the scan before that, enough bytes for
      the whole quartets are kept, the last chunk is whole blocks, and no earlier interval is invalid. */
  ghost predicate Overruns(d: Decoder, input: seq<byte>) {
    FinalEquals(d, input) && !HasForbidden(d, input, |input|) &&
    var s, t, o := Stream(d, input, |input|), |input| / 4 * 4, Origin(d, input);
    t <= |s| && o < t && (t - o) % Grain(d, input) == 0 && Valid(Standard, s, 0, LastInterval(o, t))
  }

  lemma CapacityAt(d: Decoder, input: seq<byte>)
    requires FinalEquals(d, input)
    ensures |input| / 4 * 3 - 3 < CapacityForInput(d.table, input) < |input| / 4 * 3
  {
  }

  lemma DataIsAll(d: Decoder, input: seq<byte>)
    requires !d.padded
    ensures DataEnd(d.table, d.padded, input, 0) == |input|
  {
    DataEndIsFirst(d.table, d.padded, input, 0, 0);
  }

  /** What a failing scan leaves is no more than the whole quartets of what it pushed. */
  lemma SpilledLen(backend: Backend, d: Decoder, input: seq<byte>, w: seq<byte>)
    requires Spilled(backend, d, input, w)
    ensures |w| % 3 == 0 && |w| <= |Stream(d, input, DataEnd(d.table, d.padded, input, 0))| / 4 * 3
  {
    hide Stream, DataEnd, Spills, HasForbidden;
    var n := DataEnd(d.table, d.padded, input, 0);
    if !HasForbidden(d, input, n) {
      SpillsLen(backend, d, input, n, w);
    }
  }

  lemma SpillsLen(backend: Backend, d: Decoder, input: seq<byte>, n: nat, w: seq<byte>)
    requires Spills(backend, d, input, n, w)
    ensures |w| % 3 == 0 && |w| <= |Stream(d, input, n)| / 4 * 3
  {
    hide Stream, Halted, Pushed, ScanCuts, StrictEnd, Kept;
    var s := Stream(d, input, n);
    match ScanCuts(d, input, n) {
      case Stops(c) =>
        HaltedWithin(backend, s, c, w);
      case Stages(count) =>
        var c := Chunk(|s| - count, count);
        if Halted(backend, s, c, w) {
          HaltedWithin(backend, s, c, w);
        } else {
          PushedLen(s, c.start, w);
        }
    }
  }

  lemma HaltedWithin(backend: Backend, s: seq<byte>, c: Chunk, w: seq<byte>)
    requires Halted(backend, s, c, w)
    ensures |w| % 3 == 0 && |w| <= |s| / 4 * 3
  {
    hide Halted;
    HaltedLen(backend, s, c, w);
  }

  lemma PushedLen(s: seq<byte>, n: nat, w: seq<byte>)
    requires Pushed(s, n, w)
    ensures |w| == n / 4 * 3 && |w| % 3 == 0 && n <= |s| && |w| <= |s| / 4 * 3
  {
    hide Valid;
  }

  /** The symbol in front of the end of the whole quartets is the invalid '='. */
  lemma LastInvalid(d: Decoder, input: seq<byte>)
    requires Consistent(d) && FinalEquals(d, input) && !HasForbidden(d, input, |input|)
    requires |input| / 4 * 4 <= |Stream(d, input, |input|)|
    ensures var t := |input| / 4 * 4; !Valid(Standard, Stream(d, input, |input|), t - 1, t)
  {
    hide Kept, TranslateByte, StrictValue, Searches;
    var n, t := |input|, |input| / 4 * 4;
    assert !Searches(d.forbidden, input[n - 1]) && input[n - 1] == EQUALS;
    var kept := Kept(d.table, input, n);
    KeptRun(d.table, input, t - 1, n);
    assert input[t - 1..n] == if n == t then [EQUALS] else [EQUALS, EQUALS];
    assert kept[t - 1] == EQUALS;
    assert Stream(d, input, n)[t - 1] == TranslateByte(d.translation, EQUALS);
  }

  // ----- exactly these are stored whole -----

  /** The end of a scan that pushed everything: the rest is decoded if the length allows it. */
  lemma EndStores(d: Decoder, input: seq<byte>, o: nat, w: seq<byte>)
    requires var n := |input|; var s, t := Stream(d, input, n), n / 4 * 4;
             && FinalEquals(d, input) && t <= |s| && !Valid(Standard, s, t - 1, t) && o < t && o % 4 == 0
             && Spills(Neon, d, input, n, w) && ScanCuts(d, input, n) == Stages(|s| - o)
    ensures var n := |input|; var s, t := Stream(d, input, n), n / 4 * 4;
            |w| == t / 4 * 3 <==> |s| == t && (t - o) % 64 == 0 && Valid(Standard, s, 0, LastInterval(o, t))
  {
    hide Valid, Halted, ScanCuts, Stream, Kept, Decoded;
    var n := |input|;
    var s, t, values := Stream(d, input, n), n / 4 * 4, Map(d.table, Kept(d.table, input, n));
    if |s| == t {
      assert StrictEnd(false, d.canonical, values, 0);
      ChunkStored(s, o, t, w);
    } else {
      assert !StrictEnd(false, d.canonical, values, 0);
      assert |w| == o / 4 * 3;
    }
  }

  /** A full buffer that stops the scan. */
  lemma BufferStored(s: seq<byte>, c: Chunk, t: nat, g: nat, w: seq<byte>)
    requires BadBuffer(s, c) && Halted(Neon, s, c, w) && c.start + 4096 <= t <= |s| && t % 4 == 0
    requires !Valid(Standard, s, t - 1, t) && (g == 64 || g == 4096)
    ensures |w| == t / 4 * 3 <==> t % g == 0 && Valid(Standard, s, 0, LastInterval(0, t))
  {
    hide Valid, Halted;
    BufferMultiple(c.start, t, g);
    HaltedLen(Neon, s, c, w);
    if c.start + 4096 == t {
      ChunkStored(s, c.start, t, w);
      ValidInFront(s, c, w);
    } else {
      ValidWithin(Standard, s, 0, LastInterval(0, t), c.start, c.start + 4096);
    }
  }

  lemma ValidInFront(s: seq<byte>, c: Chunk, w: seq<byte>)
    requires Halted(Neon, s, c, w)
    ensures Valid(Standard, s, 0, c.start)
  {
    hide Valid, Leaves, Decoded;
  }

  lemma BufferMultiple(start: nat, t: nat, g: nat)
    requires start % 4096 == 0 && start + 4096 <= t && (g == 64 || g == 4096)
    ensures start + 4096 == t ==> t % g == 0 && LastInterval(0, t) == start == LastInterval(start, t)
    ensures start + 4096 < t ==> start + 4096 <= LastInterval(0, t) && (start + 4096) / 4 * 3 <= (t - 1) / 4 * 3
  {
    var k, q := start / 4096, (t - 1) / 4096;
    assert start == 4096 * k && t - 1 == 4096 * q + (t - 1) % 4096;
    IntervalAt(k, 4096);
  }

  /** The last interval up to `u` bytes behind the first `k` ones. */
  lemma IntervalAt(k: nat, u: nat)
    requires 0 < u <= 4096
    ensures var o, t := 4096 * k, 4096 * k + u;
            && LastInterval(0, t) == o == LastInterval(o, t) && o % 4 == 0
            && t % 64 == u % 64 && (t % 4096 == 0 <==> u == 4096)
  {
    QuotientUnique(4096 * k + u - 1, 4096, k, u - 1);
    QuotientUnique(4096 * k + u, 64, 64 * k + u / 64, u % 64);
    QuotientUnique(4096 * k, 4, 1024 * k, 0);
    if u < 4096 {
      QuotientUnique(4096 * k + u, 4096, k, u);
    } else {
      QuotientUnique(4096 * k + u, 4096, k + 1, 0);
    }
  }

  lemma BufferEnd(size: nat, t: nat, o: nat)
    requires o == size - size % 4096 && o < t <= size <= t + 1 && t % 4 == 0
    ensures LastInterval(0, t) == o == LastInterval(o, t) && o % 4 == 0
    ensures ((t - o) % 64 == 0 <==> t % 64 == 0) && t % 4096 != 0
  {
    IntervalAt(size / 4096, t - o);
  }

  lemma BufferedOverruns(d: Decoder, input: seq<byte>)
    requires FinalEquals(d, input) && !HasForbidden(d, input, |input|) && d.translation.Some?
    requires |input| / 4 * 4 <= |Stream(d, input, |input|)|
    ensures var s, t, g := Stream(d, input, |input|), |input| / 4 * 4, Grain(d, input);
            && 0 < t && t % 4 == 0 && t / 4 * 3 == |input| / 4 * 3
            && (Overruns(d, input) <==> t % g == 0 && Valid(Standard, s, 0, LastInterval(0, t)))
            && (if |s| == t then g == 64 else |s| == t + 1 && g == 4096)
  {
    hide Valid, HasForbidden, UsesSpecials, Kept, LastInterval;
  }

  lemma ScanStops(d: Decoder, input: seq<byte>, n: nat, w: seq<byte>)
    requires n <= |input| && Spills(Neon, d, input, n, w)
    ensures ScanCuts(d, input, n) == RunCuts(d, input, n, 0, 0, 0) && Kept(d.table, input, 0) == []
    ensures var cuts := ScanCuts(d, input, n); cuts.Stops? ==> Halted(Neon, Stream(d, input, n), cuts.chunk, w)
  {
    hide Halted, RunCuts, Stream;
  }

  lemma BufferBefore(s: seq<byte>, c: Chunk, t: nat)
    requires BadBuffer(s, c) && |s| <= t + 1 && t % 4 == 0
    ensures c.start + 4096 <= t
  {
    hide Valid;
    MultipleBefore(c.start, |s|, t);
  }

  lemma MultipleBefore(start: nat, size: nat, t: nat)
    requires start % 4096 == 0 && start + 4096 <= size <= t + 1 && t % 4 == 0
    ensures start + 4096 <= t
  {
    var k, j := start / 4096, t / 4;
    assert start == 4096 * k && t == 4 * j;
  }

  /** All buffers, up to `o`, were valid: the rest decides, if the length lets it be decoded. */
  lemma BufferedRest(d: Decoder, input: seq<byte>, o: nat, t: nat, g: nat, w: seq<byte>)
    requires var s := Stream(d, input, |input|);
             && FinalEquals(d, input) && t == |input| / 4 * 4 && 0 < t <= |s| <= t + 1 && !Valid(Standard, s, t - 1, t)
             && Spills(Neon, d, input, |input|, w) && o <= |s| && ScanCuts(d, input, |input|) == Stages(|s| - o)
             && Valid(Standard, s, 0, o) && o == |s| - |s| % 4096 && (if |s| == t then g == 64 else g == 4096)
    ensures |w| == t / 4 * 3 <==> t % g == 0 && Valid(Standard, Stream(d, input, |input|), 0, LastInterval(0, t))
  {
    hide *;
    var s := Stream(d, input, |input|);
    if t <= o {
      ValidWithin(Standard, s, 0, o, t - 1, t);
      assert false;
    }
    BufferEnd(|s|, t, o);
    EndStores(d, input, o, w);
  }

  lemma BufferedEndIs(s: seq<byte>, cuts: Cuts)
    requires BufferedEnd(s, cuts)
    ensures cuts.Stops? ==> BadBuffer(s, cuts.chunk)
    ensures cuts.Stages? ==> cuts.count == |s| % 4096 && Valid(Standard, s, 0, |s| - cuts.count)
  {
    hide Valid, BadBuffer;
  }

  lemma BufferedExact(d: Decoder, input: seq<byte>, w: seq<byte>)
    requires Consistent(d) && FinalEquals(d, input) && d.translation.Some?
    requires !HasForbidden(d, input, |input|) && Spills(Neon, d, input, |input|, w)
    requires |input| / 4 * 4 <= |Stream(d, input, |input|)|
    ensures |w| == |input| / 4 * 3 <==> Overruns(d, input)
  {
    hide *;
    var n := |input|;
    var s, t := Stream(d, input, n), n / 4 * 4;
    LastInvalid(d, input);
    BufferedOverruns(d, input);
    ValidNothing(Standard, s, 0);
    ScanStops(d, input, n, w);
    BufferedCuts(d, input, n, 0, 0, 0);
    BufferedEndIs(s, ScanCuts(d, input, n));
    match ScanCuts(d, input, n) {
      case Stops(c) =>
        BufferBefore(s, c, t);
        BufferStored(s, c, t, Grain(d, input), w);
      case Stages(_) =>
        BufferedRest(d, input, |s| - |s| % 4096, t, Grain(d, input), w);
    }
  }

  // ----- direct pushes: a run's whole quartets are one chunk, except behind a staged fragment -----

  lemma {:induction false} KeptGap(t: Table, input: seq<byte>, lo: nat, hi: nat)
    requires lo <= hi <= |input|
    ensures |Kept(t, input, hi)| <= |Kept(t, input, lo)| + hi - lo
    ensures |Kept(t, input, hi)| == |Kept(t, input, lo)| + hi - lo ==> NextIgnored(t, input, lo, hi) == hi
    decreases hi
  {
    hide NextIgnored;
    var e := NextIgnored(t, input, lo, hi);
    if e < hi {
      KeptRun(t, input, lo, e);
      KeptShrinks(t, input, e + 1, hi);
    } else {
      KeptRun(t, input, lo, hi);
    }
  }

  lemma {:induction false} KeptShrinks(t: Table, input: seq<byte>, lo: nat, hi: nat)
    requires lo <= hi <= |input|
    ensures |Kept(t, input, hi)| <= |Kept(t, input, lo)| + hi - lo
    decreases hi
  {
    if lo < hi {
      KeptShrinks(t, input, lo, hi - 1);
    }
  }

  lemma DirectPush(s: seq<byte>, flushed: nat, more: nat)
    requires flushed + more <= |s|
    ensures var size := more / 4 * 4;
            && (Valid(Standard, s, flushed, flushed + size) ==>
                  Halt(s, false, flushed, 0, more) == None && StagedAfter(false, 0, more) == more - size)
            && (!Valid(Standard, s, flushed, flushed + size) ==>
                  Halt(s, false, flushed, 0, more) == Some(Chunk(flushed, size)))
  {
    hide Valid;
    var size := more / 4 * 4;
    CutStep(s, false, flushed, 0, more);
    ValidNothing(Standard, s, flushed);
    if size > 0 {
      CutStep(s, false, flushed + size, 0, more - size);
    }
  }

  lemma DirectExact(d: Decoder, input: seq<byte>, w: seq<byte>)
    requires Consistent(d) && FinalEquals(d, input) && d.translation.None? && |Stream(d, input, |input|)| == |input|
    requires !HasForbidden(d, input, |input|) && Spills(Neon, d, input, |input|, w)
    ensures |w| == |input| / 4 * 3 <==> Overruns(d, input)
  {
    hide Valid, Halted, RunCuts, Kept, Decoded, HasForbidden, UsesSpecials, Consistent, Halt, StagedAfter, NextIgnored,
         Translated;
    var n := |input|;
    var s, t := Stream(d, input, n), n / 4 * 4;
    LastInvalid(d, input);
    KeptStart(d.table, input);
    KeptGap(d.table, input, 0, n);
    RunStep(d, input, n, 0, 0, 0);
    ValidSplits(Standard, s, 0, t - 1, t);
    DirectPush(s, 0, n);
    ChunkStored(s, 0, t, w);
  }

  lemma KeptSkip(t: Table, input: seq<byte>, i: nat)
    requires i < |input| && t(input[i]) == IGNORED_CONFIGURED_VALUE
    ensures Kept(t, input, i + 1) == Kept(t, input, i)
  {
  }

  lemma KeptStart(t: Table, input: seq<byte>)
    ensures Kept(t, input, 0) == []
  {
  }

  /** The second of two runs, behind `staged` symbols that were no whole quartet. */
  lemma SecondPush(s: seq<byte>, o: nat, staged: nat)
    requires staged < 4 && o + staged < |s| && (|s| - o) % 4 == 0 && !Valid(Standard, s, |s| - 1, |s|)
    ensures var t := |s|; var halt := Halt(s, false, o, staged, t - o - staged);
            if staged == 0 then halt == Some(Chunk(o, t - o))
            else if t - o < 4096 then halt == None && StagedAfter(false, staged, t - o - staged) == t - o
            else if !Valid(Standard, s, o, o + 4096) then halt == Some(Chunk(o, 4096))
            else t > o + 4096 && halt == Some(Chunk(o + 4096, t - o - 4096))
  {
    hide Valid;
    var t := |s|;
    CutStep(s, false, o, staged, t - o - staged);
    if staged == 0 {
      ValidSplits(Standard, s, o, t - 1, t);
    } else if t - o >= 4096 && Valid(Standard, s, o, o + 4096) {
      if t == o + 4096 {
        ValidSplits(Standard, s, o, t - 1, t);
      } else {
        ValidSplits(Standard, s, o + 4096, t - 1, t);
        DirectPush(s, o + 4096, t - o - 4096);
      }
    }
  }

  /** One ignored byte makes two runs: the second starts behind the whole quartets of the first, if these are valid. */
  ghost predicate TwoRuns(d: Decoder, input: seq<byte>, o: nat, t: nat) {
    var n := |input|;
    var s, p := Stream(d, input, n), NextIgnored(d.table, input, 0, n);
    && |s| == t == n - 1 && o == Origin(d, input) == p / 4 * 4 && p < t
    && |Kept(d.table, input, p)| == p == |Kept(d.table, input, p + 1)| && NextIgnored(d.table, input, p + 1, n) == n
    && ScanCuts(d, input, n) == (if Valid(Standard, s, 0, o) then RunCuts(d, input, n, p + 1, o, p - o)
                                 else Stops(Chunk(0, o)))
  }

  lemma SkipRuns(d: Decoder, input: seq<byte>)
    requires Consistent(d) && FinalEquals(d, input) && d.translation.None?
    requires |input| / 4 * 4 <= |Stream(d, input, |input|)| < |input|
    ensures TwoRuns(d, input, Origin(d, input), |input| / 4 * 4)
  {
    hide Valid, RunCuts, Kept, UsesSpecials, Consistent, Halt, StagedAfter, NextIgnored, Translated, Stream;
    var n := |input|;
    var s, t, p := Stream(d, input, n), n / 4 * 4, NextIgnored(d.table, input, 0, n);
    var o := p / 4 * 4;
    KeptStart(d.table, input);
    KeptRun(d.table, input, 0, p);
    assert |input[0..p]| == p;
    KeptGap(d.table, input, 0, n);
    assert p < n;
    KeptSkip(d.table, input, p);
    KeptGap(d.table, input, p + 1, n);
    ValidNothing(Standard, s, 0);
    if p > 0 {
      RunStep(d, input, n, 0, 0, 0);
      DirectPush(s, 0, p);
    }
    if Valid(Standard, s, 0, o) {
      RunStep(d, input, n, p, o, p - o);
      NextAtIgnored(d.table, input, p, n);
    }
  }

  lemma NextAtIgnored(t: Table, input: seq<byte>, i: nat, n: nat)
    requires i < n <= |input| && t(input[i]) == IGNORED_CONFIGURED_VALUE
    ensures NextIgnored(t, input, i, n) == i
  {
  }

  lemma DirectOverruns(d: Decoder, input: seq<byte>)
    requires FinalEquals(d, input) && !HasForbidden(d, input, |input|) && d.translation.None?
    requires |input| / 4 * 4 <= |Stream(d, input, |input|)| && Origin(d, input) < |input| / 4 * 4
    ensures var s, t, o := Stream(d, input, |input|), |input| / 4 * 4, Origin(d, input);
            && t % 4 == 0 && (t - o) % 4 == 0 && t / 4 * 3 == |input| / 4 * 3
            && (Overruns(d, input) <==> (t - o) % 64 == 0 && Valid(Standard, s, 0, LastInterval(o, t)))
  {
    hide Valid, HasForbidden, UsesSpecials, Kept, LastInterval, NextIgnored;
  }

  lemma SkipExact(d: Decoder, input: seq<byte>, w: seq<byte>)
    requires Consistent(d) && FinalEquals(d, input) && d.translation.None?
    requires |input| / 4 * 4 <= |Stream(d, input, |input|)| < |input|
    requires !HasForbidden(d, input, |input|) && Spills(Neon, d, input, |input|, w)
    ensures |w| == |input| / 4 * 3 <==> Overruns(d, input)
  {
    hide *;
    var s, t, o := Stream(d, input, |input|), |input| / 4 * 4, Origin(d, input);
    LastInvalid(d, input);
    SkipRuns(d, input);
    TwoRunsAre(d, input, o, t);
    DirectOverruns(d, input);
    ValidSplits(Standard, s, 0, o, LastInterval(o, t));
    if !Valid(Standard, s, 0, o) {
      FirstExact(d, input, o, t, w);
    } else {
      SecondExact(d, input, o, t, w);
    }
  }

  lemma TwoRunsAre(d: Decoder, input: seq<byte>, o: nat, t: nat)
    requires TwoRuns(d, input, o, t)
    ensures |Stream(d, input, |input|)| == t && o < t
  {
    hide ScanCuts, RunCuts, Kept, NextIgnored, Valid, Origin, Translated;
  }

  /** The first run is stopped. */
  lemma FirstExact(d: Decoder, input: seq<byte>, o: nat, t: nat, w: seq<byte>)
    requires TwoRuns(d, input, o, t) && Spills(Neon, d, input, |input|, w) && t % 4 == 0 && o % 4 == 0
    requires o <= |Stream(d, input, |input|)| && !Valid(Standard, Stream(d, input, |input|), 0, o)
    ensures |w| < t / 4 * 3
  {
    hide RunCuts, ScanCuts, Kept, NextIgnored, Valid, Origin, Translated, Halted, Spills;
    ScanStops(d, input, |input|, w);
    HaltedLen(Neon, Stream(d, input, |input|), Chunk(0, o), w);
  }

  /** The second run decides. */
  lemma SecondExact(d: Decoder, input: seq<byte>, o: nat, t: nat, w: seq<byte>)
    requires TwoRuns(d, input, o, t) && FinalEquals(d, input) && d.translation.None?
    requires Spills(Neon, d, input, |input|, w)
    requires t == |input| / 4 * 4 && o < t == |Stream(d, input, |input|)|
    requires !Valid(Standard, Stream(d, input, |input|), t - 1, t) && Valid(Standard, Stream(d, input, |input|), 0, o)
    ensures |w| == t / 4 * 3 <==> (t - o) % 64 == 0 && Valid(Standard, Stream(d, input, |input|), 0, LastInterval(o, t))
  {
    hide Valid, Halted, RunCuts, Kept, Decoded, HasForbidden, UsesSpecials, Halt, StagedAfter, NextIgnored, Translated,
         Stream, Spills, LastInterval, Origin;
    var n := |input|;
    var s, p := Stream(d, input, n), NextIgnored(d.table, input, 0, n);
    ScanStops(d, input, n, w);
    RunStep(d, input, n, p + 1, o, p - o);
    SecondPush(s, o, p - o);
    if p - o > 0 && t - o >= 4096 {
      SkipBuffer(s, o, t, w);
    } else if p - o > 0 {
      RunEnd(d, input, n, o, t - o);
      EndStores(d, input, o, w);
    } else {
      ChunkStored(s, o, t, w);
    }
  }

  lemma RunEnd(d: Decoder, input: seq<byte>, n: nat, flushed: nat, staged: nat)
    requires n <= |input| && staged < CONFIGURED_STAGING_CAPACITY && flushed + staged == |Kept(d.table, input, n)|
    ensures RunCuts(d, input, n, n, flushed, staged) == Stages(staged)
  {
  }

  /** A fragment fills the buffer before the rest of its run is one chunk. */
  lemma SkipBuffer(s: seq<byte>, o: nat, t: nat, w: seq<byte>)
    requires o + 4096 <= t == |s| && (t - o) % 4 == 0 && !Valid(Standard, s, t - 1, t) && Valid(Standard, s, 0, o)
    requires if !Valid(Standard, s, o, o + 4096) then Halted(Neon, s, Chunk(o, 4096), w)
             else t > o + 4096 && Halted(Neon, s, Chunk(o + 4096, t - o - 4096), w)
    ensures |w| == t / 4 * 3 <==> (t - o) % 64 == 0 && Valid(Standard, s, 0, LastInterval(o, t))
  {
    hide Valid, Halted;
    if t == o + 4096 {
      ValidSplits(Standard, s, o, t - 1, t);
      ChunkStored(s, o, t, w);
    } else if Valid(Standard, s, o, o + 4096) {
      ChunkStored(s, o + 4096, t, w);
      assert LastInterval(o, t) == LastInterval(o + 4096, t);
    } else {
      HaltedLen(Neon, s, Chunk(o, 4096), w);
      assert o + 4096 <= LastInterval(o, t);
      ValidSplits(Standard, s, o, o + 4096, LastInterval(o, t));
      ValidSplits(Standard, s, 0, o, LastInterval(o, t));
    }
  }

  // ----- the space of an allocating decode -----

  /** On Neon the estimate is exceeded exactly by the inputs of `Overruns`. */
  lemma OverrunIsExact(d: Decoder, input: seq<byte>, w: seq<byte>)
    requires Consistent(d) && FinalEquals(d, input) && Spilled(Neon, d, input, w)
    ensures |w| <= CapacityForInput(d.table, input) <==> !Overruns(d, input)
  {
    hide Valid, Halted, Spills, Stream, Kept, HasForbidden, UsesSpecials, Consistent, DataEnd, CapacityForInput;
    var n := |input|;
    DataIsAll(d, input);
    SpilledLen(Neon, d, input, w);
    CapacityAt(d, input);
    if !HasForbidden(d, input, n) && n / 4 * 4 <= |Stream(d, input, n)| {
      if d.translation.Some? {
        BufferedExact(d, input, w);
      } else if |Stream(d, input, n)| == n {
        DirectExact(d, input, w);
      } else {
        SkipExact(d, input, w);
      }
    }
  }

  /** The other backends store a valid prefix, which the final '=' is not in. */
  lemma ValidPrefixFits(backend: Backend, d: Decoder, input: seq<byte>, w: seq<byte>)
    requires Consistent(d) && FinalEquals(d, input) && backend != Neon && Spilled(backend, d, input, w)
    ensures |w| <= CapacityForInput(d.table, input)
  {
    hide Valid, Halted, Spills, Stream, Kept, HasForbidden, UsesSpecials, Consistent, DataEnd, CapacityForInput;
    var n := |input|;
    DataIsAll(d, input);
    SpilledLen(backend, d, input, w);
    CapacityAt(d, input);
    if !HasForbidden(d, input, n) && n / 4 * 4 <= |Stream(d, input, n)| {
      var s, t := Stream(d, input, n), n / 4 * 4;
      LastInvalid(d, input);
      SpillsValid(backend, d, input, n, w);
      if |w| / 3 * 4 >= t {
        ValidWithin(Standard, s, 0, |w| / 3 * 4, t - 1, t);
      }
    }
  }

  lemma SpillsValid(backend: Backend, d: Decoder, input: seq<byte>, n: nat, w: seq<byte>)
    requires n <= |input| && backend != Neon && Spills(backend, d, input, n, w)
    ensures |w| / 3 * 4 <= |Stream(d, input, n)| && Valid(Standard, Stream(d, input, n), 0, |w| / 3 * 4)
  {
    hide Valid, Decoded, Halted, Stream, Kept, ScanCuts;
    var s := Stream(d, input, n);
    match ScanCuts(d, input, n) {
      case Stops(c) =>
        HaltedValid(backend, s, c, w);
      case Stages(count) =>
        var c := Chunk(|s| - count, count);
        if Halted(backend, s, c, w) {
          HaltedValid(backend, s, c, w);
        }
    }
  }

  lemma HaltedValid(backend: Backend, s: seq<byte>, c: Chunk, w: seq<byte>)
    requires backend != Neon && Halted(backend, s, c, w)
    ensures |w| / 3 * 4 <= |s| && Valid(Standard, s, 0, |w| / 3 * 4)
  {
    hide Valid, Decoded;
    var x, v := s[c.start..c.start + c.size], w[c.start / 4 * 3..];
    var y := x[..|x| / 4 * 4];
    ValidSlice(Standard, s, c.start, c.start + c.size);
    var q := if |x| % 4 == 1 then 0 else |v| / 3;
    ValidNothing(Standard, y, 0);
    PrefixSlice(Standard, x, |y|, 4 * q);
    ValidSplits(Standard, s, 0, c.start, c.start + 4 * q);
    assert |w| == c.start / 4 * 3 + 3 * q;
  }
}
