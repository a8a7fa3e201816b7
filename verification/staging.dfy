/** The staging buffer between a scanner and its output: fragments of symbols are collected, whole
buffers are translated and decoded, and long untranslated runs bypass the buffer. */
module Staging {
  import opened Bytes
  import opened Alphabet
  import opened Quantum
  import opened Vectors
  import opened Strict
  import opened StrictApi
  import opened StagingCuts

  /** Two simultaneous byte replacements. */
  datatype Translation = Translation(source0: byte, target0: byte, source1: byte, target1: byte)

  function TranslateByte(t: Option<Translation>, b: byte): byte {
    match t
    case None => b
    case Some(tr) => if b == tr.source0 then tr.target0 else if b == tr.source1 then tr.target1 else b
  }

  function Translated(t: Option<Translation>, s: seq<byte>): (r: seq<byte>)
    ensures |r| == |s|
  {
    Map((b: byte) => TranslateByte(t, b), s)
  }

  lemma TranslatedConcat(t: Option<Translation>, s: seq<byte>, u: seq<byte>)
    ensures Translated(t, s + u) == Translated(t, s) + Translated(t, u)
  {
    hide TranslateByte;
    MapConcat((b: byte) => TranslateByte(t, b), s, u);
  }

  lemma TranslatedNone(s: seq<byte>)
    ensures Translated(None, s) == s
  {
  }

  lemma AllValidConcat(a: DecodeAlphabet, s: seq<byte>, u: seq<byte>)
    ensures AllValid(a, s + u) <==> AllValid(a, s) && AllValid(a, u)
  {
    hide StrictValue;
    if AllValid(a, s + u) {
      forall k | 0 <= k < |s| ensures StrictValue(a, s[k]) < 64 { assert (s + u)[k] == s[k]; }
      forall k | 0 <= k < |u| ensures StrictValue(a, u[k]) < 64 { assert (s + u)[|s| + k] == u[k]; }
    }
  }

  /** Symbols `u` behind whole quartets `s`: lengths, validity and decoding split. */
  lemma SymbolsSplit(s: seq<byte>, u: seq<byte>)
    requires |s| % 4 == 0
    ensures |s + u| % 4 == |u| % 4
    ensures |Decoded(Standard, s)| == |s| / 4 * 3
    ensures DecodedSymbolLen(|s + u|) == |s| / 4 * 3 + DecodedSymbolLen(|u|)
    ensures AllValid(Standard, s + u) <==> AllValid(Standard, s) && AllValid(Standard, u)
    ensures Decoded(Standard, s + u) == Decoded(Standard, s) + Decoded(Standard, u)
  {
    hide StrictValue;
    AllValidConcat(Standard, s, u);
    DecodedSymbolLenSplit(|s|, |u|);
    DecodedConcat(Standard, s, u);
  }

  class StagingBuffer {
    const bytes: array<byte>
    var initialized: nat

    ghost predicate Valid()
      reads this
    {
      bytes.Length == CONFIGURED_STAGING_CAPACITY && initialized <= CONFIGURED_STAGING_CAPACITY
    }

    ghost function Contents(): (s: seq<byte>)
      requires Valid()
      reads this, bytes
      ensures |s| == initialized
    {
      bytes[..initialized]
    }

    constructor ()
      ensures Valid() && Contents() == [] && fresh(bytes)
    {
      bytes := new byte[CONFIGURED_STAGING_CAPACITY](_ => 0);
      initialized := 0;
    }

    /** Appends what fits. */
    method ExtendFromSlice(input: seq<byte>) returns (copied: nat)
      requires Valid()
      modifies this, bytes
      ensures Valid() && copied <= |input|
      ensures copied == |input| || initialized == CONFIGURED_STAGING_CAPACITY
      ensures Contents() == old(Contents()) + input[..copied]
    {
      var room := CONFIGURED_STAGING_CAPACITY - initialized;
      copied := if |input| < room then |input| else room;
      StoreInto(bytes, initialized, input[..copied]);
      assert bytes[..initialized + copied] == old(Contents()) + input[..copied];
      initialized := initialized + copied;
    }

    method Push(value: byte)
      requires Valid() && initialized < CONFIGURED_STAGING_CAPACITY
      modifies this, bytes
      ensures Valid() && Contents() == old(Contents()) + [value]
    {
      bytes[initialized] := value;
      initialized := initialized + 1;
    }

    /** Applies the replacements to the initialized bytes in place. */
    method Translate(t: Option<Translation>)
      requires Valid()
      modifies bytes
      ensures Valid() && Contents() == Translated(t, old(Contents()))
    {
      hide TranslateByte;
      if t.None? {
        TranslatedNone(Contents());
        return;
      }
      var k := 0;
      while k < initialized
        invariant 0 <= k <= initialized && Valid()
        invariant forall j :: 0 <= j < k ==> bytes[j] == TranslateByte(t, old(bytes[j]))
        invariant forall j :: k <= j < initialized ==> bytes[j] == old(bytes[j])
      {
        bytes[k] := TranslateByte(t, bytes[k]);
        k := k + 1;
      }
    }

    method Clear()
      requires Valid()
      modifies this
      ensures Valid() && Contents() == []
    {
      initialized := 0;
    }
  }

  /** Decodes staged symbols: checked, or known to be valid. */
  method DecodeStaging(backend: Backend, wide: bool, checked: bool, input: seq<byte>, output: array<byte>, at: nat)
    returns (r: Option<nat>, ghost w: seq<byte>)
    requires !checked ==> AllValid(Standard, input) && |input| % 4 != 1
    requires at + DecodedSymbolLen(|input|) <= output.Length
    modifies output
    ensures r.Some? <==> AllValid(Standard, input) && |input| % 4 != 1
    ensures r.Some? ==> r.value == DecodedSymbolLen(|input|)
    ensures r.Some? ==> output[..] == Store(old(output[..]), at, Decoded(Standard, input))
    ensures r.None? ==> Leaves(backend, Standard, input, w)
    ensures |w| <= DecodedSymbolLen(|input|) && output[..] == Store(old(output[..]), at, w)
  {
    hide Store, Decoded, Valid, DecodedSymbolLen, Left;
    w := [];
    StoreNothing(output[..], at);
    if checked {
      var layout := DecodeUnpaddedLayout(input);
      if layout.None? {
        return None, w;
      }
      var ok;
      ghost var q;
      ok, q, w := DecodeUnpaddedToPtr(backend, wide, Partial, Standard, input, output, at);
      r := if ok then Some(layout.value.outputLen) else None;
    } else {
      var n := DecodeStandardValidated(backend, wide, input, output, at);
      w := Decoded(Standard, input);
      r := Some(n);
    }
  }

  class StagingWriter {
    const backend: Backend
    const wide: bool
    const output: array<byte>
    const base: nat
    const staging: StagingBuffer
    var written: nat
    var translation: Option<Translation>
    ghost const before: seq<byte>
    /** The translated symbols whose decoding is in the output; always whole quartets while staging. */
    ghost var flushed: seq<byte>
    /** The bytes that were stored from `base` on. */
    ghost var stored: seq<byte>

    ghost predicate Ready()
      reads this, staging
    {
      staging.Valid() && staging.bytes != output && |before| == output.Length
    }

    /** The output holds what was stored and is otherwise as it was; after a failure too. */
    ghost predicate Holds()
      reads this, output
    {
      base + |stored| <= |before| && output[..] == Store(before, base, stored)
    }

    /** Valid, except that the staging buffer may be full. */
    ghost predicate Pending()
      reads this, staging, staging.bytes, output
    {
      && Ready() && Holds()
      && |flushed| % 4 == 0 && written == |flushed| / 4 * 3 == |stored|
      && AllValid(Standard, flushed) && stored == Decoded(Standard, flushed)
    }

    ghost predicate Valid()
      reads this, staging, staging.bytes, output
    {
      Pending() && staging.initialized < CONFIGURED_STAGING_CAPACITY
    }

    /** Everything pushed so far, translated. */
    ghost function Symbols(): (s: seq<byte>)
      requires Ready()
      reads this, staging, staging.bytes
      ensures |s| == |flushed| + staging.initialized
    {
      flushed + Translated(translation, staging.Contents())
    }

    constructor (backend: Backend, wide: bool, output: array<byte>, base: nat, translation: Option<Translation>)
      requires base <= output.Length
      ensures Valid() && Symbols() == [] && fresh(staging) && fresh(staging.bytes)
      ensures this.output == output && this.base == base && this.before == output[..]
      ensures this.translation == translation && this.backend == backend
    {
      this.backend, this.wide := backend, wide;
      this.output, this.base := output, base;
      this.staging := new StagingBuffer();
      this.written, this.translation := 0, translation;
      this.before, this.flushed, this.stored := output[..], [], [];
      new;
      StoreNothing(before, base);
    }

    /** Translation changes only while nothing is staged. */
    method SetTranslation(translation: Option<Translation>)
      requires Valid() && staging.initialized == 0
      modifies this`translation
      ensures Valid() && this.translation == translation && Symbols() == old(Symbols())
    {
      this.translation := translation;
    }

    lemma Begin()
      requires Valid()
      ensures Ready() && staging.initialized < CONFIGURED_STAGING_CAPACITY
      ensures |Symbols()| == |flushed| + staging.initialized
    {
    }

    lemma HoldsStored()
      requires Holds()
      ensures base + |stored| <= |before| && output[..] == Store(before, base, stored)
    {
    }

    /** Decodes a chunk behind what is already stored. */
    method DecodeBehind(checked: bool, chunk: seq<byte>) returns (r: Option<nat>)
      requires Pending() && base + DecodedSymbolLen(|flushed + chunk|) <= output.Length
      requires !checked ==> AllValid(Standard, chunk) && |chunk| % 4 != 1
      modifies this`stored, output
      ensures Ready() && Holds()
      ensures r.Some? <==> AllValid(Standard, chunk) && |chunk| % 4 != 1
      ensures r.Some? ==> r.value == DecodedSymbolLen(|chunk|) && stored == Decoded(Standard, flushed + chunk)
      ensures r.None? ==> Halted(backend, flushed + chunk, Chunk(|flushed|, |chunk|), stored)
    {
      hide Store, Vectors.Valid, AllValid, DecodedSymbolLen, Decoded, Leaves;
      ghost var head := stored;
      SymbolsSplit(flushed, chunk);
      ghost var w;
      r, w := DecodeStaging(backend, wide, checked, chunk, output, base + written);
      StoreJoin(before, base, head, w);
      if r.Some? {
        StoreJoin(before, base, head, Decoded(Standard, chunk));
        stored := head + Decoded(Standard, chunk);
      } else {
        stored := head + w;
        HaltedHere(backend, flushed, chunk, w);
      }
    }

    /** Decodes the staged symbols. */
    method Flush(checked: bool) returns (ok: bool)
      requires Pending()
      requires base + DecodedSymbolLen(|Symbols()|) <= output.Length
      requires !checked ==> AllValid(Standard, Symbols()) && |Symbols()| % 4 != 1
      modifies this`written, this`flushed, this`stored, staging, staging.bytes, output
      ensures Ready() && Holds() && staging.initialized == 0
      ensures ok <==> AllValid(Standard, old(Symbols())) && old(|Symbols()|) % 4 != 1
      ensures ok ==> written == DecodedSymbolLen(|flushed|)
      ensures ok ==> flushed == old(Symbols()) && Symbols() == flushed && AllValid(Standard, flushed)
      ensures ok ==> stored == Decoded(Standard, flushed)
      ensures ok && |flushed| % 4 == 0 ==> Valid()
      ensures !ok ==> Halted(backend, old(Symbols()), Chunk(old(|flushed|), old(staging.initialized)), stored)
    {
      hide Store, Vectors.Valid, AllValid, Translated, DecodedSymbolLen, Decoded, Halted;
      ghost var symbols := Symbols();
      staging.Translate(translation);
      var staged := staging.bytes[..staging.initialized];
      assert symbols == flushed + staged;
      SymbolsSplit(flushed, staged);
      var r := DecodeBehind(checked, staged);
      if r.Some? {
        written := written + r.value;
        flushed := symbols;
        if |symbols| % 4 == 0 {
          SymbolsSplit(symbols, []);
        }
      }
      staging.Clear();
      TranslatedSplitEmpty(translation);
      ok := r.Some?;
    }

    /** One round of `PushStagedSymbols`: stages as much as the buffer has room for, and flushes a full buffer. */
    method StageSome(checked: bool, rest: seq<byte>) returns (ok: bool, n: nat)
      requires Valid() && rest != []
      requires base + DecodedSymbolLen(|Symbols()| + |rest|) <= output.Length
      requires !checked ==> AllValid(Standard, Symbols() + Translated(translation, rest))
      modifies this`written, this`flushed, this`stored, staging, staging.bytes, output
      ensures Ready() && Holds() && 0 < n <= |rest|
      ensures ok ==> Valid() && Symbols() == old(Symbols()) + Translated(translation, rest[..n])
      ensures !ok ==> !AllValid(Standard, old(Symbols()) + Translated(translation, rest[..n]))
      ensures Cut(true, old(Symbols()) + Translated(translation, rest[..n]), old(|flushed|), old(staging.initialized),
                  |rest|, n, ok)
    {
      hide Store, Vectors.Valid, AllValid, Translated, DecodedSymbolLen, Decoded, Halted;
      ghost var start, staged := Symbols(), staging.Contents();
      ok := true;
      n := staging.ExtendFromSlice(rest);
      assert rest[0..n] == rest[..n];
      assert start + Translated(translation, rest[..0]) == start by {
        PushedPrefix(start, translation, rest, 0);
      }
      StagedMore(start, flushed, translation, staged, rest, 0, n);
      PushedPrefix(start, translation, rest, n);
      DecodedSymbolLenMonotone(|start| + n, |start| + |rest|);
      if staging.initialized == CONFIGURED_STAGING_CAPACITY {
        ok := Flush(checked);
      }
    }

    /** Collects symbols in the staging buffer, flushing whenever it is full. */
    method PushStagedSymbols(checked: bool, input: seq<byte>) returns (ok: bool)
      requires Valid()
      requires base + DecodedSymbolLen(|Symbols()| + |input|) <= output.Length
      requires !checked ==> AllValid(Standard, Symbols() + Translated(translation, input))
      modifies this`written, this`flushed, this`stored, staging, staging.bytes, output
      ensures Ready() && Holds()
      ensures ok ==> Valid() && Symbols() == old(Symbols()) + Translated(translation, input)
      ensures !ok ==> !AllValid(Standard, old(Symbols()) + Translated(translation, input))
      ensures Follows(true, old(Symbols()) + Translated(translation, input), old(|flushed|), old(staging.initialized),
                      |input|, ok)
    {
      hide *;
      Begin();
      ghost var start, f0, n0 := Symbols(), |flushed|, staging.initialized;
      ghost var all := start + Translated(translation, input);
      var source := 0;
      ok := true;
      PushedPrefix(start, translation, input, 0);
      GoesOnFirst(all, true, f0, n0, |input|);
      while source < |input|
        invariant source <= |input| && Ready() && Valid()
        invariant Symbols() == start + Translated(translation, input[..source])
        invariant GoesOn(all, true, f0, n0, |input|, |flushed|, staging.initialized, |input| - source)
      {
        PushedPrefix(start, translation, input, source);
        PushedRest(start, translation, input, source);
        ghost var f, at := |flushed|, staging.initialized;
        var n;
        ok, n := StageSome(checked, input[source..]);
        assert input[source..][..n] == input[source..source + n];
        PushedMore(start, translation, input, source, source + n);
        PushedPrefix(start, translation, input, source + n);
        PushedUpTo(start, translation, input, source + n);
        CutDone(all, start + Translated(translation, input[..source + n]), true, f0, n0, |input|, f, at,
                |input| - source, n, ok);
        if !ok {
          return;
        }
        source := source + n;
      }
      assert input[..source] == input;
      PushDone(all, true, f0, n0, |input|);
    }

    /** One round of `PushSymbols`: whole quartets directly when nothing is staged, else a fragment. */
    method PushSome(checked: bool, rest: seq<byte>) returns (ok: bool, n: nat)
      requires Valid() && translation.None? && rest != []
      requires base + DecodedSymbolLen(|Symbols()| + |rest|) <= output.Length
      requires !checked ==> AllValid(Standard, Symbols() + Translated(translation, rest))
      modifies this`written, this`flushed, this`stored, staging, staging.bytes, output
      ensures Ready() && Holds() && 0 < n <= |rest|
      ensures ok ==> Valid() && Symbols() == old(Symbols()) + Translated(translation, rest[..n])
      ensures !ok ==> !AllValid(Standard, old(Symbols()) + Translated(translation, rest[..n]))
      ensures Cut(false, old(Symbols()) + Translated(translation, rest[..n]), old(|flushed|), old(staging.initialized),
                  |rest|, n, ok)
    {
      hide *;
      Begin();
      ghost var start, f, at := Symbols(), |flushed|, staging.initialized;
      PushedPrefix(start, translation, rest, 0);
      var direct := |rest| / 4 * 4;
      if staging.initialized == 0 && direct != 0 {
        n := direct;
        PushedPrefix(start, translation, rest, n);
        DecodedSymbolLenMonotone(|start| + n, |start| + |rest|);
        DirectStart(start, rest, n);
        ok := PushDirect(checked, rest[..n]);
        DirectCut(start + Translated(translation, rest[..n]), f, |rest|, ok);
      } else {
        var room := CONFIGURED_STAGING_CAPACITY - staging.initialized;
        n := if |rest| < room then |rest| else room;
        PushedPrefix(start, translation, rest, n);
        DecodedSymbolLenMonotone(|start| + n, |start| + |rest|);
        ok := PushStagedSymbols(checked, rest[..n]);
        StagedCut(start + Translated(translation, rest[..n]), f, at, |rest|, n, ok);
      }
    }

    lemma DirectStart(start: seq<byte>, rest: seq<byte>, n: nat)
      requires Valid() && translation.None? && staging.initialized == 0 && start == Symbols() && n <= |rest|
      ensures flushed + rest[..n] == start + Translated(translation, rest[..n])
    {
      hide Store, AllValid, Translated, Decoded;
      PushedPrefix(start, translation, rest, 0);
      assert rest[0..n] == rest[..n];
      DirectMore(start, flushed, staging.Contents(), rest, 0, n);
    }

    lemma DirectCut(s: seq<byte>, flushed0: nat, more: nat, ok: bool)
      requires Ready() && staging.initialized == 0 && more / 4 * 4 > 0
      requires ok ==> Valid() && flushed == s && |flushed| == flushed0 + more / 4 * 4
      requires !ok ==> Halted(backend, s, Chunk(flushed0, more / 4 * 4), stored)
      ensures ok ==> Holds()
      ensures Cut(false, s, flushed0, 0, more, more / 4 * 4, ok)
    {
      hide Store, AllValid, Decoded, Halted;
    }

    lemma StagedCut(s: seq<byte>, flushed0: nat, staged0: nat, more: nat, n: nat, ok: bool)
      requires staged0 < CONFIGURED_STAGING_CAPACITY && (staged0 > 0 || more < 4)
      requires var room := CONFIGURED_STAGING_CAPACITY - staged0; n == if more < room then more else room
      requires |s| == flushed0 + staged0 + n && Follows(true, s, flushed0, staged0, n, ok)
      requires ok ==> Ready() && |Symbols()| == |s|
      ensures Cut(false, s, flushed0, staged0, more, n, ok)
    {
      hide Halted, Translated, Halt, StagedAfter;
      OneCut(s, flushed0, staged0, more);
    }

    /** Runs without translation skip the buffer: their whole quartets decode straight to the output. */
    method PushSymbols(checked: bool, input: seq<byte>) returns (ok: bool)
      requires Valid()
      requires base + DecodedSymbolLen(|Symbols()| + |input|) <= output.Length
      requires !checked ==> AllValid(Standard, Symbols() + Translated(translation, input))
      modifies this`written, this`flushed, this`stored, staging, staging.bytes, output
      ensures Ready() && Holds()
      ensures ok ==> Valid() && Symbols() == old(Symbols()) + Translated(translation, input)
      ensures !ok ==> !AllValid(Standard, old(Symbols()) + Translated(translation, input))
      ensures Follows(translation.Some?, old(Symbols()) + Translated(translation, input), old(|flushed|),
                      old(staging.initialized), |input|, ok)
    {
      hide *;
      Begin();
      if translation.Some? {
        ok := PushStagedSymbols(checked, input);
        return;
      }
      ghost var start, f0, n0 := Symbols(), |flushed|, staging.initialized;
      ghost var all := start + Translated(translation, input);
      var source := 0;
      ok := true;
      PushedPrefix(start, translation, input, 0);
      GoesOnFirst(all, false, f0, n0, |input|);
      while source < |input|
        invariant source <= |input| && Ready() && Valid()
        invariant Symbols() == start + Translated(translation, input[..source])
        invariant GoesOn(all, false, f0, n0, |input|, |flushed|, staging.initialized, |input| - source)
      {
        PushedPrefix(start, translation, input, source);
        PushedRest(start, translation, input, source);
        ghost var f, at := |flushed|, staging.initialized;
        var n;
        ok, n := PushSome(checked, input[source..]);
        assert input[source..][..n] == input[source..source + n];
        PushedMore(start, translation, input, source, source + n);
        PushedPrefix(start, translation, input, source + n);
        PushedUpTo(start, translation, input, source + n);
        CutDone(all, start + Translated(translation, input[..source + n]), false, f0, n0, |input|, f, at,
                |input| - source, n, ok);
        if !ok {
          return;
        }
        source := source + n;
      }
      assert input[..source] == input;
      PushDone(all, false, f0, n0, |input|);
    }

    /** Decodes whole quartets behind the flushed ones. */
    method PushDirect(checked: bool, chunk: seq<byte>) returns (ok: bool)
      requires Valid() && translation.None? && staging.initialized == 0 && |chunk| % 4 == 0
      requires base + DecodedSymbolLen(|flushed + chunk|) <= output.Length
      requires !checked ==> AllValid(Standard, flushed + chunk)
      modifies this`written, this`flushed, this`stored, output
      ensures Ready() && Holds() && staging.initialized == 0
      ensures ok ==> Valid() && flushed == old(flushed) + chunk && Symbols() == flushed
      ensures !ok ==> !AllValid(Standard, old(flushed) + chunk)
      ensures !ok ==> Halted(backend, old(flushed) + chunk, Chunk(old(|flushed|), |chunk|), stored)
    {
      hide Store, Vectors.Valid, AllValid, Translated, DecodedSymbolLen, Decoded, Halted;
      SymbolsSplit(flushed, chunk);
      var r := DecodeBehind(checked, chunk);
      ok := r.Some?;
      if ok {
        SymbolsSplit(flushed + chunk, []);
        written := written + r.value;
        flushed := flushed + chunk;
        TranslatedSplitEmpty(translation);
      }
    }

    /** Pushes one 6-bit value as its standard symbol. */
    method PushValue(checked: bool, value: byte) returns (ok: bool)
      requires Valid() && value < 64
      requires base + DecodedSymbolLen(|Symbols()| + 1) <= output.Length
      requires !checked ==> AllValid(Standard, Symbols() + Translated(translation, [StandardSymbol(value)]))
      modifies this`written, this`flushed, this`stored, staging, staging.bytes, output
      ensures Ready() && Holds()
      ensures ok ==> Valid() && Symbols() == old(Symbols()) + Translated(translation, [StandardSymbol(value)])
      ensures !ok ==> !AllValid(Standard, old(Symbols()) + Translated(translation, [StandardSymbol(value)]))
      ensures Cut(true, old(Symbols()) + Translated(translation, [StandardSymbol(value)]), old(|flushed|),
                  old(staging.initialized), 1, 1, ok)
    {
      hide Store, Vectors.Valid, AllValid, Translated, DecodedSymbolLen, Decoded, Halted, StandardSymbol;
      ghost var start, staged, one := Symbols(), staging.Contents(), [StandardSymbol(value)];
      PushedPrefix(start, translation, one, 0);
      staging.Push(StandardSymbol(value));
      assert one[..1] == one && one[0..1] == one;
      StagedMore(start, flushed, translation, staged, one, 0, 1);
      ok := true;
      if staging.initialized == CONFIGURED_STAGING_CAPACITY {
        ok := Flush(checked);
      }
    }

    /** Decodes what is left and reports the total. */
    method Finish(checked: bool) returns (r: Option<nat>)
      requires Valid()
      requires base + DecodedSymbolLen(|Symbols()|) <= output.Length
      requires !checked ==> AllValid(Standard, Symbols()) && |Symbols()| % 4 != 1
      modifies this`written, this`flushed, this`stored, staging, staging.bytes, output
      ensures Ready() && Holds()
      ensures r.Some? <==> AllValid(Standard, old(Symbols())) && old(|Symbols()|) % 4 != 1
      ensures r.Some? ==> r.value == DecodedSymbolLen(old(|Symbols()|))
      ensures r.Some? ==> stored == Decoded(Standard, old(Symbols()))
      ensures r.None? ==> Halted(backend, old(Symbols()), Chunk(old(|flushed|), old(staging.initialized)), stored)
    {
      hide Store, Vectors.Valid, AllValid, Translated, DecodedSymbolLen, Decoded, Halted;
      if staging.initialized != 0 {
        var ok := Flush(checked);
        r := if ok then Some(written) else None;
      } else {
        TranslatedSplitEmpty(translation);
        assert Symbols() == flushed;
        SymbolsSplit(flushed, []);
        r := Some(written);
      }
    }

    /** The writer took one cut of `more` symbols, `n` of them, up to the end of `s`. */
    ghost predicate Cut(buffered: bool, s: seq<byte>, flushed0: nat, staged0: nat, more: nat, n: nat, ok: bool)
      requires staged0 < CONFIGURED_STAGING_CAPACITY
      reads this
    {
      var size := NextCut(buffered, staged0, more);
      && n == (if size == 0 then more else size - staged0)
      && (ok ==> |flushed| == flushed0 + size)
      && (!ok ==> size > 0 && Halted(backend, s, Chunk(flushed0, size), stored))
    }

    /** What a push of `more` symbols, up to the end of `s`, comes to: either all are pushed, or the first
        invalid chunk stopped it. */
    ghost predicate Follows(buffered: bool, s: seq<byte>, flushed0: nat, staged0: nat, more: nat, ok: bool)
      requires staged0 < CONFIGURED_STAGING_CAPACITY && flushed0 + staged0 + more <= |s|
      reads this, staging
    {
      var halt := Halt(s, buffered, flushed0, staged0, more);
      if ok then halt == None && staging.initialized == StagedAfter(buffered, staged0, more)
      else halt.Some? && Halted(backend, s, halt.value, stored)
    }

    /** One cut of a push that ends with `all`. */
    lemma CutDone(all: seq<byte>, s: seq<byte>, buffered: bool, flushed0: nat, staged0: nat, more0: nat,
                  flushed1: nat, staged1: nat, more1: nat, n: nat, ok: bool)
      requires GoesOn(all, buffered, flushed0, staged0, more0, flushed1, staged1, more1) && more1 > 0
      requires s <= all && n <= more1 && |s| == flushed1 + staged1 + n
      requires Cut(buffered, s, flushed1, staged1, more1, n, ok)
      requires ok ==> Valid() && Symbols() == s
      requires !ok ==> !AllValid(Standard, s)
      ensures ok ==> GoesOn(all, buffered, flushed0, staged0, more0, |flushed|, staging.initialized, more1 - n)
      ensures !ok ==> Follows(buffered, all, flushed0, staged0, more0, false)
    {
      hide Store, Translated, Decoded, Halted, Halt, StagedAfter;
      var size := NextCut(buffered, staged1, more1);
      CutStep(all, buffered, flushed1, staged1, more1);
      if !ok {
        HaltedPrefix(backend, s, all, Chunk(flushed1, size), stored);
        HaltedInvalid(backend, s, Chunk(flushed1, size), stored);
      } else if size == 0 {
        NoMore(all, buffered, flushed1, staged1 + more1);
      } else {
        assert flushed <= all;
        ValidBefore(flushed, all, flushed1);
      }
    }

    lemma PushDone(all: seq<byte>, buffered: bool, flushed0: nat, staged0: nat, more0: nat)
      requires Valid() && GoesOn(all, buffered, flushed0, staged0, more0, |flushed|, staging.initialized, 0)
      ensures Holds() && Follows(buffered, all, flushed0, staged0, more0, true)
    {
      NoMore(all, buffered, |flushed|, staging.initialized);
    }
  }

  /** The counting scan's validator: the same buffer, but nothing is decoded. */
  class StagingValidator {
    const backend: Backend
    const translation: Option<Translation>
    const staging: StagingBuffer
    ghost var flushed: seq<byte>

    ghost predicate Valid()
      reads this, staging
    {
      && staging.Valid() && staging.initialized < CONFIGURED_STAGING_CAPACITY
      && |flushed| % 4 == 0 && AllValid(Standard, flushed)
    }

    ghost function Symbols(): (s: seq<byte>)
      requires staging.Valid()
      reads this, staging, staging.bytes
    {
      flushed + Translated(translation, staging.Contents())
    }

    constructor (backend: Backend, translation: Option<Translation>)
      ensures Valid() && Symbols() == [] && fresh(staging) && fresh(staging.bytes)
      ensures this.translation == translation
    {
      this.backend, this.translation := backend, translation;
      this.staging := new StagingBuffer();
      this.flushed := [];
    }

    method Flush() returns (ok: bool)
      requires staging.Valid() && |flushed| % 4 == 0 && AllValid(Standard, flushed)
      modifies this, staging, staging.bytes
      ensures staging.Valid() && staging.initialized == 0
      ensures ok <==> AllValid(Standard, old(Symbols())) && old(|Symbols()|) % 4 != 1
      ensures ok ==> flushed == old(Symbols()) && Symbols() == flushed && AllValid(Standard, flushed)
    {
      hide Vectors.Valid, AllValid, Translated;
      ghost var symbols := Symbols();
      staging.Translate(translation);
      var staged := staging.bytes[..staging.initialized];
      assert symbols == flushed + staged;
      SymbolsSplit(flushed, staged);
      ok := DecodeUnpaddedLayout(staged).Some?;
      if ok {
        ok := ValidateAlphabet(backend, Standard, staged);
      }
      flushed := if ok then symbols else flushed;
      staging.Clear();
      TranslatedSplitEmpty(translation);
    }

    method Push(input: seq<byte>) returns (ok: bool)
      requires Valid()
      modifies this, staging, staging.bytes
      ensures staging.Valid()
      ensures ok ==> Valid() && Symbols() == old(Symbols()) + Translated(translation, input)
      ensures !ok ==> !AllValid(Standard, old(Symbols()) + Translated(translation, input))
    {
      hide Vectors.Valid, AllValid, Translated;
      ghost var start := Symbols();
      var source := 0;
      ok := true;
      PushedPrefix(start, translation, input, 0);
      while source < |input|
        invariant source <= |input| && Valid()
        invariant Symbols() == start + Translated(translation, input[..source])
      {
        ghost var was, staged := source, staging.Contents();
        var copied := staging.ExtendFromSlice(input[source..]);
        source := source + copied;
        assert input[was..][..copied] == input[was..source];
        StagedMore(start, flushed, translation, staged, input, was, source);
        PushedPrefix(start, translation, input, source);
        if staging.initialized == CONFIGURED_STAGING_CAPACITY {
          ok := Flush();
          if !ok {
            return;
          }
        }
      }
      assert input[..source] == input;
    }

    method Finish() returns (ok: bool)
      requires Valid()
      modifies this, staging, staging.bytes
      ensures ok <==> AllValid(Standard, old(Symbols())) && old(|Symbols()|) % 4 != 1
    {
      hide Vectors.Valid, AllValid, Translated;
      TranslatedSplitEmpty(translation);
      if staging.initialized != 0 {
        ok := Flush();
      } else {
        assert Symbols() == flushed;
        ok := true;
      }
    }
  }

  /** Chunk independence: however a run of symbols is cut into pushes, the checked writer accepts it
      exactly when the whole is valid, and then writes the decoding of the whole. */
  method StageChunks(backend: Backend, wide: bool, translation: Option<Translation>, chunks: seq<seq<byte>>,
                     output: array<byte>, base: nat)
    returns (r: Option<nat>)
    requires base + DecodedSymbolLen(|Flatten(chunks)|) <= output.Length
    modifies output
    ensures var symbols := Translated(translation, Flatten(chunks));
            r.Some? <==> AllValid(Standard, symbols) && |symbols| % 4 != 1
    ensures r.Some? ==> r.value == DecodedSymbolLen(|Flatten(chunks)|)
    ensures r.Some? ==>
              output[..] == Store(old(output[..]), base, Decoded(Standard, Translated(translation, Flatten(chunks))))
  {
    hide *;
    var writer := new StagingWriter(backend, wide, output, base, translation);
    ghost var all := Flatten(chunks);
    ghost var done: seq<byte> := [];
    var k := 0;
    TranslatedSplitEmpty(translation);
    writer.Begin();
    assert [] + all == all && chunks[0..] == chunks;
    while k < |chunks|
      invariant k <= |chunks| && fresh(writer) && fresh(writer.staging) && fresh(writer.staging.bytes)
      invariant writer.output == output && writer.base == base && writer.before == old(output[..])
      invariant writer.translation == translation
      invariant writer.Ready() && writer.Valid() && writer.Symbols() == Translated(translation, done)
      invariant all == done + Flatten(chunks[k..])
    {
      var chunk := chunks[k];
      ChunkNext(translation, chunks, k, done);
      writer.Begin();
      var ok := writer.PushSymbols(true, chunk);
      if !ok {
        return None;
      }
      done := done + chunk;
      k := k + 1;
    }
    ChunksEnd(chunks, k, done);
    r := writer.Finish(true);
    writer.HoldsStored();
  }

  /** The next chunk is pushed. */
  lemma ChunkNext(t: Option<Translation>, chunks: seq<seq<byte>>, k: nat, done: seq<byte>)
    requires k < |chunks|
    ensures done + Flatten(chunks[k..]) == done + chunks[k] + Flatten(chunks[k + 1..])
    ensures Translated(t, done + chunks[k]) == Translated(t, done) + Translated(t, chunks[k])
    ensures DecodedSymbolLen(|done| + |chunks[k]|) <= DecodedSymbolLen(|done + Flatten(chunks[k..])|)
    ensures AllValid(Standard, Translated(t, done + Flatten(chunks[k..]))) ==>
              AllValid(Standard, Translated(t, done + chunks[k]))
  {
    hide Translated, AllValid, DecodedSymbolLen;
    var chunk, rest := chunks[k], Flatten(chunks[k + 1..]);
    assert chunks[k..][1..] == chunks[k + 1..];
    ConcatAssociates(done, chunk, rest);
    TranslatedConcat(t, done, chunk);
    TranslatedConcat(t, done + chunk, rest);
    AllValidConcat(Standard, Translated(t, done + chunk), Translated(t, rest));
    DecodedSymbolLenMonotone(|done| + |chunk|, |done| + |chunk| + |rest|);
  }

  lemma ChunksEnd(chunks: seq<seq<byte>>, k: nat, done: seq<byte>)
    requires k == |chunks|
    ensures done + Flatten(chunks[k..]) == done
  {
  }


  lemma TranslatedSplitEmpty(t: Option<Translation>)
    ensures Translated(t, []) == []
  {
  }

  lemma TranslatedSlices(t: Option<Translation>, s: seq<byte>, k: nat)
    requires k <= |s|
    ensures Translated(t, s) == Translated(t, s[..k]) + Translated(t, s[k..])
    ensures Translated(t, s[..0]) == []
  {
    hide TranslateByte;
    assert s == s[..k] + s[k..];
    TranslatedConcat(t, s[..k], s[k..]);
  }

  /** Pushing part of a run leaves a prefix of what pushing all of it leaves. */
  lemma PushedPrefix(start: seq<byte>, t: Option<Translation>, input: seq<byte>, k: nat)
    requires k <= |input|
    ensures AllValid(Standard, start + Translated(t, input)) ==> AllValid(Standard, start + Translated(t, input[..k]))
    ensures |start + Translated(t, input[..k])| == |start| + k
    ensures start + Translated(t, input[..0]) == start
  {
    hide AllValid, Translated;
    TranslatedSlices(t, input, k);
    var head, tail := Translated(t, input[..k]), Translated(t, input[k..]);
    ConcatAssociates(start, head, tail);
    AllValidConcat(Standard, start + head, tail);
  }

  lemma StagedMore(start: seq<byte>, flushed: seq<byte>, t: Option<Translation>, staged: seq<byte>, input: seq<byte>,
                   was: nat, now: nat)
    requires was <= now <= |input|
    requires flushed + Translated(t, staged) == start + Translated(t, input[..was])
    ensures flushed + Translated(t, staged + input[was..now]) == start + Translated(t, input[..now])
  {
    hide Translated;
    TranslatedConcat(t, staged, input[was..now]);
    assert input[..now] == input[..was] + input[was..now];
    TranslatedConcat(t, input[..was], input[was..now]);
    ConcatAssociates(flushed, Translated(t, staged), Translated(t, input[was..now]));
    ConcatAssociates(start, Translated(t, input[..was]), Translated(t, input[was..now]));
  }

  lemma PushedRest(start: seq<byte>, t: Option<Translation>, input: seq<byte>, k: nat)
    requires k <= |input|
    ensures start + Translated(t, input[..k]) + Translated(t, input[k..]) == start + Translated(t, input)
  {
    hide Translated;
    TranslatedSlices(t, input, k);
  }

  lemma DirectMore(start: seq<byte>, flushed: seq<byte>, staged: seq<byte>, input: seq<byte>, was: nat, now: nat)
    requires was <= now <= |input| && staged == []
    requires flushed + Translated(None, staged) == start + Translated(None, input[..was])
    ensures flushed + input[was..now] == start + Translated(None, input[..now])
  {
    StagedMore(start, flushed, None, staged, input, was, now);
    hide Translated;
    assert staged + input[was..now] == input[was..now];
    TranslatedNone(input[was..now]);
  }

  lemma PushedMore(start: seq<byte>, t: Option<Translation>, input: seq<byte>, was: nat, now: nat)
    requires was <= now <= |input|
    ensures start + Translated(t, input[..was]) + Translated(t, input[was..now]) == start + Translated(t, input[..now])
  {
    hide Translated;
    assert input[..now] == input[..was] + input[was..now];
    TranslatedConcat(t, input[..was], input[was..now]);
  }

  lemma PushedUpTo(start: seq<byte>, t: Option<Translation>, input: seq<byte>, k: nat)
    requires k <= |input|
    ensures start + Translated(t, input[..k]) <= start + Translated(t, input)
  {
    hide Translated;
    TranslatedSlices(t, input, k);
    ConcatAssociates(start, Translated(t, input[..k]), Translated(t, input[k..]));
  }

  /** A failed decode of `chunk` behind the valid `flushed` symbols. */
  lemma HaltedHere(backend: Backend, flushed: seq<byte>, chunk: seq<byte>, w: seq<byte>)
    requires |flushed| % 4 == 0 && AllValid(Standard, flushed) && Leaves(backend, Standard, chunk, w)
    ensures Halted(backend, flushed + chunk, Chunk(|flushed|, |chunk|), Decoded(Standard, flushed) + w)
  {
    hide Leaves, StrictValue;
    var s, head := flushed + chunk, Decoded(Standard, flushed);
    assert s[..|flushed|] == flushed && s[|flushed|..|flushed| + |chunk|] == chunk;
    assert (head + w)[..|head|] == head && (head + w)[|head|..] == w;
    assert forall k :: 0 <= k < |flushed| ==> s[k] == flushed[k];
  }

  lemma HaltedInvalid(backend: Backend, s: seq<byte>, c: Chunk, w: seq<byte>)
    requires Halted(backend, s, c, w) && c.start + c.size == |s| && !AllValid(Standard, s)
    ensures !Vectors.Valid(Standard, s, c.start, c.start + c.size)
  {
    hide StrictValue, Leaves, Decoded;
  }

  lemma ValidBefore(s: seq<byte>, all: seq<byte>, lo: nat)
    requires AllValid(Standard, s) && s <= all && lo <= |s|
    ensures Vectors.Valid(Standard, all, lo, |s|)
  {
    hide StrictValue;
    assert forall k :: 0 <= k < |s| ==> s[k] == all[k];
  }

  /** A fragment that fits into the buffer is one cut of the whole run. */
  lemma OneCut(s: seq<byte>, flushed: nat, staged: nat, more: nat)
    requires staged < CONFIGURED_STAGING_CAPACITY && (staged > 0 || more < 4)
    requires var room := CONFIGURED_STAGING_CAPACITY - staged;
             |s| == flushed + staged + (if more < room then more else room)
    ensures var room := CONFIGURED_STAGING_CAPACITY - staged;
            var n, size := if more < room then more else room, NextCut(false, staged, more);
            && n == (if size == 0 then more else size - staged)
            && StagedAfter(true, staged, n) == staged + n - size
            && (Halt(s, true, flushed, staged, n).Some? ==>
                  size > 0 && Halt(s, true, flushed, staged, n).value == Chunk(flushed, size))
  {
    hide Vectors.Valid;
    var room := CONFIGURED_STAGING_CAPACITY - staged;
    var n := if more < room then more else room;
    CutStep(s, true, flushed, staged, n);
    if n == room {
      NoMore(s, true, flushed + CONFIGURED_STAGING_CAPACITY, 0);
    }
  }
}
