/** Where a configured scan sends its symbols: a sink that only counts and validates, or one that
writes through the staging writer. The scanners are written once for both. */
module ScanSinks {
  import opened Bytes
  import opened Alphabet
  import opened Quantum
  import opened Vectors
  import opened Strict
  import opened StrictApi
  import opened Staging
  import opened StagingCuts

  class ScanSink {
    const backend: Backend
    /** The writing sink's writer; a counting sink has none. */
    const writer: StagingWriter?
    var translation: Option<Translation>
    var validator: StagingValidator?
    /** The translated symbols pushed so far. */
    ghost var pushed: seq<byte>

    ghost function Footprint(): set<object>
      reads this
    {
      {this}
      + (if writer == null then {} else {writer, writer.staging, writer.staging.bytes, writer.output})
      + (if validator == null then {} else {validator, validator.staging, validator.staging.bytes})
    }

    ghost predicate Valid()
      reads this, Footprint()
    {
      if writer != null then
        && validator == null && writer.Valid()
        && writer.translation == translation && writer.Symbols() == pushed
      else if validator != null then
        && validator.Valid() && translation.Some?
        && validator.translation == translation && validator.Symbols() == pushed
      else
        AllValid(Standard, pushed) && (translation.Some? ==> pushed == [])
    }

    /** Room for `n` symbols in all. */
    ghost predicate Room(n: nat) {
      writer != null ==> writer.base + DecodedSymbolLen(n) <= writer.output.Length
    }

    /** A writing sink stored exactly `d`, and otherwise left its output as it was. */
    ghost predicate Wrote(d: seq<byte>)
      reads this, Footprint()
    {
      writer != null ==> writer.Holds() && writer.stored == d
    }

    /** A writing sink stored no more than the whole quartets of `n` symbols decode to. */
    ghost predicate Within(n: nat)
      reads this, Footprint()
    {
      writer != null ==> writer.Holds() && |writer.stored| <= n / 4 * 3
    }

    ghost function Flushed(): nat
      reads this, Footprint()
    {
      if writer == null then 0 else |writer.flushed|
    }

    ghost function Staged(): nat
      reads this, Footprint()
    {
      if writer == null then 0 else writer.staging.initialized
    }

    /** What became of a push of `more` symbols, up to the end of `s`. */
    ghost predicate Pushes(s: seq<byte>, flushed0: nat, staged0: nat, more: nat, ok: bool)
      reads this, Footprint()
    {
      writer != null ==>
        && writer.Holds() && staged0 < CONFIGURED_STAGING_CAPACITY && flushed0 + staged0 + more <= |s|
        && writer.Follows(translation.Some?, s, flushed0, staged0, more, ok)
    }

    /** A writing sink was stopped by a chunk of the symbols `s`. */
    ghost predicate Stopped(s: seq<byte>, c: Chunk)
      reads this, Footprint()
    {
      writer != null ==> writer.Holds() && Halted(writer.backend, s, c, writer.stored)
    }

    /** Everything flushed is in the output of a writing sink that was not stopped. */
    lemma PushedSoFar(n: nat)
      requires Valid() && writer != null && n == Flushed()
      ensures Pushed(pushed, n, writer.stored) && writer.Holds() && n + Staged() == |pushed|
      ensures Staged() < CONFIGURED_STAGING_CAPACITY
    {
      hide Store, Decoded, Translated, StrictValue;
      assert pushed[..n] == writer.flushed;
      assert forall k :: 0 <= k < n ==> pushed[k] == writer.flushed[k];
    }

    lemma StoppedWithin(s: seq<byte>, c: Chunk)
      requires Stopped(s, c)
      ensures Within(|s|)
    {
      hide Store, Halted;
      if writer != null {
        HaltedLen(writer.backend, s, c, writer.stored);
      }
    }

    lemma ValidWithin(n: nat)
      requires Valid() && |pushed| <= n
      ensures Within(n)
    {
      hide Store, Decoded, AllValid, Translated;
    }

    constructor Counting(backend: Backend)
      ensures Valid() && pushed == [] && translation == None && writer == null
      ensures fresh(Footprint())
    {
      this.backend, this.writer, this.validator := backend, null, null;
      this.translation, this.pushed := None, [];
    }

    constructor Writing(w: StagingWriter)
      requires w.Valid() && w.Symbols() == [] && w.translation == None
      ensures Valid() && pushed == [] && translation == None && writer == w
      ensures validator == null
    {
      hide AllValid, Translated, Decoded, DecodedSymbolLen, Store;
      this.backend, this.writer, this.validator := w.backend, w, null;
      this.translation, this.pushed := None, [];
    }

    method SetTranslation(t: Option<Translation>)
      requires Valid() && pushed == [] && translation == None
      modifies Footprint()
      ensures Footprint() == old(Footprint())
      ensures Valid() && pushed == [] && translation == t
    {
      hide AllValid, Translated, Decoded, Store;
      translation := t;
      if writer != null {
        writer.SetTranslation(t);
      }
    }

    /** Pushes input bytes. The counting sink looks at them only when asked to, translated bytes through
        its own staging buffer. */
    method PushSymbols(checked: bool, input: seq<byte>, validate: bool) returns (ok: bool)
      requires Valid() && Room(|pushed| + |input|)
      requires !validate ==> translation == None && AllValid(Standard, input)
      requires !checked ==> writer != null && AllValid(Standard, pushed + Translated(translation, input))
      modifies Footprint()
      ensures fresh(Footprint() - old(Footprint()))
      ensures translation == old(translation)
      ensures ok ==> Valid() && pushed == old(pushed) + Translated(translation, input)
      ensures !ok ==> !AllValid(Standard, old(pushed) + Translated(translation, input))
      ensures Pushes(old(pushed) + Translated(translation, input), old(Flushed()), old(Staged()), |input|, ok)
    {
      hide AllValid, Translated, Decoded, DecodedSymbolLen, Store, Halted, Halt, StagedAfter;
      ghost var was := pushed;
      if translation.None? {
        TranslatedNone(input);
        AllValidConcat(Standard, pushed, input);
      }
      if writer != null {
        ok := writer.PushSymbols(checked, input);
      } else if validate && translation.None? {
        ok := ValidateAlphabet(backend, Standard, input);
      } else if validate {
        if validator == null {
          validator := new StagingValidator(backend, translation);
        }
        ok := validator.Push(input);
      } else {
        ok := true;
      }
      pushed := was + Translated(translation, input);
    }

    method PushValue(checked: bool, value: byte) returns (ok: bool)
      requires Valid() && translation == None && value < 64 && Room(|pushed| + 1)
      requires !checked ==> writer != null
      requires AllValid(Standard, pushed)
      modifies Footprint()
      ensures Footprint() == old(Footprint()) && translation == old(translation)
      ensures ok && Valid() && pushed == old(pushed) + [StandardSymbol(value)]
    {
      hide AllValid, Translated, Decoded, DecodedSymbolLen, StandardSymbol;
      var symbol := StandardSymbol(value);
      SymbolValueInverse(value);
      TranslatedNone([symbol]);
      AllValidConcat(Standard, pushed, [symbol]);
      OneValid(symbol);
      ok := true;
      if writer != null {
        ok := writer.PushValue(checked, value);
      }
      pushed := pushed + [symbol];
    }

    /** Ends the scan: the writer flushes, the validator checks its rest. */
    method Finish(checked: bool, expected: nat) returns (r: Option<nat>)
      requires Valid() && Room(|pushed|) && |pushed| % 4 != 1
      requires checked ==> expected == DecodedSymbolLen(|pushed|)
      requires !checked ==> writer != null && AllValid(Standard, pushed)
      modifies Footprint()
      ensures pushed == old(pushed) && validator == old(validator)
      ensures r.Some? <==> AllValid(Standard, pushed)
      ensures r.Some? ==> r.value == DecodedSymbolLen(|pushed|) && Wrote(Decoded(Standard, pushed))
      ensures r.None? ==> Stopped(pushed, Chunk(old(Flushed()), old(Staged())))
    {
      hide AllValid, Translated, Decoded, DecodedSymbolLen, Store, Halted;
      if writer != null {
        r := writer.Finish(checked);
      } else {
        var ok := true;
        if validator != null {
          ok := validator.Finish();
        }
        r := if ok then Some(expected) else None;
      }
    }
  }

  lemma OneValid(symbol: byte)
    ensures AllValid(Standard, [symbol]) <==> StrictValue(Standard, symbol) < 64
  {
    hide StrictValue;
    assert AllValid(Standard, [symbol]) ==> StrictValue(Standard, [symbol][0]) < 64;
  }
}
