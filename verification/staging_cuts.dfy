/** How a staging writer cuts what is pushed into chunks, and what a chunk that fails its check leaves
in the output. Counts decide the cuts, so where a push stops is known beforehand. */
module StagingCuts {
  import opened Bytes
  import opened Alphabet
  import opened Vectors
  import opened DecodeNeon
  import opened Strict
  import opened StrictApi

  const CONFIGURED_STAGING_CAPACITY: nat := 4096

  /** A part of the pushed symbols that is decoded at once. */
  datatype Chunk = Chunk(start: nat, size: nat)

  /** The size of the next chunk while `more` symbols are pushed behind `staged` ones; zero when all are
      only staged. Buffered pushes wait for a full buffer; direct ones decode all whole quartets. */
  function NextCut(buffered: bool, staged: nat, more: nat): (size: nat)
    requires staged < CONFIGURED_STAGING_CAPACITY
    ensures size % 4 == 0 && size <= staged + more && (size > 0 ==> size > staged)
  {
    if !buffered && staged == 0 then more / 4 * 4
    else if staged + more < CONFIGURED_STAGING_CAPACITY then 0
    else CONFIGURED_STAGING_CAPACITY
  }

  /** The first invalid chunk of a push, if there is one. */
  ghost function Halt(s: seq<byte>, buffered: bool, flushed: nat, staged: nat, more: nat): Option<Chunk>
    requires staged < CONFIGURED_STAGING_CAPACITY && flushed + staged + more <= |s|
    decreases more
  {
    var size := NextCut(buffered, staged, more);
    if size == 0 then None
    else if !Valid(Standard, s, flushed, flushed + size) then Some(Chunk(flushed, size))
    else Halt(s, buffered, flushed + size, 0, more - (size - staged))
  }

  /** How many symbols are staged after a push that succeeds. */
  function StagedAfter(buffered: bool, staged: nat, more: nat): (n: nat)
    requires staged < CONFIGURED_STAGING_CAPACITY
    ensures n < CONFIGURED_STAGING_CAPACITY && n <= staged + more
    decreases more
  {
    var size := NextCut(buffered, staged, more);
    if size == 0 then staged + more else StagedAfter(buffered, 0, more - (size - staged))
  }

  /** The output after a chunk failed: everything in front of it is decoded, and it leaves what a failing
      decode leaves. */
  ghost predicate Halted(backend: Backend, s: seq<byte>, c: Chunk, w: seq<byte>) {
    && c.start % 4 == 0 && c.start + c.size <= |s| && Valid(Standard, s, 0, c.start)
    && c.start / 4 * 3 <= |w| && w[..c.start / 4 * 3] == Decoded(Standard, s[..c.start])
    && Leaves(backend, Standard, s[c.start..c.start + c.size], w[c.start / 4 * 3..])
  }

  /** More symbols behind a chunk make no difference. */
  lemma HaltedPrefix(backend: Backend, s: seq<byte>, u: seq<byte>, c: Chunk, w: seq<byte>)
    requires s <= u && Halted(backend, s, c, w)
    ensures Halted(backend, u, c, w)
    ensures Valid(Standard, s, c.start, c.start + c.size) <==> Valid(Standard, u, c.start, c.start + c.size)
  {
    hide Leaves, Decoded, StrictValue;
    assert forall k :: 0 <= k < |s| ==> s[k] == u[k];
    assert u[..c.start] == s[..c.start] && u[c.start..c.start + c.size] == s[c.start..c.start + c.size];
  }

  /** What failing leaves is no longer than whole quartets of what was reached. */
  lemma HaltedLen(backend: Backend, s: seq<byte>, c: Chunk, w: seq<byte>)
    requires Halted(backend, s, c, w)
    ensures |w| % 3 == 0 && |w| <= (c.start + c.size) / 4 * 3 && c.start + c.size <= |s|
  {
    hide Valid, Accumulated, Decoded;
    var n := c.size / 4;
    assert (c.start + c.size) / 4 == c.start / 4 + n;
  }

  /** A push that started behind `flushed0` and `staged0` symbols stands where `flushed` and `staged` ones are in
      front, and goes on from there. */
  ghost predicate GoesOn(s: seq<byte>, buffered: bool, flushed0: nat, staged0: nat, more0: nat, flushed: nat,
                         staged: nat, more: nat)
  {
    && staged0 < CONFIGURED_STAGING_CAPACITY && flushed0 + staged0 + more0 == |s|
    && staged < CONFIGURED_STAGING_CAPACITY && flushed + staged + more == |s|
    && Halt(s, buffered, flushed0, staged0, more0) == Halt(s, buffered, flushed, staged, more)
    && StagedAfter(buffered, staged0, more0) == StagedAfter(buffered, staged, more)
  }

  lemma GoesOnFirst(s: seq<byte>, buffered: bool, flushed: nat, staged: nat, more: nat)
    requires staged < CONFIGURED_STAGING_CAPACITY && flushed + staged + more == |s|
    ensures GoesOn(s, buffered, flushed, staged, more, flushed, staged, more)
  {
  }

  /** One cut of a push: a chunk, or nothing left but staging. */
  lemma CutStep(s: seq<byte>, buffered: bool, flushed: nat, staged: nat, more: nat)
    requires staged < CONFIGURED_STAGING_CAPACITY && flushed + staged + more <= |s|
    ensures var size := NextCut(buffered, staged, more);
            && (size == 0 ==> Halt(s, buffered, flushed, staged, more) == None
                              && StagedAfter(buffered, staged, more) == staged + more)
            && (size > 0 ==> StagedAfter(buffered, staged, more) == StagedAfter(buffered, 0, more - (size - staged)))
            && (size > 0 && Valid(Standard, s, flushed, flushed + size) ==>
                  Halt(s, buffered, flushed, staged, more)
                  == Halt(s, buffered, flushed + size, 0, more - (size - staged)))
            && (size > 0 && !Valid(Standard, s, flushed, flushed + size) ==>
                  Halt(s, buffered, flushed, staged, more) == Some(Chunk(flushed, size)))
  {
    hide Valid;
  }

  lemma NoMore(s: seq<byte>, buffered: bool, flushed: nat, staged: nat)
    requires staged < CONFIGURED_STAGING_CAPACITY && flushed + staged <= |s|
    ensures Halt(s, buffered, flushed, staged, 0) == None && StagedAfter(buffered, staged, 0) == staged
  {
  }

  /** Symbols behind what is pushed make no difference to where a push stops. */
  lemma {:induction false} HaltPrefix(s: seq<byte>, u: seq<byte>, buffered: bool, flushed: nat, staged: nat, more: nat)
    requires staged < CONFIGURED_STAGING_CAPACITY && flushed + staged + more <= |s| && s <= u
    ensures Halt(s, buffered, flushed, staged, more) == Halt(u, buffered, flushed, staged, more)
    decreases more
  {
    hide StrictValue;
    var size := NextCut(buffered, staged, more);
    assert forall k :: 0 <= k < |s| ==> s[k] == u[k];
    if size > 0 && Valid(Standard, s, flushed, flushed + size) {
      HaltPrefix(s, u, buffered, flushed + size, 0, more - (size - staged));
    }
  }

  /** How a series of pushes ends: stopped by a chunk, or with some symbols staged. */
  datatype Cuts = Stops(chunk: Chunk) | Stages(count: nat)

  /** The output holds the decoding of the first `n` symbols, which are valid. */
  ghost predicate Pushed(s: seq<byte>, n: nat, w: seq<byte>) {
    n % 4 == 0 && n <= |s| && Valid(Standard, s, 0, n) && w == Decoded(Standard, s[..n])
  }
}
