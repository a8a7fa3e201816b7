/** Batches that write into caller buffers. Inputs may share memory with any output; those that do are
copied before the first write, so every item is coded from what its input held at the start. */
module Batch {
  import opened Bytes
  import opened Strict

  datatype BufferRange = BufferRange(start: nat, end: nat)

  predicate Overlaps(a: BufferRange, b: BufferRange) {
    a.start < b.end && b.start < a.end
  }

  /** A destination: a bytearray and where its bytes live. */
  datatype Output = Output(id: nat, range: BufferRange)

  /** What an item may be: an immutable object, a bytearray, a view of memory, an exporter whose buffer is
      released before any write, or something that is no buffer. */
  datatype Item =
    | Immutable(bytes: seq<byte>)
    | ByteArray(id: nat, range: BufferRange)
    | View(range: BufferRange)
    | Exporter(range: BufferRange)
    | NotABuffer

  predicate InMemory(r: BufferRange, size: nat) {
    r.start <= r.end <= size
  }

  /** One address space: outputs are distinct objects with storage of their own, and a bytearray item
      either is one of them or shares nothing with them. */
  ghost predicate World(size: nat, items: seq<Item>, outputs: seq<Output>) {
    && |items| == |outputs|
    && (forall j :: 0 <= j < |outputs| ==> InMemory(outputs[j].range, size))
    && (forall j, k :: 0 <= j < k < |outputs| ==> !SharesMemory(outputs[j].range, outputs[k].range))
    && (forall i :: 0 <= i < |items| ==> ItemInWorld(size, items[i], outputs))
  }

  /** Two ranges have a byte in common. */
  predicate SharesMemory(a: BufferRange, b: BufferRange) {
    a.start < a.end && b.start < b.end && Overlaps(a, b)
  }

  ghost predicate ItemInWorld(size: nat, item: Item, outputs: seq<Output>) {
    match item
    case Immutable(_) => true
    case NotABuffer => true
    case View(r) => InMemory(r, size)
    case Exporter(r) => InMemory(r, size)
    case ByteArray(id, r) =>
      && InMemory(r, size)
      && ((exists j :: 0 <= j < |outputs| && outputs[j].id == id) || Apart(r, outputs))
  }

  /** Shares no byte with any output. */
  predicate Apart(r: BufferRange, outputs: seq<Output>) {
    forall j :: 0 <= j < |outputs| ==> !SharesMemory(outputs[j].range, r)
  }

  function Read(m: seq<byte>, r: BufferRange): seq<byte>
    requires InMemory(r, |m|)
  {
    m[r.start..r.end]
  }

  /** What an item holds while memory is `m`. */
  function Contents(m: seq<byte>, item: Item): seq<byte> {
    match item
    case Immutable(bytes) => bytes
    case NotABuffer => []
    case _ => if InMemory(item.range, |m|) then Read(m, item.range) else []
  }

  // ----- overlap search -----

  predicate Sorted(r: seq<BufferRange>) {
    forall j, k :: 0 <= j < k < |r| ==> r[j].start <= r[k].start
  }

  predicate Disjoint(r: seq<BufferRange>) {
    forall j, k :: 0 <= j < k < |r| ==> !Overlaps(r[j], r[k])
  }

  predicate NonEmpty(r: seq<BufferRange>) {
    forall j :: 0 <= j < |r| ==> r[j].start < r[j].end
  }

  /** Keeps the ranges sorted by their start. */
  method InsertRange(r: seq<BufferRange>, x: BufferRange) returns (s: seq<BufferRange>)
    requires Sorted(r)
    ensures Sorted(s) && multiset(s) == multiset(r) + multiset{x}
  {
    hide Sorted;
    var k := 0;
    while k < |r| && r[k].start <= x.start
      invariant k <= |r| && forall j :: 0 <= j < k ==> r[j].start <= x.start
    {
      k := k + 1;
    }
    s := r[..k] + [x] + r[k..];
    InsertedSorted(r, x, k);
    InsertedElements(r, x, k);
  }

  lemma InsertedSorted(r: seq<BufferRange>, x: BufferRange, k: nat)
    requires Sorted(r) && k <= |r| && forall j :: 0 <= j < k ==> r[j].start <= x.start
    requires k < |r| ==> x.start <= r[k].start
    ensures Sorted(r[..k] + [x] + r[k..])
  {
  }

  lemma InsertedElements(r: seq<BufferRange>, x: BufferRange, k: nat)
    requires k <= |r|
    ensures multiset(r[..k] + [x] + r[k..]) == multiset(r) + multiset{x}
  {
    hide Sorted;
    assert r == r[..k] + r[k..];
  }

  /** The ranges of all nonempty outputs, in address order. */
  method OutputRanges(size: nat, outputs: seq<Output>) returns (ranges: seq<BufferRange>)
    requires forall j :: 0 <= j < |outputs| ==> InMemory(outputs[j].range, size)
    requires forall j, k :: 0 <= j < k < |outputs| ==> !SharesMemory(outputs[j].range, outputs[k].range)
    ensures Sorted(ranges) && Disjoint(ranges) && NonEmpty(ranges)
    ensures forall x :: x in ranges <==> x.start < x.end && exists j :: 0 <= j < |outputs| && outputs[j].range == x
  {
    ranges := [];
    var k := 0;
    while k < |outputs|
      invariant 0 <= k <= |outputs| && Sorted(ranges) && Disjoint(ranges) && NonEmpty(ranges)
      invariant forall x :: x in ranges <==> x.start < x.end && exists j :: 0 <= j < k && outputs[j].range == x
    {
      var r := outputs[k].range;
      if r.start < r.end {
        var was := ranges;
        ranges := InsertRange(was, r);
        assert forall x :: x in ranges <==> x in multiset(ranges);
        assert forall x :: x in ranges <==> x in was || x == r;
        forall y | y in was ensures !Overlaps(y, r) {
          var j :| 0 <= j < k && outputs[j].range == y;
          assert !SharesMemory(outputs[j].range, outputs[k].range);
        }
        InsertedDisjoint(was, ranges, r);
      }
      k := k + 1;
    }
  }

  lemma InsertedDisjoint(was: seq<BufferRange>, now: seq<BufferRange>, x: BufferRange)
    requires Disjoint(was) && NonEmpty(was) && x.start < x.end
    requires forall y :: y in was ==> !Overlaps(y, x)
    requires multiset(now) == multiset(was) + multiset{x}
    ensures Disjoint(now) && NonEmpty(now)
  {
    forall j | 0 <= j < |now| ensures now[j].start < now[j].end {
      assert now[j] in multiset(now);
    }
    forall j, k | 0 <= j < k < |now| ensures !Overlaps(now[j], now[k]) {
      PairDisjoint(was, now, x, j, k);
    }
  }

  lemma PairDisjoint(was: seq<BufferRange>, now: seq<BufferRange>, x: BufferRange, j: nat, k: nat)
    requires Disjoint(was) && NonEmpty(was) && x.start < x.end && j < k < |now|
    requires forall y :: y in was ==> !Overlaps(y, x)
    requires multiset(now) == multiset(was) + multiset{x}
    ensures !Overlaps(now[j], now[k])
  {
    var a, b := now[j], now[k];
    assert a in multiset(now) && b in multiset(now);
    assert a == x || a in multiset(was);
    assert b == x || b in multiset(was);
    if a == b {
      Repeats(now, j, k);
    }
    Twice(was, a);
    NotAmong(was, x);
    if a != x {
      assert a in was && !Overlaps(a, x);
    }
    if b != x {
      assert b in was && !Overlaps(b, x);
    }
    if a != b && a != x && b != x {
      var p :| 0 <= p < |was| && was[p] == a;
      var q :| 0 <= q < |was| && was[q] == b;
      assert p < q || q < p;
    }
  }

  lemma Repeats(r: seq<BufferRange>, j: nat, k: nat)
    requires j < k < |r| && r[j] == r[k]
    ensures multiset(r)[r[j]] >= 2
  {
    assert r == r[..k] + r[k..] && r[j] in r[..k] && r[j] in r[k..];
  }

  lemma NotAmong(r: seq<BufferRange>, x: BufferRange)
    requires x.start < x.end && forall y :: y in r ==> !Overlaps(y, x)
    ensures multiset(r)[x] == 0
  {
    assert Overlaps(x, x);
  }

  /** Disjoint nonempty ranges do not repeat. */
  lemma Twice(r: seq<BufferRange>, a: BufferRange)
    requires Disjoint(r) && NonEmpty(r)
    ensures multiset(r)[a] <= 1
  {
    if a in r {
      var k :| 0 <= k < |r| && r[k] == a;
      assert r == r[..k] + [a] + r[k + 1..];
      assert a !in r[..k] && a !in r[k + 1..];
    }
  }

  /** The number of ranges that start before `end`, by binary search. */
  method PartitionPoint(ranges: seq<BufferRange>, end: nat) returns (index: nat)
    requires Sorted(ranges)
    ensures index <= |ranges|
    ensures forall k :: 0 <= k < index ==> ranges[k].start < end
    ensures forall k :: index <= k < |ranges| ==> ranges[k].start >= end
  {
    var lo, hi := 0, |ranges|;
    while lo < hi
      invariant 0 <= lo <= hi <= |ranges|
      invariant forall k :: 0 <= k < lo ==> ranges[k].start < end
      invariant forall k :: hi <= k < |ranges| ==> ranges[k].start >= end
    {
      var mid := (lo + hi) / 2;
      if ranges[mid].start < end {
        lo := mid + 1;
      } else {
        hi := mid;
      }
    }
    index := lo;
  }

  /** Looking at one neighbour decides whether any output overlaps. */
  method AliasesOutput(ranges: seq<BufferRange>, input: BufferRange) returns (aliases: bool)
    requires Sorted(ranges) && Disjoint(ranges) && NonEmpty(ranges)
    ensures aliases <==> exists k :: 0 <= k < |ranges| && Overlaps(ranges[k], input)
  {
    var index := PartitionPoint(ranges, input.end);
    aliases := index != 0 && Overlaps(ranges[index - 1], input);
    if exists k :: 0 <= k < |ranges| && Overlaps(ranges[k], input) {
      var k :| 0 <= k < |ranges| && Overlaps(ranges[k], input);
      assert k < index;
      if k < index - 1 {
        assert ranges[k].start <= ranges[index - 1].start && !Overlaps(ranges[k], ranges[index - 1]);
        assert ranges[k].end <= ranges[index - 1].start;
      }
    }
  }

  // ----- destinations -----

  method ContainsIdentity(outputs: seq<Output>, id: nat) returns (r: bool)
    ensures r <==> exists j :: 0 <= j < |outputs| && outputs[j].id == id
  {
    var k := 0;
    while k < |outputs|
      invariant 0 <= k <= |outputs| && forall j :: 0 <= j < k ==> outputs[j].id != id
    {
      if outputs[k].id == id {
        return true;
      }
      k := k + 1;
    }
    r := false;
  }

  /** Rejects a list of destinations of the wrong length or with a repeated object. */
  method CheckOutputs(itemsLength: nat, outputs: seq<Output>) returns (ok: bool)
    ensures ok <==> |outputs| == itemsLength && forall j, k :: 0 <= j < k < |outputs| ==> outputs[j].id != outputs[k].id
  {
    if |outputs| != itemsLength {
      return false;
    }
    var n := 0;
    while n < |outputs|
      invariant 0 <= n <= |outputs|
      invariant forall j, k :: 0 <= j < k < n ==> outputs[j].id != outputs[k].id
    {
      var duplicate := ContainsIdentity(outputs[..n], outputs[n].id);
      if duplicate {
        var j :| 0 <= j < n && outputs[..n][j].id == outputs[n].id;
        assert outputs[j].id == outputs[n].id;
        return false;
      }
      forall j | 0 <= j < n ensures outputs[j].id != outputs[n].id {
        assert outputs[..n][j] == outputs[j];
      }
      n := n + 1;
    }
    ok := true;
  }

  // ----- preparing inputs -----

  /** An acquired input: a copy of its own, or borrowed memory (with the object, if it is a bytearray). */
  datatype Input = Copied(bytes: seq<byte>) | Borrowed(range: BufferRange, identity: Option<nat>)

  datatype Prepared = Prepared(index: nat, input: Option<Input>, releaseBeforeWrite: bool)

  /** Which items need preparing, and whether they must be copied because their release may run code. */
  function SnapshotPolicy(item: Item, outputs: seq<Output>): Option<bool> {
    match item
    case Immutable(_) => None
    case ByteArray(id, _) => if exists j :: 0 <= j < |outputs| && outputs[j].id == id then Some(false) else None
    case View(_) => Some(false)
    case Exporter(_) => Some(true)
    case NotABuffer => Some(true)
  }

  function Acquire(item: Item): Option<Input> {
    match item
    case Immutable(bytes) => Some(Copied(bytes))
    case ByteArray(id, r) => Some(Borrowed(r, Some(id)))
    case View(r) => Some(Borrowed(r, None))
    case Exporter(r) => Some(Borrowed(r, None))
    case NotABuffer => None
  }

  /** The inputs acquired from item `i` on; an item that is no buffer is the last. */
  function Acquired(items: seq<Item>, outputs: seq<Output>, i: nat): seq<Prepared>
    requires i <= |items|
    decreases |items| - i
  {
    if i == |items| then []
    else
      var policy := SnapshotPolicy(items[i], outputs);
      if policy.None? then Acquired(items, outputs, i + 1)
      else
        var p := Prepared(i, Acquire(items[i]), policy.value);
        if p.input.None? then [p] else [p] + Acquired(items, outputs, i + 1)
  }

  method AcquireInputs(items: seq<Item>, outputs: seq<Output>) returns (prepared: seq<Prepared>)
    ensures prepared == Acquired(items, outputs, 0)
  {
    prepared := [];
    var i := 0;
    while i < |items|
      invariant 0 <= i <= |items| && prepared + Acquired(items, outputs, i) == Acquired(items, outputs, 0)
    {
      var policy := SnapshotPolicy(items[i], outputs);
      if policy.Some? {
        var p := Prepared(i, Acquire(items[i]), policy.value);
        assert p.input.Some? ==>
                 prepared + ([p] + Acquired(items, outputs, i + 1)) == prepared + [p] + Acquired(items, outputs, i + 1);
        prepared := prepared + [p];
        if p.input.None? {
          return;
        }
      }
      i := i + 1;
    }
    assert prepared + [] == prepared;
  }

  /** All copies are taken before the first replaces its input. */
  method StageSnapshots(prepared: array<Prepared>, snapshots: seq<Option<seq<byte>>>)
    requires |snapshots| == prepared.Length
    modifies prepared
    ensures forall k :: 0 <= k < prepared.Length ==> prepared[k] == Replaced(old(prepared[k]), snapshots[k])
  {
    var k := 0;
    while k < prepared.Length
      invariant 0 <= k <= prepared.Length
      invariant forall j :: 0 <= j < k ==> prepared[j] == Replaced(old(prepared[j]), snapshots[j])
      invariant forall j :: k <= j < prepared.Length ==> prepared[j] == old(prepared[j])
    {
      prepared[k] := Replaced(prepared[k], snapshots[k]);
      k := k + 1;
    }
  }

  function Replaced(p: Prepared, snapshot: Option<seq<byte>>): Prepared {
    if p.input.Some? && snapshot.Some? then p.(input := Some(Copied(snapshot.value))) else p
  }

  function ReadInput(m: seq<byte>, input: Input): seq<byte>
    requires input.Borrowed? ==> InMemory(input.range, |m|)
  {
    match input case Copied(bytes) => bytes case Borrowed(r, _) => Read(m, r)
  }

  /** The copies of the first stage: inputs to release before any write. */
  function ReleaseSnapshot(m: seq<byte>, p: Prepared): Option<seq<byte>>
    requires p.input.Some? && p.input.value.Borrowed? ==> InMemory(p.input.value.range, |m|)
  {
    if p.input.Some? && p.releaseBeforeWrite then Some(ReadInput(m, p.input.value)) else None
  }

  /** The copies of the second stage: bytearrays that are outputs, and memory that overlaps one. */
  method AliasSnapshot(m: seq<byte>, p: Prepared, outputs: seq<Output>, ranges: seq<BufferRange>)
    returns (r: Option<seq<byte>>)
    requires p.input.Some? && p.input.value.Borrowed? ==> InMemory(p.input.value.range, |m|)
    requires Sorted(ranges) && Disjoint(ranges) && NonEmpty(ranges)
    requires forall x :: x in ranges <==> x.start < x.end && exists j :: 0 <= j < |outputs| && outputs[j].range == x
    ensures r.Some? ==> p.input.Some? && r.value == ReadInput(m, p.input.value)
    ensures r.None? && p.input.Some? && p.input.value.Borrowed? ==>
              (p.input.value.identity.Some? &&
               !exists j :: 0 <= j < |outputs| && outputs[j].id == p.input.value.identity.value)
              || Apart(p.input.value.range, outputs)
  {
    if p.input.None? || p.input.value.Copied? {
      return None;
    }
    var input := p.input.value;
    if input.identity.Some? {
      var known := ContainsIdentity(outputs, input.identity.value);
      return if known then Some(ReadInput(m, input)) else None;
    }
    if input.range.start == input.range.end {
      return None;
    }
    var aliases := AliasesOutput(ranges, input.range);
    if aliases {
      return Some(ReadInput(m, input));
    }
    forall j | 0 <= j < |outputs| ensures !SharesMemory(outputs[j].range, input.range) {
      var x := outputs[j].range;
      if x.start < x.end {
        assert x in ranges;
      }
    }
    r := None;
  }

  /** What every prepared input is good for: it keeps what its item held when memory was `m`, because it
      is a copy or shares nothing with any output. */
  ghost predicate Stable(m: seq<byte>, p: Prepared, item: Item, outputs: seq<Output>) {
    && (p.input.None? <==> item.NotABuffer?)
    && (p.input.Some? && p.input.value.Copied? ==> p.input.value.bytes == Contents(m, item))
    && (p.input.Some? && p.input.value.Borrowed? ==>
          && InMemory(p.input.value.range, |m|) && Apart(p.input.value.range, outputs)
          && Read(m, p.input.value.range) == Contents(m, item))
  }

  lemma AcquiredMember(items: seq<Item>, outputs: seq<Output>, i: nat, k: nat)
    requires i <= |items| && k < |Acquired(items, outputs, i)|
    ensures var p := Acquired(items, outputs, i)[k];
            && i <= p.index < |items| && SnapshotPolicy(items[p.index], outputs) == Some(p.releaseBeforeWrite)
            && p.input == Acquire(items[p.index])
    decreases |items| - i
  {
    var policy := SnapshotPolicy(items[i], outputs);
    if policy.None? {
      AcquiredMember(items, outputs, i + 1, k);
    } else if k > 0 {
      AcquiredMember(items, outputs, i + 1, k - 1);
    }
  }

  /** Inputs acquired, then copied in two stages: those whose release may run code, then those that share
      memory with an output. */
  method PrepareBatchInputs(memory: array<byte>, items: seq<Item>, outputs: seq<Output>)
    returns (prepared: array<Prepared>)
    requires World(memory.Length, items, outputs)
    ensures fresh(prepared) && prepared.Length == |Acquired(items, outputs, 0)|
    ensures forall k :: 0 <= k < prepared.Length ==> prepared[k].index == Acquired(items, outputs, 0)[k].index < |items|
    ensures forall k :: 0 <= k < prepared.Length ==> Stable(memory[..], prepared[k], items[prepared[k].index], outputs)
  {
    var acquired := AcquireInputs(items, outputs);
    prepared := new Prepared[|acquired|](k requires 0 <= k < |acquired| => acquired[k]);
    ghost var m := memory[..];
    forall k | 0 <= k < |acquired|
      ensures acquired[k].index < |items| && InputInMemory(m, acquired[k])
      ensures acquired[k].input == Acquire(items[acquired[k].index])
    {
      AcquiredMember(items, outputs, 0, k);
      assert ItemInWorld(|m|, items[acquired[k].index], outputs);
    }
    var snapshots: seq<Option<seq<byte>>> := [];
    var n := 0;
    while n < prepared.Length
      invariant 0 <= n <= prepared.Length && |snapshots| == n && memory[..] == m
      invariant forall k :: 0 <= k < n ==> snapshots[k] == ReleaseSnapshot(m, acquired[k])
      invariant forall k :: 0 <= k < prepared.Length ==> prepared[k] == acquired[k]
    {
      var s := ReleaseSnapshot(memory[..], prepared[n]);
      snapshots := snapshots + [s];
      n := n + 1;
    }
    StageSnapshots(prepared, snapshots);
    var released := prepared[..];
    forall k | 0 <= k < |acquired|
      ensures released[k].index == acquired[k].index && InputInMemory(m, released[k])
      ensures released[k].input.Some? ==> ReadInput(m, released[k].input.value) == Contents(m, items[released[k].index])
    {
      assert released[k] == Replaced(acquired[k], snapshots[k]);
    }
    var ranges := OutputRanges(memory.Length, outputs);
    snapshots, n := [], 0;
    while n < prepared.Length
      invariant 0 <= n <= prepared.Length && |snapshots| == n && memory[..] == m
      invariant forall k :: 0 <= k < prepared.Length ==> prepared[k] == released[k]
      invariant forall k :: 0 <= k < n ==> AliasCopied(m, released[k], snapshots[k], outputs)
    {
      assert InputInMemory(m, released[n]);
      var s := AliasSnapshot(memory[..], prepared[n], outputs, ranges);
      snapshots := snapshots + [s];
      n := n + 1;
    }
    StageSnapshots(prepared, snapshots);
    forall k | 0 <= k < prepared.Length ensures Stable(m, prepared[k], items[prepared[k].index], outputs) {
      assert prepared[k] == Replaced(released[k], snapshots[k]);
      assert released[k] == Replaced(acquired[k], ReleaseSnapshot(m, acquired[k]));
      AcquiredMember(items, outputs, 0, k);
      assert ItemInWorld(|m|, items[acquired[k].index], outputs);
      StagedIsStable(m, acquired[k], released[k], prepared[k], snapshots[k], items[acquired[k].index], outputs);
    }
  }

  predicate InputInMemory(m: seq<byte>, p: Prepared) {
    p.input.Some? && p.input.value.Borrowed? ==> InMemory(p.input.value.range, |m|)
  }

  /** What the second stage guarantees for one input. */
  ghost predicate AliasCopied(m: seq<byte>, p: Prepared, snapshot: Option<seq<byte>>, outputs: seq<Output>)
    requires InputInMemory(m, p)
  {
    && (snapshot.Some? ==> p.input.Some? && snapshot.value == ReadInput(m, p.input.value))
    && (snapshot.None? && p.input.Some? && p.input.value.Borrowed? ==>
          (p.input.value.identity.Some? &&
           !exists j :: 0 <= j < |outputs| && outputs[j].id == p.input.value.identity.value)
          || Apart(p.input.value.range, outputs))
  }

  lemma StagedIsStable(m: seq<byte>, acquired: Prepared, released: Prepared, staged: Prepared,
                       snapshot: Option<seq<byte>>, item: Item, outputs: seq<Output>)
    requires InputInMemory(m, acquired) && acquired.input == Acquire(item) && ItemInWorld(|m|, item, outputs)
    requires released == Replaced(acquired, ReleaseSnapshot(m, acquired))
    requires AliasCopied(m, released, snapshot, outputs) && staged == Replaced(released, snapshot)
    ensures Stable(m, staged, item, outputs)
  {
  }

  // ----- coding the batch -----

  /** What coding one input into a destination of some capacity does: the bytes it writes at the start, and
      whether it succeeded. */
  datatype Coded = Coded(bytes: seq<byte>, ok: bool)

  type Codec = (seq<byte>, nat) -> Coded

  ghost predicate Fits(codec: Codec) {
    forall s: seq<byte>, n: nat :: |codec(s, n).bytes| <= n
  }

  function Size(r: BufferRange): nat {
    if r.start <= r.end then r.end - r.start else 0
  }

  /** Coding item `i` from what its input held in `initial`. */
  function CodeItem(codec: Codec, initial: seq<byte>, items: seq<Item>, outputs: seq<Output>, i: nat): Coded
    requires i < |items| == |outputs|
  {
    codec(Contents(initial, items[i]), Size(outputs[i].range))
  }

  /** The first `n` items succeed, and none is unreadable. */
  predicate Succeeds(codec: Codec, initial: seq<byte>, items: seq<Item>, outputs: seq<Output>, n: nat)
    requires n <= |items| == |outputs|
  {
    forall i :: 0 <= i < n ==> !items[i].NotABuffer? && CodeItem(codec, initial, items, outputs, i).ok
  }

  /** Memory after the first `n` items, had every input been read before any write. */
  function After(codec: Codec, initial: seq<byte>, items: seq<Item>, outputs: seq<Output>, n: nat): (m: seq<byte>)
    requires n <= |items| == |outputs|
    ensures |m| == |initial|
  {
    if n == 0 then initial
    else Written(After(codec, initial, items, outputs, n - 1), outputs[n - 1].range,
                 CodeItem(codec, initial, items, outputs, n - 1).bytes)
  }

  function Written(m: seq<byte>, r: BufferRange, bytes: seq<byte>): (w: seq<byte>)
    ensures |w| == |m|
  {
    if r.start + |bytes| <= |m| then Store(m, r.start, bytes) else m
  }

  /** Memory that shares nothing with the outputs written so far keeps its contents. */
  lemma {:induction false} ApartUnchanged(codec: Codec, initial: seq<byte>, items: seq<Item>, outputs: seq<Output>,
                                          n: nat, r: BufferRange)
    requires Fits(codec) && World(|initial|, items, outputs) && n <= |items|
    requires InMemory(r, |initial|) && forall j :: 0 <= j < n ==> !SharesMemory(outputs[j].range, r)
    ensures Read(After(codec, initial, items, outputs, n), r) == Read(initial, r)
  {
    if n > 0 {
      ApartUnchanged(codec, initial, items, outputs, n - 1, r);
      var out, bytes := outputs[n - 1].range, CodeItem(codec, initial, items, outputs, n - 1).bytes;
      assert |bytes| <= Size(out);
      WrittenApart(After(codec, initial, items, outputs, n - 1), out, bytes, r);
    }
  }

  /** Each destination ends with its own item's bytes and keeps everything behind them. */
  lemma {:induction false} AfterOutput(codec: Codec, initial: seq<byte>, items: seq<Item>, outputs: seq<Output>, n: nat,
                                       j: nat)
    requires Fits(codec) && World(|initial|, items, outputs) && j < n <= |items|
    ensures var out, bytes := outputs[j].range, CodeItem(codec, initial, items, outputs, j).bytes;
            && |bytes| <= Size(out)
            && Read(After(codec, initial, items, outputs, n), out) == bytes + Read(initial, out)[|bytes|..]
  {
    hide After, CodeItem, Written, Store;
    var out, bytes := outputs[n - 1].range, CodeItem(codec, initial, items, outputs, n - 1).bytes;
    var was := After(codec, initial, items, outputs, n - 1);
    AfterStep(codec, initial, items, outputs, n - 1);
    CodedFits(codec, initial, items, outputs, n - 1);
    if j == n - 1 {
      forall k | 0 <= k < n - 1 ensures !SharesMemory(outputs[k].range, out) {
      }
      ApartUnchanged(codec, initial, items, outputs, n - 1, out);
      WrittenHere(was, out, bytes);
    } else {
      AfterOutput(codec, initial, items, outputs, n - 1, j);
      assert !SharesMemory(outputs[j].range, out);
      WrittenApart(was, out, bytes, outputs[j].range);
    }
  }

  lemma WrittenHere(m: seq<byte>, r: BufferRange, bytes: seq<byte>)
    requires InMemory(r, |m|) && |bytes| <= Size(r)
    ensures Read(Written(m, r, bytes), r) == bytes + Read(m, r)[|bytes|..]
  {
  }

  lemma WrittenApart(m: seq<byte>, out: BufferRange, bytes: seq<byte>, r: BufferRange)
    requires InMemory(out, |m|) && InMemory(r, |m|) && |bytes| <= Size(out) && !SharesMemory(out, r)
    ensures Read(Written(m, out, bytes), r) == Read(m, r)
  {
    var w := Written(m, out, bytes);
    forall k | r.start <= k < r.end ensures w[k] == m[k] {
    }
  }

  lemma WorldSizes(m: seq<byte>, items: seq<Item>, outputs: seq<Output>)
    requires World(|m|, items, outputs)
    ensures |items| == |outputs|
  {
  }

  lemma OutputInMemory(size: nat, items: seq<Item>, outputs: seq<Output>, i: nat)
    requires World(size, items, outputs) && i < |outputs|
    ensures InMemory(outputs[i].range, size)
  {
  }

  lemma StableRange(m: seq<byte>, p: Prepared, item: Item, outputs: seq<Output>)
    requires Stable(m, p, item, outputs)
    ensures p.input.Some? && p.input.value.Borrowed? ==> InMemory(p.input.value.range, |m|)
  {
  }

  /** What is written for an item lies inside its own destination. */
  lemma CodedFits(codec: Codec, initial: seq<byte>, items: seq<Item>, outputs: seq<Output>, i: nat)
    requires Fits(codec) && World(|initial|, items, outputs) && i < |items|
    ensures |CodeItem(codec, initial, items, outputs, i).bytes| <= Size(outputs[i].range)
    ensures outputs[i].range.start + |CodeItem(codec, initial, items, outputs, i).bytes| <= |initial|
  {
  }

  lemma AfterNothing(codec: Codec, initial: seq<byte>, items: seq<Item>, outputs: seq<Output>)
    requires |items| == |outputs|
    ensures After(codec, initial, items, outputs, 0) == initial
  {
  }

  lemma AfterStep(codec: Codec, initial: seq<byte>, items: seq<Item>, outputs: seq<Output>, i: nat)
    requires i < |items| == |outputs|
    ensures After(codec, initial, items, outputs, i + 1)
         == Written(After(codec, initial, items, outputs, i), outputs[i].range,
                    CodeItem(codec, initial, items, outputs, i).bytes)
  {
  }

  /** Codecs that agree on the first items leave the same memory and succeed alike. */
  lemma {:induction false} SameCoding(f: Codec, g: Codec, initial: seq<byte>, items: seq<Item>, outputs: seq<Output>,
                                      n: nat)
    requires n <= |items| == |outputs|
    requires forall i :: 0 <= i < n ==>
              CodeItem(f, initial, items, outputs, i) == CodeItem(g, initial, items, outputs, i)
    ensures After(f, initial, items, outputs, n) == After(g, initial, items, outputs, n)
    ensures Succeeds(f, initial, items, outputs, n) == Succeeds(g, initial, items, outputs, n)
  {
    hide CodeItem, Written;
    if n > 0 {
      SameCoding(f, g, initial, items, outputs, n - 1);
    }
  }

  method ReadPrepared(memory: array<byte>, p: Prepared) returns (input: Option<seq<byte>>)
    requires p.input.Some? && p.input.value.Borrowed? ==> InMemory(p.input.value.range, memory.Length)
    ensures input == if p.input.None? then None else Some(ReadInput(memory[..], p.input.value))
  {
    input := if p.input.None? then None else Some(ReadInput(memory[..], p.input.value));
  }

  /** Items that needed no preparation are read when their turn comes. */
  method ReadDirectly(memory: array<byte>, item: Item) returns (input: Option<seq<byte>>)
    ensures input == if item.NotABuffer? then None else Some(Contents(memory[..], item))
  {
    input := if item.NotABuffer? then None else Some(Contents(memory[..], item));
  }

  lemma StableReads(codec: Codec, initial: seq<byte>, items: seq<Item>, outputs: seq<Output>, i: nat, now: seq<byte>,
                    p: Prepared, input: Option<seq<byte>>)
    requires Fits(codec) && World(|initial|, items, outputs) && i < |items|
    requires now == After(codec, initial, items, outputs, i) && Stable(initial, p, items[i], outputs)
    requires input == if p.input.None? then None else Some(ReadInput(now, p.input.value))
    ensures input == if items[i].NotABuffer? then None else Some(Contents(initial, items[i]))
  {
    hide After;
    if p.input.Some? && p.input.value.Borrowed? {
      ApartUnchanged(codec, initial, items, outputs, i, p.input.value.range);
    }
  }

  lemma DirectReads(codec: Codec, initial: seq<byte>, items: seq<Item>, outputs: seq<Output>, i: nat, now: seq<byte>,
                    input: Option<seq<byte>>)
    requires Fits(codec) && World(|initial|, items, outputs) && i < |items|
    requires now == After(codec, initial, items, outputs, i) && SnapshotPolicy(items[i], outputs).None?
    requires input == if items[i].NotABuffer? then None else Some(Contents(now, items[i]))
    ensures input == Some(Contents(initial, items[i]))
  {
    hide After;
    assert ItemInWorld(|initial|, items[i], outputs);
    if items[i].ByteArray? {
      ApartUnchanged(codec, initial, items, outputs, i, items[i].range);
    }
  }

  /** The next prepared input belongs to item `i` exactly when that item needed one. */
  lemma NextPrepared(items: seq<Item>, outputs: seq<Output>, i: nat, rest: seq<Prepared>)
    requires i < |items| && rest == Acquired(items, outputs, i)
    ensures SnapshotPolicy(items[i], outputs).None? ==>
              rest == Acquired(items, outputs, i + 1) && (rest != [] ==> rest[0].index > i)
    ensures SnapshotPolicy(items[i], outputs).Some? ==> rest != [] && rest[0].index == i
    ensures SnapshotPolicy(items[i], outputs).Some? && !items[i].NotABuffer? ==>
              rest[1..] == Acquired(items, outputs, i + 1)
  {
    if SnapshotPolicy(items[i], outputs).None? && rest != [] {
      AcquiredMember(items, outputs, i + 1, 0);
    }
  }
}
