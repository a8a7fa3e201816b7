/** The codecs that a batch runs: the encoder and the decode driver, item by item. */
module BatchCodecs {
  import opened Bytes
  import opened Strict
  import opened StrictApi
  import opened LenientApi
  import opened ConfiguredSpec
  import opened DriverSpec
  import opened Driver
  import opened EncodeSpec
  import opened EncodeApi
  import opened WrappedEncode
  import opened RoundTrip
  import opened Batch

  // ----- encoding -----

  /** What an encoder does to a destination: the whole text, or nothing when that is too small. */
  function EncodeCodec(e: PreparedEncoder): Codec
    requires e.wrapping.Some? ==> e.wrapping.value > 0
  {
    (s: seq<byte>, n: nat) => if |Text(e, s)| <= n then Coded(Text(e, s), true) else Coded([], false)
  }

  lemma EncodeCodecFits(e: PreparedEncoder)
    requires e.wrapping.Some? ==> e.wrapping.value > 0
    ensures Fits(EncodeCodec(e))
  {
    hide Text;
  }

  /** Encoding one item is that codec. */
  method EncodeItem(m: Machine, e: PreparedEncoder, input: seq<byte>, output: array<byte>) returns (r: DecodeResult)
    requires ValidEncoder(e)
    modifies output
    ensures var coded := EncodeCodec(e)(input, output.Length);
            && |coded.bytes| <= output.Length && output[..] == Store(old(output[..]), 0, coded.bytes)
            && (r.Ok? <==> coded.ok) && (r.Ok? ==> r.written == |coded.bytes|)
  {
    hide Text, Store;
    StoreNothing(output[..], 0);
    r := EncodeInto(m, e, input, output);
  }

  // ----- decoding -----

  /** What the decode driver does to a destination: the whole meaning, nothing when that does not fit, and, when
      there is no meaning, what the failed attempts leave. */
  function DecodeCodec(p: Policy, continueAfterPadding: bool, left: seq<byte>): Codec {
    (s: seq<byte>, n: nat) =>
      match PolicyMeaning(p, continueAfterPadding, s)
      case Some(v) => if |v| <= n then Coded(v, true) else Coded([], false)
      case None => Coded(if |left| <= n then left else left[..n], false)
  }

  lemma DecodeCodecFits(p: Policy, continueAfterPadding: bool, left: seq<byte>)
    ensures Fits(DecodeCodec(p, continueAfterPadding, left))
  {
    hide PolicyMeaning;
  }

  /** Decoding one item is that codec. */
  method DecodeItem(backend: Backend, wide: bool, semantics: Semantics, p: Policy, emptyExactIgnorechars: bool,
                    input: seq<byte>, output: array<byte>)
    returns (r: ExecuteResult, ghost left: seq<byte>)
    requires p.alphabet.Some? ==> p.ignored.Some?
    requires emptyExactIgnorechars ==> p.ignored == Some({})
    modifies output
    ensures |left| <= output.Length && |left| <= DecodedLenUpperBound(PolicyTable(p), input)
    ensures var coded := DecodeCodec(p, semantics.continuesAfterPadding, left)(input, output.Length);
            && |coded.bytes| <= output.Length && output[..] == Store(old(output[..]), 0, coded.bytes)
            && (r.Done? <==> coded.ok) && (r.Done? ==> r.written == |coded.bytes|)
  {
    hide PolicyMeaning, PolicyTable, Store, Spares, DecodedLenUpperBound;
    ghost var before := output[..];
    StoreNothing(before, 0);
    left := [];
    r := Execute(backend, wide, semantics, p, emptyExactIgnorechars, input, output);
    if r.NoNative? {
      left := SparedPrefix(before, output[..], DecodedLenUpperBound(PolicyTable(p), input));
    }
  }

  lemma SparedPrefix(before: seq<byte>, after: seq<byte>, bound: nat) returns (left: seq<byte>)
    requires Spares(before, after, bound)
    ensures |left| <= |before| && |left| <= bound && after == Store(before, 0, left)
  {
    left := if bound < |before| then after[..bound] else after;
  }

  // ----- the batch loop -----

  /** What a batch runs on each of its items. */
  datatype Coder =
    | Encoding(machine: Machine, encoder: PreparedEncoder)
    | Decoding(backend: Backend, wide: bool, semantics: Semantics, policy: Policy, emptyExactIgnorechars: bool)

  ghost predicate ValidCoder(c: Coder) {
    match c
    case Encoding(_, e) => ValidEncoder(e)
    case Decoding(_, _, _, p, exact) =>
      (p.alphabet.Some? ==> p.ignored.Some?) && (exact ==> p.ignored == Some({}))
  }

  ghost function CodecOf(c: Coder, left: seq<byte>): Codec
    requires ValidCoder(c)
  {
    match c
    case Encoding(_, e) => EncodeCodec(e)
    case Decoding(_, _, semantics, p, _) => DecodeCodec(p, semantics.continuesAfterPadding, left)
  }

  /** What a decode of `input` may leave when it has no meaning. */
  ghost predicate MayLeave(c: Coder, input: seq<byte>, left: seq<byte>) {
    c.Decoding? ==> |left| <= DecodedLenUpperBound(PolicyTable(c.policy), input)
  }

  lemma CodecOfFits(c: Coder, left: seq<byte>)
    requires ValidCoder(c)
    ensures Fits(CodecOf(c, left))
  {
    hide EncodeCodec, DecodeCodec, Fits;
    match c
    case Encoding(_, e) => EncodeCodecFits(e);
    case Decoding(_, _, semantics, p, _) => DecodeCodecFits(p, semantics.continuesAfterPadding, left);
  }

  /** What a failing decode leaves has no bearing on the items that succeed. */
  lemma LeftOnlyOnFailure(c: Coder, left: seq<byte>, s: seq<byte>, n: nat)
    requires ValidCoder(c)
    ensures CodecOf(c, left)(s, n).ok == CodecOf(c, [])(s, n).ok
    ensures CodecOf(c, [])(s, n).ok ==> CodecOf(c, left)(s, n) == CodecOf(c, [])(s, n)
  {
    hide PolicyMeaning, Text;
  }

  /** Codes one item into its destination. No input still read shares memory with it, so this may as well happen in a
      copy that is then stored back. */
  method CodeInPlace(c: Coder, input: seq<byte>, memory: array<byte>, r: BufferRange)
    returns (ok: bool, count: nat, ghost left: seq<byte>)
    requires ValidCoder(c) && InMemory(r, memory.Length)
    modifies memory
    ensures MayLeave(c, input, left)
    ensures var coded := CodecOf(c, left)(input, Size(r));
            && |coded.bytes| <= Size(r) && memory[..] == Written(old(memory[..]), r, coded.bytes)
            && ok == coded.ok && (ok ==> count == |coded.bytes|)
  {
    hide EncodeCodec, DecodeCodec, PolicyTable, DecodedLenUpperBound, Store, Written, ValidEncoder;
    ghost var before := memory[..];
    var output := new byte[Size(r)](k requires 0 <= k < Size(r) && r.end <= memory.Length reads memory =>
                                      memory[r.start + k]);
    assert output[..] == before[r.start..r.end];
    match c {
      case Encoding(m, e) =>
        var d := EncodeItem(m, e, input, output);
        ok, count, left := d.Ok?, if d.Ok? then d.written else 0, [];
      case Decoding(backend, wide, semantics, p, exact) =>
        var d: ExecuteResult;
        d, left := DecodeItem(backend, wide, semantics, p, exact, input, output);
        ok, count := d.Done?, if d.Done? then d.written else 0;
    }
    StoredBack(before, r, CodecOf(c, left)(input, Size(r)).bytes);
    StoreInto(memory, r.start, output[..]);
  }

  lemma StoredBack(m: seq<byte>, r: BufferRange, bytes: seq<byte>)
    requires InMemory(r, |m|) && |bytes| <= Size(r)
    ensures Store(m, r.start, Store(m[r.start..r.end], 0, bytes)) == Written(m, r, bytes)
  {
  }

  /** Codes the items in order, each into its own destination; stops at the first failure. The outcome is
      as if every input had been read before any write. */
  method CodeBatchInto(c: Coder, memory: array<byte>, items: seq<Item>, outputs: seq<Output>)
    returns (counts: seq<nat>, failed: bool, ghost left: seq<byte>)
    requires ValidCoder(c) && World(memory.Length, items, outputs)
    modifies memory
    ensures |counts| <= |items| && Succeeds(CodecOf(c, left), old(memory[..]), items, outputs, |counts|)
    ensures forall i :: 0 <= i < |counts| ==>
              counts[i] == |CodeItem(CodecOf(c, left), old(memory[..]), items, outputs, i).bytes|
    ensures !failed ==> |counts| == |items|
    ensures failed ==>
              |counts| < |items| && !Succeeds(CodecOf(c, left), old(memory[..]), items, outputs, |counts| + 1)
    ensures failed ==> MayLeave(c, Contents(old(memory[..]), items[|counts|]), left)
    ensures memory[..] == After(CodecOf(c, left), old(memory[..]), items, outputs,
                                if failed && !items[|counts|].NotABuffer? then |counts| + 1 else |counts|)
  {
    hide After, Contents, World, Stable, Acquired, SnapshotPolicy, ReadInput, Store, Written, CodecOf, MayLeave, Fits,
         ValidCoder;
    ghost var initial := memory[..];
    var prepared := PrepareBatchInputs(memory, items, outputs);
    ghost var acquired := Acquired(items, outputs, 0);
    counts, failed, left := [], false, [];
    ghost var codec := CodecOf(c, []);
    CodecOfFits(c, []);
    WorldSizes(initial, items, outputs);
    AfterNothing(codec, initial, items, outputs);
    var i, p := 0, 0;
    assert acquired[0..] == acquired;
    while i < |items|
      invariant 0 <= i <= |items| && 0 <= p <= prepared.Length && |counts| == i && left == []
      invariant acquired[p..] == Acquired(items, outputs, i)
      invariant forall k :: 0 <= k < prepared.Length ==>
                  && prepared[k].index == acquired[k].index < |items|
                  && Stable(initial, prepared[k], items[prepared[k].index], outputs)
      invariant Succeeds(codec, initial, items, outputs, i)
      invariant forall k :: 0 <= k < i ==> counts[k] == |CodeItem(codec, initial, items, outputs, k).bytes|
      invariant memory[..] == After(codec, initial, items, outputs, i)
    {
      var input: Option<seq<byte>>;
      NextPrepared(items, outputs, i, acquired[p..]);
      if p < prepared.Length && prepared[p].index == i {
        StableRange(initial, prepared[p], items[i], outputs);
        input := ReadPrepared(memory, prepared[p]);
        StableReads(codec, initial, items, outputs, i, memory[..], prepared[p], input);
        assert acquired[p..][0] == acquired[p] && acquired[p..][1..] == acquired[p + 1..];
        p := p + 1;
      } else {
        input := ReadDirectly(memory, items[i]);
        DirectReads(codec, initial, items, outputs, i, memory[..], input);
      }
      if input.None? {
        failed := true;
        MayLeaveNothing(c, Contents(initial, items[i]));
        return;
      }
      OutputInMemory(|initial|, items, outputs, i);
      var ok, count;
      ok, count, left := CodeInPlace(c, input.value, memory, outputs[i].range);
      AnyLeft(c, left, initial, items, outputs, i);
      AfterStep(CodecOf(c, left), initial, items, outputs, i);
      if !ok {
        failed := true;
        return;
      }
      AnyLeft(c, left, initial, items, outputs, i + 1);
      left := [];
      counts := counts + [count];
      i := i + 1;
    }
  }

  lemma MayLeaveNothing(c: Coder, input: seq<byte>)
    ensures MayLeave(c, input, [])
  {
  }

  /** Successful items do not show what a later failure leaves. */
  lemma {:induction false} AnyLeft(c: Coder, left: seq<byte>, initial: seq<byte>, items: seq<Item>,
                                   outputs: seq<Output>, n: nat)
    requires ValidCoder(c) && n <= |items| == |outputs|
    requires Succeeds(CodecOf(c, []), initial, items, outputs, n) ||
             Succeeds(CodecOf(c, left), initial, items, outputs, n)
    ensures forall k :: 0 <= k < n ==>
              CodeItem(CodecOf(c, left), initial, items, outputs, k)
              == CodeItem(CodecOf(c, []), initial, items, outputs, k)
    ensures After(CodecOf(c, left), initial, items, outputs, n) == After(CodecOf(c, []), initial, items, outputs, n)
    ensures Succeeds(CodecOf(c, left), initial, items, outputs, n)
    ensures Succeeds(CodecOf(c, []), initial, items, outputs, n)
  {
    hide CodecOf, After, Contents, ValidCoder, Size;
    forall k | 0 <= k < n
      ensures CodeItem(CodecOf(c, left), initial, items, outputs, k)
           == CodeItem(CodecOf(c, []), initial, items, outputs, k)
    {
      LeftOnlyOnFailure(c, left, Contents(initial, items[k]), Size(outputs[k].range));
    }
    SameCoding(CodecOf(c, left), CodecOf(c, []), initial, items, outputs, n);
  }

  // ----- what a decoded batch means -----

  /** A destination that holds the meaning of its item and, behind that, what it held before. */
  predicate Delivered(meaning: Option<seq<byte>>, was: seq<byte>, now: seq<byte>, count: nat) {
    meaning.Some? && |meaning.value| == count <= |was| && now == meaning.value + was[count..]
  }

  /** The destination of an item that stops the batch: too small for the meaning and unchanged, or, when there is no
      meaning, with changes in front of the bound only. */
  ghost predicate Refused(meaning: Option<seq<byte>>, was: seq<byte>, now: seq<byte>, bound: nat) {
    match meaning
    case Some(v) => |v| > |was| && now == was
    case None => Spares(was, now, bound)
  }

  lemma DecodedItem(p: Policy, continueAfterPadding: bool, left: seq<byte>, s: seq<byte>, was: seq<byte>,
                    now: seq<byte>)
    requires var coded := DecodeCodec(p, continueAfterPadding, left)(s, |was|);
             |coded.bytes| <= |was| && now == coded.bytes + was[|coded.bytes|..]
    ensures var coded := DecodeCodec(p, continueAfterPadding, left)(s, |was|);
            var meaning := PolicyMeaning(p, continueAfterPadding, s);
            && (coded.ok ==> Delivered(meaning, was, now, |coded.bytes|))
            && (!coded.ok ==> Refused(meaning, was, now, |left|))
  {
    hide PolicyMeaning;
  }

  /** After some items, a destination among them is delivered or refused as its codec succeeds or fails. */
  lemma {:induction false} DecodedOutput(p: Policy, continueAfterPadding: bool, left: seq<byte>, initial: seq<byte>,
                                         items: seq<Item>, outputs: seq<Output>, n: nat, j: nat)
    requires World(|initial|, items, outputs) && j < n <= |items|
    ensures var codec := DecodeCodec(p, continueAfterPadding, left);
            var meaning := PolicyMeaning(p, continueAfterPadding, Contents(initial, items[j]));
            var was := Read(initial, outputs[j].range);
            var now := Read(After(codec, initial, items, outputs, n), outputs[j].range);
            var coded := CodeItem(codec, initial, items, outputs, j);
            && (coded.ok ==> Delivered(meaning, was, now, |coded.bytes|))
            && (!coded.ok ==> Refused(meaning, was, now, |left|))
  {
    hide After, PolicyMeaning, Contents, DecodeCodec, Fits, Delivered, Refused;
    var codec := DecodeCodec(p, continueAfterPadding, left);
    DecodeCodecFits(p, continueAfterPadding, left);
    AfterOutput(codec, initial, items, outputs, n, j);
    var out := outputs[j].range;
    assert |Read(initial, out)| == Size(out);
    DecodedItem(p, continueAfterPadding, left, Contents(initial, items[j]), Read(initial, out),
                Read(After(codec, initial, items, outputs, n), out));
  }

  /** Memory apart from the destinations of the first items keeps its contents. */
  lemma OthersKept(codec: Codec, initial: seq<byte>, items: seq<Item>, outputs: seq<Output>, n: nat)
    requires Fits(codec) && World(|initial|, items, outputs) && n <= |items|
    ensures forall r :: InMemory(r, |initial|) && Apart(r, outputs[..n]) ==>
              Read(After(codec, initial, items, outputs, n), r) == Read(initial, r)
  {
    hide After, Fits;
    forall r | InMemory(r, |initial|) && Apart(r, outputs[..n])
      ensures Read(After(codec, initial, items, outputs, n), r) == Read(initial, r)
    {
      assert forall j :: 0 <= j < n ==> outputs[..n][j] == outputs[j];
      ApartUnchanged(codec, initial, items, outputs, n, r);
    }
  }

  lemma RefusedMore(meaning: Option<seq<byte>>, was: seq<byte>, now: seq<byte>, m: nat, n: nat)
    requires Refused(meaning, was, now, m) && m <= n
    ensures Refused(meaning, was, now, n)
  {
    if meaning.None? {
      SparesMore(was, now, m, n);
    }
  }

  lemma SparesMore(was: seq<byte>, now: seq<byte>, m: nat, n: nat)
    requires Spares(was, now, m) && m <= n
    ensures Spares(was, now, n)
  {
    if n < |was| {
      assert now[n..] == now[m..][n - m..];
    }
  }

  /** Whatever memory items and destinations share, a batch decodes what its items held at the start: the items before
      the first failure are delivered, the failing one is refused, and no other byte changes. */
  method DecodeBatchInto(backend: Backend, wide: bool, semantics: Semantics, p: Policy, emptyExactIgnorechars: bool,
                         memory: array<byte>, items: seq<Item>, outputs: seq<Output>)
    returns (counts: seq<nat>, failed: bool, ghost touched: nat)
    requires World(memory.Length, items, outputs)
    requires p.alphabet.Some? ==> p.ignored.Some?
    requires emptyExactIgnorechars ==> p.ignored == Some({})
    modifies memory
    ensures |counts| <= |items| && (failed <==> |counts| < |items|)
    ensures touched == if failed && !items[|counts|].NotABuffer? then |counts| + 1 else |counts|
    ensures forall j :: 0 <= j < |counts| ==>
              && !items[j].NotABuffer?
              && Delivered(PolicyMeaning(p, semantics.continuesAfterPadding, Contents(old(memory[..]), items[j])),
                           Read(old(memory[..]), outputs[j].range), Read(memory[..], outputs[j].range), counts[j])
    ensures failed && !items[|counts|].NotABuffer? ==>
              var s, out := Contents(old(memory[..]), items[|counts|]), outputs[|counts|].range;
              Refused(PolicyMeaning(p, semantics.continuesAfterPadding, s), Read(old(memory[..]), out),
                      Read(memory[..], out), DecodedLenUpperBound(PolicyTable(p), s))
    ensures forall r :: InMemory(r, memory.Length) && Apart(r, outputs[..touched]) ==>
              Read(memory[..], r) == Read(old(memory[..]), r)
  {
    hide After, PolicyMeaning, PolicyTable, DecodedLenUpperBound, Contents, World, Delivered, Refused, CodeItem, Fits,
         DecodeCodec;
    ghost var initial := memory[..];
    var c := Decoding(backend, wide, semantics, p, emptyExactIgnorechars);
    ghost var left;
    counts, failed, left := CodeBatchInto(c, memory, items, outputs);
    touched := if failed && !items[|counts|].NotABuffer? then |counts| + 1 else |counts|;
    ghost var codec := CodecOf(c, left);
    CodecOfFits(c, left);
    WorldSizes(initial, items, outputs);
    OthersKept(codec, initial, items, outputs, touched);
    forall j | 0 <= j < |counts|
      ensures InMemory(outputs[j].range, |initial|)
      ensures Delivered(PolicyMeaning(p, semantics.continuesAfterPadding, Contents(initial, items[j])),
                        Read(initial, outputs[j].range), Read(memory[..], outputs[j].range), counts[j])
    {
      OutputInMemory(|initial|, items, outputs, j);
      DecodedOutput(p, semantics.continuesAfterPadding, left, initial, items, outputs, touched, j);
    }
    if touched > |counts| {
      ghost var s, out := Contents(initial, items[|counts|]), outputs[|counts|].range;
      OutputInMemory(|initial|, items, outputs, |counts|);
      DecodedOutput(p, semantics.continuesAfterPadding, left, initial, items, outputs, touched, |counts|);
      RefusedMore(PolicyMeaning(p, semantics.continuesAfterPadding, s), Read(initial, out), Read(memory[..], out),
                  |left|, DecodedLenUpperBound(PolicyTable(p), s));
    }
  }

  // ----- what an encoded batch holds -----

  /** A destination that holds a text and, behind that, what it held before. */
  predicate Holds(text: seq<byte>, was: seq<byte>, now: seq<byte>, count: nat) {
    |text| == count <= |was| && now == text + was[count..]
  }

  lemma {:induction false} EncodedOutput(e: PreparedEncoder, initial: seq<byte>, items: seq<Item>, outputs: seq<Output>,
                                         n: nat, j: nat)
    requires e.wrapping.Some? ==> e.wrapping.value > 0
    requires World(|initial|, items, outputs) && j < n <= |items|
    ensures var codec := EncodeCodec(e);
            var text := Text(e, Contents(initial, items[j]));
            var was := Read(initial, outputs[j].range);
            var now := Read(After(codec, initial, items, outputs, n), outputs[j].range);
            var coded := CodeItem(codec, initial, items, outputs, j);
            && (coded.ok ==> Holds(text, was, now, |coded.bytes|))
            && (!coded.ok ==> |text| > |was| && now == was)
  {
    hide After, Contents, Text, Fits;
    EncodeCodecFits(e);
    AfterOutput(EncodeCodec(e), initial, items, outputs, n, j);
    var out := outputs[j].range;
    assert |Read(initial, out)| == Size(out);
  }

  /** Whatever memory items and destinations share, a batch encodes what its items held at the start: the items before
      the first failure are written, and no other byte changes. */
  method EncodeBatchInto(m: Machine, e: PreparedEncoder, memory: array<byte>, items: seq<Item>, outputs: seq<Output>)
    returns (counts: seq<nat>, failed: bool)
    requires ValidEncoder(e) && World(memory.Length, items, outputs)
    modifies memory
    ensures |counts| <= |items| && (failed <==> |counts| < |items|)
    ensures forall j :: 0 <= j < |counts| ==>
              && !items[j].NotABuffer?
              && Holds(Text(e, Contents(old(memory[..]), items[j])), Read(old(memory[..]), outputs[j].range),
                       Read(memory[..], outputs[j].range), counts[j])
    ensures failed ==>
              || items[|counts|].NotABuffer?
              || |Text(e, Contents(old(memory[..]), items[|counts|]))| > Size(outputs[|counts|].range)
    ensures forall r :: InMemory(r, memory.Length) && Apart(r, outputs[..|counts|]) ==>
              Read(memory[..], r) == Read(old(memory[..]), r)
  {
    hide After, Contents, World, Holds, CodeItem, Fits, EncodeCodec, Text;
    ghost var initial := memory[..];
    ghost var left;
    counts, failed, left := CodeBatchInto(Encoding(m, e), memory, items, outputs);
    ghost var codec := EncodeCodec(e);
    EncodeCodecFits(e);
    WorldSizes(initial, items, outputs);
    EncodedMemory(e, initial, items, outputs, |counts|, failed);
    OthersKept(codec, initial, items, outputs, |counts|);
    forall j | 0 <= j < |counts|
      ensures InMemory(outputs[j].range, |initial|)
      ensures Holds(Text(e, Contents(initial, items[j])), Read(initial, outputs[j].range),
                    Read(memory[..], outputs[j].range), counts[j])
    {
      OutputInMemory(|initial|, items, outputs, j);
      EncodedOutput(e, initial, items, outputs, |counts|, j);
    }
  }

  /** A failing encoding writes nothing. */
  lemma EncodedMemory(e: PreparedEncoder, initial: seq<byte>, items: seq<Item>, outputs: seq<Output>, n: nat,
                      failed: bool)
    requires e.wrapping.Some? ==> e.wrapping.value > 0
    requires World(|initial|, items, outputs) && n <= |items| && (failed ==> n < |items|)
    requires Succeeds(EncodeCodec(e), initial, items, outputs, n)
    requires failed ==> !Succeeds(EncodeCodec(e), initial, items, outputs, n + 1)
    ensures After(EncodeCodec(e), initial, items, outputs,
                  if failed && !items[n].NotABuffer? then n + 1 else n)
         == After(EncodeCodec(e), initial, items, outputs, n)
    ensures failed && !items[n].NotABuffer? ==> |Text(e, Contents(initial, items[n]))| > Size(outputs[n].range)
  {
    hide After, Contents, Text;
    if failed && !items[n].NotABuffer? {
      AfterStep(EncodeCodec(e), initial, items, outputs, n);
    }
  }

  // ----- a batch there and back -----

  /** The encoder writes the symbols that a policy reads. */
  ghost predicate Writes(e: PreparedEncoder, p: Policy) {
    && e.wrapping.None? && e.padded == p.padded
    && forall v: byte :: v < 64 ==> SymbolTable(e.alphabet)(v) == AltTable(p.altchars)(v)
  }

  /** After a batch encoding that succeeds, whatever memory items and destinations share, every destination starts with
      a text that decodes to what its item held at the start. */
  lemma {:induction false} BatchRoundTrip(p: Policy, continueAfterPadding: bool, e: PreparedEncoder, initial: seq<byte>,
                                          items: seq<Item>, outputs: seq<Output>, j: nat)
    requires Writes(e, p) && IgnoresNothing(p) && RoundTrips(p.altchars, p.padded)
    requires World(|initial|, items, outputs) && j < |items| == |outputs|
    requires Succeeds(EncodeCodec(e), initial, items, outputs, |items|)
    ensures var text := Text(e, Contents(initial, items[j]));
            && |text| <= Size(outputs[j].range)
            && Read(After(EncodeCodec(e), initial, items, outputs, |items|), outputs[j].range)[..|text|] == text
            && PolicyMeaning(p, continueAfterPadding, text) == Some(Contents(initial, items[j]))
  {
    hide After, Contents, Text, PolicyMeaning, World, AltTable;
    EncodeCodecFits(e);
    AfterOutput(EncodeCodec(e), initial, items, outputs, |items|, j);
    assert CodeItem(EncodeCodec(e), initial, items, outputs, j).ok;
    TextMeaning(p, continueAfterPadding, e, Contents(initial, items[j]));
  }

  lemma TextMeaning(p: Policy, continueAfterPadding: bool, e: PreparedEncoder, s: seq<byte>)
    requires Writes(e, p) && IgnoresNothing(p) && RoundTrips(p.altchars, p.padded)
    ensures PolicyMeaning(p, continueAfterPadding, Text(e, s)) == Some(s)
  {
    hide Values, PolicyMeaning, AltTable;
    ValuesSextets(s);
    MapAgree(SymbolTable(e.alphabet), AltTable(p.altchars), Values(s));
    EncodedMeaning(p, continueAfterPadding, s);
  }
}
