# Verified model of the hashcodecs Base64 and MurmurHash3 code

This project models the Base64 codec of hashcodecs as one stack, from vector lanes to the Python-facing
drivers, and its MurmurHash3 hashers, and proves them against small specifications. Base64 itself is
RFC 4648: the standard alphabet (section 4), the URL-safe alphabet (section 5), padding (section 3.2), bytes
outside the alphabet (section 3.3) and canonical tail bits (section 3.5).

## How it is built

* **Memory.** A destination is an `array<byte>`. `Bytes.Store(m, at, v)` is memory `m` with `v` stored at
  `at`. Every method that writes says what the whole array holds afterwards in these terms, so "nothing else
  changed" is part of every claim. Vectors are short byte sequences and every intrinsic is its lane arithmetic.
* **Strict decoding.** `Strict.StrictPadded` and `Strict.StrictUnpadded` are the specification.
  `DecodeKernels.Wrote` is the state every kernel keeps: memory is the decoding of a valid prefix of the input,
  with a short overlap behind it that the next store repairs.
* **Lenient decoding.** `LenientSpec.Run` is the machine that looks at one byte at a time. `Lenient.Inv` ties the
  decoder's variables to it, and each fast path is one step that keeps it.
* **Configured decoding.** `ConfiguredSpec.ConfiguredValue` gives each byte's table value under a policy,
  and `StrictRun`, `LenientValues` and `ConfiguredValues` the meaning of a table. Counting and writing sinks are
  one class, `ScanSinks.ScanSink`, so one proof of each scanner serves both passes. `StagingCuts` says where the
  writer cuts what is pushed, so what a failing scan leaves in memory is known as well (`ConfiguredSpace`).
* **Drivers.** `DriverSpec.PolicyMeaning` is the meaning of a whole policy, without routes, shortcuts, probes or
  scanners. `Driver.Execute` and `AllocatingDriver.ExecuteAllocating` meet it for every policy.
* **Encoding.** `EncodeSpec.Encoded` and `EncodeSpec.Wrapped` are the specification; the kernels, the scalar
  encoder, the backwards in-place expansion and the streaming column writer meet it. `RoundTrip` joins both halves.
* **Batches.** Memory is one address space with ranges, items and outputs. `Batch.After` is the memory that would
  result had every input been read before any write. `BatchCodecs` runs the encoder and the decode driver on every item
  in place, and the loop ends in that memory.
* **Laws.** What the specifications themselves compute is pinned by laws stated without them: texts and decodings byte
  by byte in plain numbers (`EncodedText`, `DecodedText`, `Characters`), acceptance by counting symbols and `=`
  (`ScanLaws`), policies by literal classes of bytes (`PolicyLaws`), hash steps by inverses written out on their own and
  by known digests (`MurmurX64Laws`, `MurmurX86Laws`, `MurmurX86ShortLaws`).
* **MurmurHash3.** Words are numbers below 2^32 or 2^64 with wrap-around arithmetic; `Digest` of a message is the
  specification, and hashers keep the message as ghost state.

Choices that do not affect results, such as backend, store width, streaming stores and alignment, are arbitrary
parameters, so every claim holds for each of them. `dafny verify dfyconfig.toml` checks the project.

## Model

| member | source | states |
|---|---|---|
| `Driver.Execute` | src/bindings/base64/decode.rs:186-330 | For every policy, input, buffer, backend and interpreter semantics, the attempts that share one buffer end as the single specification `PolicyMeaning` says: on success the buffer is the meaning stored over its original contents, so every byte behind it is as before whatever failed probes wrote; a capacity error leaves the whole buffer as it was and asks for exactly what the meaning takes, or, for input without one, for no more than the decoder's upper bound; no native result happens only for input without a meaning, and then every byte past the decoder's upper bound of the decoded length is as before |
| `AllocatingDriver.ExecuteAllocating` | src/bindings/base64/decode.rs:168-184 | The allocating decode returns the same `PolicyMeaning` for every policy, though it takes other attempts in another order. Its own error for nonzero padding bits is returned exactly on the route with the standard shortcut for strictly decodable text without a meaning. All attempts, failing ones too, store inside the space the code allocates for them on every backend but Neon; on Neon they do if and only if the input is not one that `RouteOverruns` names |
| `RoundTrip.PolicyRoundTrip` | src/bindings/base64/decode.rs:212-330 | Under every policy that ignores nothing, decoding what the encoder writes for the same altchars and padding gives all bytes back if and only if the altchars differ, are not alphanumeric, and, in padded text, are not `=` |
| `RoundTrip.EncodedMeaning` | src/bindings/base64/decode.rs:212-330 | For such altchars every byte string survives: strict or lenient, padded or not, canonical demand included, newline and (unpadded) `=` altchars included |
| `RoundTrip.MisreadSymbol` | src/bindings/base64/decode.rs:212-330 | A symbol that the table reads as another value breaks the round trip of the bytes that start with that value |
| `RoundTrip.PaddingRead` | src/bindings/base64/decode.rs:212-330 | With `=` as an altchar padded text of one byte is read as three bytes |
| `PolicyLaws.TableIs` | src/bindings/base64/configured.rs:106-156 | The table of every policy by literal classes: which bytes are symbols for each combination of custom alphabet, altchars and ignore list, for which values, and which are skipped; all others are invalid |
| `PolicyLaws.StrictMeaning` | src/bindings/base64/configured.rs:662-723 | What a strict policy makes of an input, exactly: symbols then `=` with skipped bytes anywhere, no lone symbol, exactly the missing `=` (at least these where `=` is skipped), no stray bits if demanded; then the decoding of its symbols, else nothing |
| `PolicyLaws.StrictBytes` | src/bindings/base64/configured.rs:662-723 | A strict policy accepts no bytes but its symbols, those it skips, and `=` as padding |
| `PolicyLaws.PlusAndSlashLeave` | src/bindings/base64/configured.rs:133-144 | Next to altchars and an ignore list `+` and `/` are out: a strict policy refuses any input with one of them that is neither altchar nor listed, a lenient policy reads as if it were not there |
| `PolicyLaws.LenientMeaningIs` | src/bindings/base64/configured.rs:725-809 | What a lenient policy makes of an input where it goes on behind padding or needs none, exactly: the number of symbols and of `=` behind the last one decide, everything else is dropped |
| `PolicyLaws.LenientDrops` | src/bindings/base64/configured.rs:725-809 | In every mode a lenient policy drops a byte that is neither symbol nor padding |
| `PolicyLaws.PaddingDemand` | src/bindings/base64/decode.rs:212-330 | Symbols of any bytes followed by any number of `=` give the bytes back exactly when that number is what the policy demands: the missing ones (strict), at least these (lenient, or strict with `=` skipped), none (strict unpadded), any (otherwise) |
| `PolicyLaws.LenientPaddingDemand` | src/bindings/base64/lenient.rs:306-533 | The same of the plain lenient decoder: padded text with too little `=` is refused, with enough it means the bytes |
| `PolicyLaws.StopsBehindPadding` | src/bindings/base64/lenient.rs:306-533 | Where decoding stops behind padding, text with its complete padding means itself whatever follows |
| `PolicyLaws.PolicyStopsBehindPadding` | src/bindings/base64/configured.rs:725-809 | So under every lenient padded policy |
| `PolicyLaws.CanonicalExactly` | src/bindings/base64/decode.rs:212-330 | A strict canonical policy that skips nothing and has one symbol for each value accepts exactly the encoder's text of some bytes, and as these bytes |
| `PolicyLaws.CanonicalInverse` | src/bindings/base64/decode.rs:212-330 | That holds without altchars, and for usable altchars next to an empty ignore list |
| `PolicyLaws.AltcharsReadBack` | src/bindings/base64/configured.rs:133-156 | Distinct non-alphanumeric altchars other than `=` read back under every ignore list |
| `PolicyLaws.AlphabetReadsBack` | src/bindings/base64/configured.rs:111-121 | So do the distinct symbols of a custom alphabet without `=` |
| `PolicyLaws.UpperBoundExact` | src/bindings/base64/lenient.rs:205-216 | The estimate of the decoded length is exact on what the encoder writes |
| `RoundTrip.StrictOfEncoded` | src/base64/encode/api.rs:547-643 | Strict decoding of an encoding is the identity for both alphabets, padded and unpadded, and the length query reports the original length |
| `RoundTrip.EncodedOfStrict` | src/base64/decode/api.rs:480-550 | Encoding a strict decoding gives the text back if and only if the unused bits of the last symbol are zero |
| `RoundTrip.EncodedOfStrictUnpadded` | src/base64/decode/api.rs:553-594 | Without padding too, encoding a strict decoding gives the text back if and only if the unused bits of the last symbol are zero |
| `RoundTrip.LenientOfEncoded` | src/bindings/base64/encode.rs:371-397 | Lenient decoding of an encoding is the identity with line breaks of any positive width and without: padded text under either padding policy, unpadded text where padding is not required |
| `RoundTrip.ScanIgnoresNewlines` | src/bindings/base64/lenient.rs:306-533 | A lenient scan has the same outcome on a text and on the text without its newlines, from any state |
| `RoundTrip.StrippedWrapped` | src/bindings/base64/encode.rs:371-397 | Removing the newlines of a wrapped text gives the text: wrapping adds nothing else and loses nothing |
| `Alphabet.BuildDecodeTable` | src/base64/alphabet.rs:20-48 | The constructed 256-entry table holds, for each byte, its value in the alphabet and 255 outside it |
| `Alphabet.SymbolTables` | src/bindings/base64/lenient.rs:174-202 | A byte is a lenient symbol exactly when its table value is below 64; the URL-safe lenient table is the mixed strict table with 64 for invalid |
| `Alphabet.StrictValuesAreSymbols` | src/bindings/base64/lenient.rs:321-325 | The alphabet given to the prefix kernel has the same symbols and values as the lenient table it stands for |
| `Alphabet.SymbolValueInverse` | src/base64/alphabet.rs:1-9 | Every value has a symbol that decodes to it, in its own and in the mixed alphabet, and no symbol is `=` or a newline |
| `Alphabet.ValueSymbolInverse` | src/base64/alphabet.rs:1-9 | Every symbol is the one its value encodes to |
| `Characters.SymbolIs` | src/base64/alphabet.rs:1-9 | Each value's symbol is the character at its place in the alphabet written out |
| `Characters.AltSymbolIs` | src/bindings/base64/encode.rs:40-46 | Altchars and the URL-safe alphabet replace the last two characters and nothing else |
| `Characters.ValueIs` | src/base64/alphabet.rs:20-48 | The three strict tables read exactly the characters of their alphabets, each as its place |
| `Quantum.DecodeConcat` | src/base64/decode/api.rs:641-673 | Decoding whole quartets and then the rest is decoding the whole: blocks may be decoded independently |
| `Quantum.DecodePush` | src/bindings/base64/lenient.rs:478-525 | One more value adds exactly the byte that it completes together with the bits left over by the value before it |
| `Quantum.DecodePrefix` | src/bindings/base64/decode.rs:239-315 | The decoding of a prefix of values is a prefix of the decoding |
| `DecodedText.DecodeAt` | src/base64/decode/api.rs:641-673 | Each decoded byte in plain numbers: values are six bits each, bytes eight, and bits that fill no byte are dropped |
| `DecodeLanes.ClassesAgreeWithTable` | src/base64/decode/tables.rs:20-64 | For each byte, the nibble classes and the complemented ones find an error exactly outside the alphabet |
| `DecodeLanes.TranslationsAgreeWithTable` | src/base64/decode/tables.rs:3-18 | For each symbol, the offset, hashed-offset and Neon translations all give its table value |
| `DecodeLanes.LaneAgreesWithTable` | src/base64/decode/avx2.rs:210-289 | For each of the 256 bytes, every kernel lane reports an error exactly when the 256-entry table does, and otherwise holds the table value |
| `DecodeLanes.HighNibblesPerByte` | src/base64/decode/avx2.rs:292-294 | Shifting 16-bit lanes and masking gives the high nibble of each byte separately |
| `DecodeLanes.NibbleLanesAt` | src/base64/decode/ssse3.rs:105-107 | The nibble lanes that the x86 kernels classify and translate by, computed in pairs of bytes, hold each byte's own high nibble |
| `DecodeLanes.PackedDwordIsQuantum` | src/base64/decode/avx2.rs:297-305 | The two multiply-add steps pack four values into the three bytes of a quantum, in reversed byte order |
| `Vectors.DecodeIndices` | src/base64/decode/ssse3.rs:27-102 | Classifying and translating a vector, or the active lanes of a masked one, is exact lane by lane: a lane is clean exactly on a valid byte, and then holds its value |
| `Vectors.PackedLane` | src/base64/decode/ssse3.rs:115-121 | Pack and shuffle of a 128-bit lane give its twelve decoded bytes and four zero bytes |
| `Vectors.PackedPrefix` | src/base64/decode/avx512.rs:298-335 | Pack and shuffle of a vector whose leading quartets are valid give their decoding, whatever the lanes behind hold |
| `Vectors.BuildDecodeShuffle` | src/base64/decode/avx512.rs:24-46 | The filled shuffle picks, for each output byte, the packed byte in quantum order |
| `DecodeEmit.ProgressStep` | src/base64/decode/avx2.rs:307-340 | A store behind a decoded prefix extends it and repairs the overlap that the store before left |
| `DecodeEmit.Store12Exact` | src/base64/decode/ssse3.rs:126-130 | The 8-byte and 4-byte stores write the twelve payload bytes and nothing else |
| `DecodeEmit.Store12Padded` | src/base64/decode/ssse3.rs:135-137 | The wide store writes the payload and exactly four bytes behind it |
| `DecodeEmit.Emit16` | src/base64/decode/sse_kernels.rs:28-50 | A stored block of sixteen valid symbols extends the decoded prefix by twelve bytes, with the slack of its store mode behind |
| `DecodeEmit.Store24` | src/base64/decode/avx2.rs:307-340 | The two overlapping lane stores leave 24 payload bytes: the second repairs the first; the exact form writes nothing behind them, the padded form four bytes, the wide form eight |
| `DecodeEmit.Emit32` | src/base64/decode/avx2.rs:46-90 | A stored block of 32 valid symbols extends the decoded prefix by 24 bytes, with the overlap of its store form behind |
| `DecodeEmit.Emit64Masked` | src/base64/decode/avx512.rs:136-138 | A masked store of the first quartets of a vector extends the decoded prefix by exactly their bytes |
| `DecodeEmit.InterleavedPackIsDecode` | src/base64/decode/aarch64.rs:232-249 | Packing four de-interleaved vectors and storing them interleaved by three is the decoding of the 64 values |
| `DecodeKernels.DecodeGroupSse` | src/base64/decode/sse_kernels.rs:13-37 | Four vectors are decoded and stored if and only if all are valid; otherwise memory is unchanged |
| `DecodeKernels.DecodeBlockSse` | src/base64/decode/sse_kernels.rs:39-50 | One vector is decoded and stored if and only if it is valid; otherwise memory is unchanged |
| `DecodeKernels.DecodeSse` | src/base64/decode/sse_kernels.rs:4-53 | The kernel succeeds exactly when all whole 16-byte blocks are in the alphabet, then covers just these; memory always is a decoded valid prefix with at most the slack of the store mode behind it |
| `DecodeKernels.ValidateSse` | src/base64/decode/sse_kernels.rs:56-85 | Validation succeeds exactly when the decoding kernel does, over the same length |
| `DecodeKernels.DecodePrefixSse` | src/base64/decode/sse_kernels.rs:88-136 | Consumes the longest multiple of 16 bytes inside the alphabet and writes exactly its decoding |
| `DecodeKernels.DecodeGroupAvx2` | src/base64/decode/avx2.rs:31-67 | Four 32-byte vectors are decoded and stored if and only if all are valid, with overlapping stores repaired |
| `DecodeKernels.DecodeBlockAvx2` | src/base64/decode/avx2.rs:69-84 | One 32-byte vector is decoded and stored if and only if it is valid |
| `DecodeKernels.DecodeAvx2` | src/base64/decode/avx2.rs:23-95 | As the SSE kernel: exact acceptance over whole 16-byte blocks, decoded prefix, at most four bytes of slack, none in exact mode |
| `DecodeKernels.ValidateAvx2` | src/base64/decode/avx2.rs:98-140 | Validation succeeds exactly when all whole 16-byte blocks are in the alphabet |
| `DecodeKernels.DecodePrefixAvx2` | src/base64/decode/avx2.rs:143-207 | Consumes the longest multiple of 16 bytes inside the alphabet, across its 128-, 32- and 16-byte steps, and writes exactly its decoding |
| `DecodeWide.DecodePair512` | src/base64/decode/avx512.rs:65-96 | Two vectors are decoded if and only if both are valid; otherwise memory is unchanged |
| `DecodeWide.DecodeMasked512` | src/base64/decode/avx512.rs:98-141 | A full or masked vector is decoded if and only if its active lanes are valid, writing exactly their bytes |
| `DecodeWide.DecodeRest512` | src/base64/decode/avx512.rs:98-143 | Single vectors and the masked tail finish the decode over all whole quartets |
| `DecodeWide.DecodeLong512` | src/base64/decode/avx512.rs:49-144 | From 64 bytes on the kernel accepts exactly inputs whose whole quartets are valid, and writes exactly their decoding |
| `DecodeWide.DecodeAvx512` | src/base64/decode/avx512.rs:49-144 | Short inputs go to the AVX2 kernel; either way the covered length is exact and memory is the decoded prefix |
| `DecodeWide.ValidateAvx512` | src/base64/decode/avx512.rs:147-190 | Validation from 64 bytes on accepts exactly inputs that are wholly in the alphabet |
| `DecodeWide.DecodePrefixLong512` | src/base64/decode/avx512.rs:193-294 | From 64 bytes on consumes the longest multiple of four bytes inside the alphabet and writes exactly its decoding |
| `DecodeWide.DecodePrefixAvx512` | src/base64/decode/avx512.rs:193-294 | Granularity four from 64 bytes on, else sixteen; always the longest such prefix |
| `DecodeWide.DecodeTail512` | src/base64/decode/avx512.rs:260-291 | The masked retry of a failed vector decodes its quartets in front of the first error and stops at an invalid one |
| `DecodeWide.TailIsLongest` | src/base64/decode/avx512.rs:260-291 | A prefix that ends at an invalid quartet, or where fewer than four bytes are left, is the longest |
| `DecodeNeon.Decode64` | src/base64/decode/aarch64.rs:211-243 | Sixty-four bytes are clean exactly when valid, and pack to the decoding of their index lanes, valid or not |
| `DecodeNeon.StoreIndices16` | src/base64/decode/aarch64.rs:186-207 | Sixteen values are stored as their twelve decoded bytes |
| `DecodeNeon.DecodeChunk` | src/base64/decode/aarch64.rs:33-49 | A chunk is stored before its accumulated errors are known; the errors are clean exactly when the chunk is valid |
| `DecodeNeon.DecodeAccumulating` | src/base64/decode/aarch64.rs:24-53 | Stores-before-checking accepts exactly valid blocks and then holds their decoding. What is stored is exact on failure too: the index lanes' decoding of all blocks up to the end of the first interval with an invalid byte, or of a valid prefix when all 64-byte blocks are valid |
| `DecodeNeon.DecodeIntervals` | src/base64/decode/aarch64.rs:24-53 | Intervals of at most 4096 bytes are stored and then tested: the loop ends behind the first one with an invalid byte, and accepts exactly valid 64-byte blocks |
| `DecodeNeon.RawValid` | src/base64/decode/aarch64.rs:211-243 | On valid bytes what the index lanes pack to is the decoding |
| `DecodeNeon.DecodeValidatedBlocksNeon` | src/base64/decode/aarch64.rs:56-78 | The checking form gives the same verdict, and on failure too memory is only the decoding of a valid prefix |
| `DecodeNeon.DecodeTailNeon` | src/base64/decode/aarch64.rs:141-162 | The 16-byte tail loop extends the decoded prefix to all whole blocks |
| `DecodeNeon.DecodeBlockNeon` | src/base64/decode/aarch64.rs:166-182 | One 16-byte block is stored if and only if it is valid |
| `DecodeNeon.ValidateNeon` | src/base64/decode/aarch64.rs:81-104 | Validation accepts exactly valid whole blocks |
| `DecodeNeon.DecodeStandardValidatedNeon` | src/base64/decode/aarch64.rs:108-137 | Unchecked decoding of validated input covers all whole blocks with their decoding |
| `Strict.DecodeWithBackend` | src/base64/runtime_dispatch.rs:644-705 | Every backend and both error-write policies give one verdict; under the validated-blocks policy a failing call leaves only the decoding of a valid prefix, whatever slack was offered |
| `Strict.DecodeQuad` | src/base64/decode/api.rs:641-673 | A quartet with up to two padding bytes is stored if and only if its data symbols are valid |
| `Strict.DecodeEight` | src/base64/decode/api.rs:739-767 | Eight symbols are stored as six bytes if and only if all are valid |
| `Strict.OrOfValues` | src/base64/decode/api.rs:739-767 | The or of eight table values is 255 exactly when one of the bytes is invalid |
| `Strict.ScalarLoops` | src/base64/decode/api.rs:510-549 | From any decoded prefix with slack behind it, the scalar loops decode the rest exactly when it is valid, and only shrink the slack |
| `Strict.ScalarTail` | src/base64/decode/api.rs:538-547 | The padded last quartet is decoded exactly when its data symbols are valid |
| `Strict.DecodeLayout` | src/base64/decode/api.rs:597-635 | A layout exists exactly for multiples of four, with the trailing padding and the decoded length of the data |
| `Strict.DecodeUnpaddedLayout` | src/base64/decode/api.rs:236-256 | An unpadded layout exists unless one symbol is left over |
| `StrictApi.DecodeToPtr` | src/base64/decode/api.rs:480-550 | Kernel then scalar tail is the pure strict decoding in verdict and bytes, for every backend; on failure under the validated-blocks policy only a decoded valid prefix was written, and where partial writes are allowed the bytes are a decoded valid prefix or, on Neon, exactly what the late test lets through |
| `StrictApi.DecodeUnpaddedToPtr` | src/base64/decode/api.rs:553-594 | The same for unpadded input with its two- or three-symbol tail, on failure too |
| `StrictApi.FinishUnpadded` | src/base64/decode/api.rs:577-587 | Behind decoded whole quartets the tail completes the decoding exactly when it is valid, and is left unwritten otherwise |
| `StrictApi.DecodeUnpaddedTail` | src/base64/decode/api.rs:695-717 | A tail of two or three symbols is stored if and only if it is valid |
| `StrictApi.DecodeStandardValidated` | src/base64/decode/api.rs:403-453 | Decoding without checks is the strict decoding on validated standard input |
| `StrictApi.ValidateAlphabet` | src/base64/decode/api.rs:260-281 | Accepts exactly inputs wholly inside the alphabet, kernel part and scalar part together |
| `StrictApi.DecodeValidPrefix` | src/base64/runtime_dispatch.rs:363-393 | Available exactly on the x86 vector backends; consumes the longest prefix of its granularity and writes exactly its decoding |
| `StrictApi.DecodeStrictInto` | src/bindings/base64/strict.rs:71-101 | Capacity is checked against the layout before anything is written; then the verdict and bytes are those of the specification, and failed probes wrote a decoded valid prefix at most |
| `StrictApi.DecodeUnpaddedInto` | src/bindings/base64/strict.rs:144-178 | The same for unpadded input; `=` anywhere is rejected before capacity is looked at |
| `StrictApi.DecodeAllocating` | src/base64/decode/api.rs:187-228 | The allocating decode, padded stores included, returns the specification's result: slack never shows |
| `StrictApi.DecodeStrictAllocating` | src/bindings/base64/strict.rs:20-62 | The padded decode into an object of exactly the layout's size returns the specification's result, and all its stores, failing ones too, are inside that object |
| `StrictApi.DecodeUnpaddedAllocating` | src/bindings/base64/strict.rs:103-137 | The unpadded decode into an object of exactly the layout's size returns the specification's result, and all its stores, failing ones too, are inside that object |
| `StrictApi.DecodedLenIsExact` | src/base64/decode/api.rs:89-97 | Whenever decoding succeeds, the length query reports its length |
| `DecodedText.StrictPaddedExactly` | src/base64/decode/api.rs:480-550 | Strict decoding accepts exactly whole quartets of symbols followed by at most two `=`, as the decoding of these symbols |
| `DecodedText.StrictUnpaddedExactly` | src/base64/decode/api.rs:553-594 | Unpadded strict decoding accepts exactly symbols of a possible number |
| `DecodedText.DecodedLenExactly` | src/base64/decode/api.rs:89-97 | The length query answers exactly for whole quartets with `=` only in the last two places, and with three bytes for four characters less those |
| `Staging.StagingBuffer.ExtendFromSlice` | src/bindings/base64/staging.rs:66-83 | Appends as much of the input as fits, and stops short only when full |
| `Staging.StagingBuffer.Translate` | src/bindings/base64/configured.rs:71-81 | Replaces the buffered symbols by their translations in place, both source bytes at once |
| `Staging.DecodeStaging` | src/bindings/base64/staging.rs:24-35 | Checked staging decodes accept exactly valid symbols with a possible length; unchecked ones write the same bytes; a failing one leaves exactly what failing strict decoding leaves |
| `Staging.StagingWriter.Flush` | src/bindings/base64/staging.rs:197-209 | A flush decodes the translated buffer behind what was flushed before; it succeeds exactly when all symbols are valid, and else leaves the earlier decoding and what the failing decode of the buffer leaves |
| `Staging.StagingWriter.DecodeBehind` | src/bindings/base64/staging.rs:24-35 | A chunk is decoded behind the earlier output; failing, it leaves that output and exactly what the failing decode leaves |
| `Staging.StagingWriter.PushSymbols` | src/bindings/base64/staging.rs:134-166 | Whatever goes directly and whatever through the buffer, the writer holds the symbols of all pushes in order; the flushed count stays a multiple of four; a push is stopped exactly by the first invalid one of the chunks that the counts alone cut, and leaves what that chunk leaves |
| `Staging.StagingWriter.PushStagedSymbols` | src/bindings/base64/staging.rs:168-181 | The buffered path has the same effect, with a flush whenever the buffer is full |
| `Staging.StagingWriter.StageSome` | src/bindings/base64/staging.rs:168-181 | One round stages a nonempty part of the run, ends where the cuts say, and fails only when the symbols pushed so far are not all valid |
| `Staging.StagingWriter.PushSome` | src/bindings/base64/staging.rs:134-166 | One round takes a nonempty part: all whole quartets directly when nothing is staged, else through the buffer |
| `Staging.StagingWriter.PushDirect` | src/bindings/base64/staging.rs:134-166 | Whole quartets decode behind the flushed ones without the buffer |
| `Staging.StagingWriter.PushValue` | src/bindings/base64/staging.rs:187-195 | A pushed value counts as its standard symbol |
| `Staging.StagingWriter.Finish` | src/bindings/base64/staging.rs:215-221 | At the end the output is the decoding of all pushed symbols, and acceptance is exact; a failing end leaves what the staged chunk leaves |
| `Staging.StagingValidator.Push` | src/bindings/base64/staging.rs:238-251 | The validator accumulates the translated symbols and fails only when one is invalid |
| `Staging.StagingValidator.Finish` | src/bindings/base64/staging.rs:267-273 | The validator accepts exactly what the writer accepts |
| `Staging.StageChunks` | src/bindings/base64/staging.rs:105-222 | Chunk independence: pushing any sequence of chunks and finishing accepts and writes as for their concatenation |
| `StagingCuts.NextCut` | src/bindings/base64/staging.rs:134-181 | The next chunk has whole quartets, holds all staged symbols, and is no longer than what is there |
| `StagingCuts.CutStep` | src/bindings/base64/staging.rs:134-181 | A push goes on behind a valid chunk, is stopped by an invalid one, and otherwise stages the rest |
| `StagingCuts.HaltedLen` | src/bindings/base64/staging.rs:24-35 | A chunk that fails leaves no more than the whole quartets up to its end |
| `StagingCuts.HaltPrefix` | src/bindings/base64/staging.rs:134-181 | Where a push stops does not depend on symbols pushed later |
| `TranslationTable.NewTranslation` | src/bindings/base64/configured.rs:29-69 | The two-entry translation maps every altchar to the standard symbol of its table value, last assignment first, and fixes every other byte; there is none exactly when nothing needs replacing |
| `TranslationTable.LenientTranslates` | src/bindings/base64/configured.rs:29-69 | Every lenient symbol translates to the standard symbol of its value, for any altchars, also swapped, equal or alphanumeric ones |
| `LenientSpec.StalePads` | src/bindings/base64/lenient.rs:306-533 | A padding count left from before does not change the outcome while no quartet is open |
| `LenientSpec.RunSymbols` | src/bindings/base64/lenient.rs:371-453 | A run of symbols may be scanned in one step, from any state |
| `LenientSpec.RunExtends` | src/bindings/base64/lenient.rs:306-533 | A scan only appends values, all below 64, at most one for each byte |
| `ScanLaws.ContinuingMeaning` | src/bindings/base64/lenient.rs:306-533 | Lenient decoding that goes on behind padding, or needs none, accepts an input if and only if its symbols are not one more than whole quartets and, where padding is required, enough `=` stand behind the last symbol; it then decodes all symbols |
| `ScanLaws.StoppingMeaning` | src/bindings/base64/lenient.rs:478-525 | Where it stops behind padding, the first `=` that completes an open quartet ends the text; without one it is as if decoding went on |
| `ScanLaws.CompletesIs` | src/bindings/base64/lenient.rs:478-525 | That `=` is the last one missing behind two or three open symbols |
| `ScanLaws.StrictIs` | src/bindings/base64/configured.rs:913-943 | Strict reading under any table: exact acceptance by symbols, `=` behind the last one and left-over bits |
| `ScanLaws.LenientIs` | src/bindings/base64/configured.rs:725-809 | Lenient reading under any table, where it goes on |
| `ScanLaws.StrictDemand` | src/bindings/base64/configured.rs:880-943 | How many `=` any symbols need, strictly; where `=` is ignored, at least these |
| `ScanLaws.LenientDemand` | src/bindings/base64/configured.rs:725-809 | And leniently, in both modes |
| `Lenient.ByteStep` | src/bindings/base64/lenient.rs:459-525 | One byte of the state machine keeps the invariant, or stops because the values so far do not fit, or because padding is complete |
| `Lenient.PushValue` | src/bindings/base64/lenient.rs:478-525 | One value stores the byte it completes, or finds the destination full and changes nothing |
| `Lenient.LeftoverPacks` | src/bindings/base64/lenient.rs:480-525 | The stored left-over bits pack with the next value as the whole previous value would |
| `Lenient.TakeSymbols` | src/bindings/base64/lenient.rs:344-453 | Any multiple of four symbols taken at once keeps the invariant, whatever padding count is left behind |
| `Lenient.KernelTaken` | src/bindings/base64/lenient.rs:353-368 | What a longest-prefix kernel wrote is a step of the state machine |
| `Lenient.KernelStep` | src/bindings/base64/lenient.rs:344-369 | The kernel is offered no more than fits and advances the machine by what it consumed |
| `Lenient.RunStep` | src/bindings/base64/lenient.rs:371-421 | A run of sixteen or more symbols advances the machine, or is too long for the destination and writes nothing |
| `Lenient.DecodeRun` | src/bindings/base64/lenient.rs:382-413 | A run decodes as its table says, directly for fast alphabets and through the translating writer for others |
| `Lenient.QuartetStep` | src/bindings/base64/lenient.rs:424-452 | Four bytes are taken if and only if all are symbols, else nothing changes; the stale padding count is harmless |
| `Lenient.QuartetLoop` | src/bindings/base64/lenient.rs:423-453 | Quartets advance the machine until one is not all symbols, or the destination is full |
| `Lenient.SkipDiscarded` | src/bindings/base64/lenient.rs:330-342 | Skipped bytes between quartets only count padding |
| `Lenient.BlockPaths` | src/bindings/base64/lenient.rs:329-457 | Kernel, run and quartet paths in any order keep the invariant and terminate |
| `Lenient.DecodeLenientToPtr` | src/bindings/base64/lenient.rs:306-533 | With all fast paths the decoder has the result and bytes of the one-byte-at-a-time specification, for every input, altchars, padding and stop mode; too small exactly when the decoding does not fit, and then what was written is a prefix of it |
| `LenientApi.UpperBoundCovers` | src/bindings/base64/lenient.rs:205-216 | The bound covers everything any scan collects, on malformed input too |
| `LenientApi.RunCount` | src/bindings/base64/lenient.rs:205-216 | No scan collects more values than there are bytes before the final non-symbols |
| `LenientApi.ContinueOutcome` | src/bindings/base64/lenient.rs:234-298 | Where decoding goes on after padding, the values are all symbols and only their number and the final padding decide |
| `LenientApi.CountTrailingPads` | src/bindings/base64/lenient.rs:244-253 | The backwards count is the padding since the last symbol |
| `LenientApi.CountSymbols` | src/bindings/base64/scan.rs:13-37 | The count is the number of values the scan collects |
| `LenientApi.LenientStoppingLen` | src/bindings/base64/lenient.rs:263-298 | The stopping pre-pass agrees with the decoder |
| `LenientApi.LenientDecodedLen` | src/bindings/base64/lenient.rs:234-298 | The length pre-pass returns n exactly when decoding with enough room returns n bytes, in both stop modes |
| `LenientApi.DecodeLenientSliceInto` | src/bindings/base64/lenient.rs:129-166 | Decoding into a buffer succeeds exactly when the meaning fits; too small exactly when it does not, with the needed size and the buffer untouched; malformed input too changes nothing past the upper bound |
| `LenientApi.LeadingDiscarded` | src/bindings/base64/lenient.rs:19-82 | Discarded bytes in front of the first symbol do not change the scan |
| `LenientApi.TryDecodeLenient` | src/bindings/base64/lenient.rs:19-82 | The allocating lenient decode returns the meaning; its capacity estimate always suffices, and all its stores, failing ones too, are inside it |
| `ConfiguredTable.BuildConfiguredTable` | src/bindings/base64/configured.rs:106-156 | The mutable table ends with the specified value of each byte: swapped, equal, alphanumeric and `=` altchars, full alphabets with duplicates, ignored bytes |
| `ConfiguredTable.AssignAltchars` | src/bindings/base64/configured.rs:133-156 | Where two altchars collide the later assignment wins; `+` and `/` give way only with an ignore list |
| `ConfiguredTable.AssignAlphabet` | src/bindings/base64/configured.rs:111-121 | The last occurrence of a symbol in a custom alphabet decides its value |
| `ConfiguredTable.AssignIgnored` | src/bindings/base64/configured.rs:123-127 | Only bytes that are no symbols become ignored |
| `ConfiguredTable.PreservesAlphanumeric` | src/bindings/base64/configured.rs:198-203 | True exactly when every alphanumeric byte keeps its standard value |
| `ConfiguredTable.NewSpecials` | src/bindings/base64/configured.rs:215-239 | The special bytes are exactly the ignored ones, given up exactly when there are more than three |
| `ConfiguredTable.ForbiddenSymbols` | src/bindings/base64/configured.rs:251-273 | The forbidden bytes are exactly the standard symbols made invalid, given up exactly when there are more than three |
| `ConfiguredTable.Find` | src/bindings/base64/configured.rs:241-249 | The first special byte of a range, or none |
| `ConfiguredTable.ConfiguredTranslates` | src/bindings/base64/configured.rs:158-176 | After translation a configured symbol is the standard symbol of its value; a standard symbol can be invalid only with altchars and an ignore list |
| `ConfiguredTable.NewConfiguredDecoder` | src/bindings/base64/configured.rs:106-195 | The decoder carries the specified table, and whenever its special-byte scanner applies, specials, forbidden bytes and translation together reproduce the table |
| `ScanSinks.ScanSink.PushSymbols` | src/bindings/base64/configured.rs:461-550 | Both sinks fail only on invalid symbols and otherwise hold the translated run; the writing one is stopped where the cuts say, and holds what the chunk leaves |
| `ScanSinks.ScanSink.PushValue` | src/bindings/base64/configured.rs:466-550 | A value is pushed as its standard symbol in both sinks |
| `ScanSinks.ScanSink.Finish` | src/bindings/base64/configured.rs:467-560 | Counting and writing sinks accept the same symbols and report the same length; the writing one has stored their decoding, or what the last chunk leaves |
| `ConfiguredSpec.StrictRunValues` | src/bindings/base64/configured.rs:662-723 | An accepted strict scan collects exactly the symbols of the input |
| `ConfiguredSpec.IgnoredEqualsScan` | src/bindings/base64/configured.rs:880-911 | While `=` is ignored the padding policy does not change the strict scan |
| `ConfiguredScan.ScanStrict` | src/bindings/base64/configured.rs:662-723 | The general strict scanner accepts exactly the specified inputs when checked, always when unchecked on accepted input, and reports and writes the specified decoding; failing, it stored no more than the whole quartets of the input's symbols |
| `ConfiguredScan.StrictByte` | src/bindings/base64/configured.rs:691-719 | One byte keeps the scan, or proves that the specification rejects the input |
| `ConfiguredScan.StrictAlphanumerics` | src/bindings/base64/configured.rs:674-689 | Any alphanumeric prefix may be pushed at once |
| `ConfiguredScan.FinishStrict` | src/bindings/base64/configured.rs:913-943 | The final check accepts exactly possible lengths, required padding and, if demanded, zero unused bits |
| `ConfiguredScan.LenientByte` | src/bindings/base64/configured.rs:763-797 | One byte keeps the lenient scan, or stops it where the specification stops |
| `ConfiguredScan.LenientSymbol` | src/bindings/base64/configured.rs:786-797 | A symbol is pushed by value and resets the padding count |
| `ConfiguredScan.LenientAlphanumerics` | src/bindings/base64/configured.rs:739-761 | Any alphanumeric prefix may be pushed at once, with the left-over bits of its last value |
| `ConfiguredScan.LenientFinish` | src/bindings/base64/configured.rs:771-808 | Acceptance at the end, or after complete padding, is the specification's, canonical demand included |
| `ConfiguredScan.ScanLenient` | src/bindings/base64/configured.rs:725-809 | The configured lenient scan is the lenient specification over the table, and rejects nonzero unused bits exactly when canonical; failing, it stored no more than the whole quartets of the scanned values |
| `ConfiguredSpecials.StrictScanKept` | src/bindings/base64/configured.rs:811-876 | The values of an accepted strict scan are the values of the data bytes that are not ignored |
| `ConfiguredSpecials.StrictData` | src/bindings/base64/configured.rs:811-876 | In front of padding the strict scan succeeds exactly when all kept bytes are symbols |
| `ConfiguredSpecials.KeptTranslated` | src/bindings/base64/configured.rs:811-876 | Kept bytes without forbidden ones translate to standard symbols exactly when all are symbols of the table, and then decode alike |
| `ConfiguredSpecials.ForbiddenData` | src/bindings/base64/configured.rs:826-828 | A forbidden byte among the data makes the specification reject the input |
| `ConfiguredSpecials.FindDataEnd` | src/bindings/base64/configured.rs:817-824 | Data ends at the first `=` that counts as padding |
| `ConfiguredSpecials.SpecialsLoop` | src/bindings/base64/configured.rs:830-857 | The search loop pushes all kept bytes run by run, is stopped exactly where the cuts of these runs say, and fails only on inputs the specification rejects |
| `ConfiguredSpecials.ScanStrictSpecials` | src/bindings/base64/configured.rs:811-876 | The special-byte-search scanner accepts the same inputs and produces the same bytes as the general strict scanner: both meet one specification; failing, it leaves nothing behind a forbidden byte, and otherwise exactly what the stopping chunk leaves |
| `ConfiguredSpecials.SpecialsEnd` | src/bindings/base64/configured.rs:859-875 | The end of the scan accepts exactly what the specification accepts; unpadded input that fails there leaves the staged chunk's bytes if length and stray bits allow decoding it, and only what was flushed otherwise |
| `ConfiguredSpecials.RunStep` | src/bindings/base64/configured.rs:830-857 | One run of the search loop: an ignored byte is skipped, a run is pushed, and the scan goes on behind it or stops at its first invalid chunk |
| `ConfiguredPlain.PlainUnpadded` | src/bindings/base64/configured.rs:662-723 | Where nothing is ignored and `=` is no padding, strict scanning means: all symbols, possible length |
| `ConfiguredPlain.PlainPadded` | src/bindings/base64/configured.rs:662-723 | Where nothing is ignored and `=` is padding, strict scanning accepts exactly whole quartets that are symbols in front of the trailing padding |
| `Configured.ScanStrictly` | src/bindings/base64/configured.rs:633-660 | Either strict scanner may run: acceptance, length and bytes are the same |
| `Configured.ScanStrictIgnoredPadding` | src/bindings/base64/configured.rs:880-911 | With `=` ignored, counted padding is still required; acceptance is exact |
| `Configured.ScanInto` | src/bindings/base64/configured.rs:633-660 | All scanners, checked or unchecked, counting or writing, accept, report and write as the one specification of the decoder; a failing one leaves no more than the whole quartets of what it offered |
| `Configured.DecodedLen` | src/bindings/base64/configured.rs:590-592 | The counting scan returns n exactly when the decoding has n bytes |
| `Configured.DecodeInto` | src/bindings/base64/configured.rs:597-627 | The checked writing scan accepts exactly the specified inputs; the unchecked one on accepted input writes the same bytes; memory is known byte for byte on failure too, as far as the scanner that ran determines it |
| `Configured.DecodeConfiguredSliceInto` | src/bindings/base64/configured.rs:398-416 | Two passes are sound: a count, then an unchecked write of exactly that many bytes; on any failure the buffer is unchanged |
| `Configured.DecodeConfiguredStrictInto` | src/bindings/base64/configured.rs:298-344 | One checked pass or validation first: the result is the specification's; under the validated-blocks policy a failing call changes nothing, and otherwise nothing past the upper bound |
| `Configured.TranslatedLenFits` | src/bindings/base64/configured.rs:276-296 | The translated layout rejects no acceptable input, gives every accepted one exactly its length, and covers all the one-pass decode can write, `=` altchars included |
| `DriverSpec.AcceptedFits` | src/bindings/base64/configured.rs:377-393 | Whatever a table and policy accept fits the capacity estimated for the input, without exception |
| `Configured.OfferedIsBounded` | src/bindings/base64/staging.rs:332-340 | What the scanners push is bounded by the bytes of the input, for every decoder |
| `Configured.OfferedValid` | src/bindings/base64/configured.rs:633-660 | On accepted input the symbols pushed are the accepted ones |
| `Configured.TranslatedLenBound` | src/bindings/base64/lenient.rs:205-216 | The translated layout never promises more than the upper bound |
| `ConfiguredSpace.StoredWhole` | src/base64/decode/aarch64.rs:24-53 | Input with an invalid last byte is stored whole exactly when it is whole 64-byte blocks and no earlier interval is invalid |
| `ConfiguredSpace.ChunkStored` | src/bindings/base64/staging.rs:24-35 | A failing chunk up to an invalid symbol is in the output whole exactly when it is whole blocks and all its intervals but the last are valid |
| `ConfiguredSpace.BufferedHalt` | src/bindings/base64/staging.rs:168-181 | Buffered pushes are cut at multiples of 4096 symbols: a stop is at an invalid full buffer, and otherwise all full buffers are valid |
| `ConfiguredSpace.BufferedCuts` | src/bindings/base64/configured.rs:830-857 | The same over all runs of a scan, however they lie to the buffer |
| `ConfiguredSpace.SecondPush` | src/bindings/base64/staging.rs:134-166 | A run behind a staged fragment goes through the buffer first and directly after that |
| `ConfiguredSpace.SkipRuns` | src/bindings/base64/configured.rs:830-857 | One ignored byte makes two runs, the second of which starts behind the whole quartets of the first |
| `ConfiguredSpace.LastInvalid` | src/bindings/base64/configured.rs:811-857 | The last symbol of the whole quartets is the untranslated, invalid `=` |
| `ConfiguredSpace.CapacityAt` | src/bindings/base64/lenient.rs:205-216 | For such input the estimate is one or two bytes short of the whole quartets |
| `ConfiguredSpace.SpilledLen` | src/bindings/base64/configured.rs:594-607 | A failing scan leaves whole quartets, no more than it pushed |
| `ConfiguredSpace.BufferedExact` | src/bindings/base64/configured.rs:594-607 | With translation all whole quartets are stored on Neon exactly for the inputs of `Overruns` |
| `ConfiguredSpace.DirectExact` | src/bindings/base64/configured.rs:594-607 | The same without translation and without an ignored byte |
| `ConfiguredSpace.SkipExact` | src/bindings/base64/configured.rs:594-607 | The same without translation and with one ignored byte, whose place decides how the symbols are cut |
| `ConfiguredSpace.OverrunIsExact` | src/bindings/base64/staging.rs:332-340 | A failing scan of an input whose whole quartets end with `=` stays within the estimate on Neon if and only if the input is not one of `Overruns`: forbidden bytes, the number and place of ignored bytes, whole blocks of the last chunk and the first invalid symbol decide |
| `ConfiguredSpace.ValidPrefixFits` | src/bindings/base64/staging.rs:332-340 | On the other backends it always stays within the estimate, as only a valid prefix is stored |
| `AllocatingConfigured.OfferedFits` | src/bindings/base64/staging.rs:332-340 | Unless the whole quartets end with such a `=`, the estimate covers the whole quartets of everything a scan offers, for every decoder and scanner |
| `AllocatingConfigured.FinalEqualsRejected` | src/bindings/base64/configured.rs:811-876 | Input whose final `=` is handed over as a symbol is never accepted |
| `AllocatingConfigured.LeftoversFit` | src/bindings/base64/configured.rs:594-607 | What any failing scan leaves is within the estimate if and only if the backend is not Neon or the input is not one of `Overruns` |
| `AllocatingConfigured.DecodeConfiguredAt` | src/bindings/base64/configured.rs:594-607 | The single checked pass into memory that starts with the allocation: acceptance, bytes and length are the meaning, memory is exactly the stored bytes over what it held, and these are inside the allocation on failure too, with exactly that exception |
| `AllocatingConfigured.DecodeConfigured` | src/bindings/base64/configured.rs:346-396 | The allocating configured decode skips leading ignored bytes of long input, allocates the estimate, and returns the meaning of its input; its stores are inside with exactly that exception, and always when it succeeds |
| `AllocatingConfigured.LeadingIgnored` | src/bindings/base64/configured.rs:360-375 | An ignored byte in front changes nothing |
| `AllocatingConfigured.PolicyDecides` | src/bindings/base64/configured.rs:106-195 | Whether the exception applies is a matter of policy and input: every decoder prepared for a policy gives the same answer |
| `AllocatingConfigured.PolicyInside` | src/bindings/base64/configured.rs:346-396 | Padded policies and accepted inputs are never concerned |
| `AllocatingConfigured.OverrunExample` | src/bindings/base64/configured.rs:346-396 | The concrete exception: 318 symbols `A` and `==`, strict, unpadded, standard alphabet, empty ignore list, on Neon: 238 bytes are allocated and 240 stored |
| `DriverSpec.LenientOfPadded` | src/bindings/base64/decode.rs:239-315 | Input of whole quartets that is symbols and then padding scans leniently to exactly those symbols, in every mode |
| `DriverSpec.LenientOfUnpadded` | src/bindings/base64/decode.rs:239-315 | Input that is all symbols, of a possible length, scans leniently to those symbols where padding is not required |
| `DriverSpec.AcceptedSize` | src/bindings/base64/decode.rs:239-315 | Accepted values include every leading symbol, and are no more than the bytes in front of the final padding: the decoding lies between any probed prefix and the layout size |
| `DriverSpec.ProbeCovered` | src/bindings/base64/decode.rs:239-315 | Whatever failed probes wrote is covered by the final decoding: storing it gives the same memory as if no probe had run |
| `DriverSpec.ProbedAgain` | src/bindings/base64/decode.rs:239-315 | A further failed probe keeps that property |
| `DriverSpec.SameValues` | src/bindings/base64/decode.rs:366-433 | Tables that agree on symbols, ignored bytes and `=` give the same meaning to every input |
| `Driver.DirectInto` | src/bindings/base64/decode.rs:118-142 | A direct attempt meets the strict specification, with the writes its error policy permits |
| `Driver.ProbeDirect` | src/bindings/base64/policy.rs:58-82 | A probe either delivers the strict result or leaves what a later decoder will cover |
| `Driver.DirectIsLenient` | src/bindings/base64/decode.rs:239-315 | A strict success is the lenient result, unless padding is required and missing |
| `Driver.DirectIsPlain` | src/bindings/base64/decode.rs:366-433 | A strict success is the configured strict result of any table that ignores nothing |
| `Driver.DirectExact` | src/bindings/base64/decode.rs:332-338 | For standard and URL-safe altchars, direct strict decoding is the strict scan of the table: same inputs, same bytes |
| `Driver.ExecuteLenientDirect` | src/bindings/base64/decode.rs:239-315 | Both probe orders of the direct lenient route end with the lenient meaning, and failing change nothing past the upper bound |
| `Driver.ExecuteLenientCustom` | src/bindings/base64/decode.rs:295-315 | The custom route, with its strict custom probe, ends with the lenient meaning |
| `Driver.ExecuteStrict` | src/bindings/base64/decode.rs:239-274 | The strict route, with its URL-safe fallback order, ends with the strict meaning, and failing changes nothing past the upper bound |
| `Driver.StrictStep` | src/bindings/base64/decode.rs:353-364 | A deferred strict attempt leaves only a prefix of the buffer changed, no longer than the layout |
| `Driver.ProbedSpares` | src/bindings/base64/lenient.rs:205-216 | Neither failed probes nor the failed decoder behind them reach past the upper bound |
| `Driver.LayoutBound` | src/bindings/base64/lenient.rs:205-216 | No layout promises more than the upper bound |
| `Driver.NewStrictCustom` | src/bindings/base64/policy.rs:266-279 | The strict decoder for custom altchars has the lenient table's symbols |
| `Driver.CanonicalStandardExact` | src/bindings/base64/decode.rs:1126-1141 | The look at the last symbol of standard data decides exactly whether the unused bits are zero |
| `Driver.CanonicalUnpaddedExact` | src/bindings/base64/decode.rs:524-546 | The look at the last byte of unpadded input decides exactly whether the unused bits are zero |
| `Driver.StandardShortcut` | src/bindings/base64/decode.rs:373-403 | A value taken from the standard shortcut is the policy's value, and rejection there is the policy's rejection |
| `Driver.UnpaddedShortcut` | src/bindings/base64/decode.rs:405-418 | A value taken from the unpadded shortcut is the policy's value |
| `Driver.ProbeUnpadded` | src/bindings/base64/decode.rs:405-418 | The shortcut delivers the policy's meaning or leaves what the configured decoder will cover |
| `Driver.ExecuteConfigured` | src/bindings/base64/decode.rs:366-433 | Shortcuts or not, the configured route ends with the policy's meaning |
| `Driver.PlainRoutes` | src/bindings/base64/policy.rs:357-391 | Where the route does not go through a configured decoder, the policy means plain strict or plain lenient decoding |
| `AllocatingDriver.NativeDirect` | src/bindings/base64/decode.rs:81-84 | A direct attempt, padded or not, returns the strict result and stores inside an object of exactly the layout's size |
| `AllocatingDriver.AllocateLenient` | src/bindings/base64/decode.rs:72-107 | The allocating lenient attempts return the lenient meaning; all stores are inside the allocations unless the unpadded strict attempt for custom altchars is one of the exceptions on Neon, and then not |
| `AllocatingDriver.AllocateStrict` | src/bindings/base64/decode.rs:72-107 | The allocating strict attempts return the strict meaning; all stores are inside the allocations with exactly the strict decoder's exception on Neon |
| `AllocatingDriver.NativeStrict` | src/bindings/base64/decode.rs:72-107 | The strict decoder of a policy's altchars returns the strict meaning; direct decoding is always inside its object of exactly the layout's size, the decoder for custom altchars inside its estimate with its exception |
| `AllocatingDriver.AllocateConfigured` | src/bindings/base64/decode.rs:366-433 | The allocating configured route returns the policy's meaning and reports nonzero padding bits exactly for strictly decodable input without a meaning on the standard shortcut; all stores are inside the allocations with exactly the exceptions of its decoder and of its shortcut on Neon |
| `EncodeSpec.DecodeValues` | src/base64/encode/api.rs:547-643 | Decoding the 6-bit split of any bytes gives them back with no bits left over |
| `EncodeSpec.ValuesDecode` | src/base64/encode/api.rs:547-643 | Splitting a decoding gives the values back if and only if the left-over bits are zero |
| `EncodeSpec.EncodedLengths` | src/bindings/base64/encode.rs:277-279 | The padded length less the missing bytes is the unpadded length, and it is never one more than a multiple of four |
| `EncodeSpec.WrappedLen` | src/bindings/base64/encode.rs:114-121 | A wrapped text has n + (n - 1) / width bytes, and none for empty text |
| `EncodedText.ValueAt` | src/base64/encode/api.rs:547-643 | The values of some bytes are their bits, six at a time, in plain numbers |
| `EncodedText.EncodedAt` | src/base64/encode/api.rs:547-643 | Which character stands where: a symbol for every six bits begun, then `=` |
| `EncodedText.WrappedAt` | src/base64/encode/api.rs:342-349 | Byte `k` of a text in lines of width `w` is 10 where `k % (w + 1) == w`, and elsewhere byte `k / (w + 1) * w + k % (w + 1)` of the unbroken text |
| `EncodedText.NewlinesAt` | src/bindings/base64/encode.rs:371-397 | A text without newlines of its own has them exactly there |
| `Characters.KnownTexts` | src/base64/encode/api.rs:547-643 | The texts of "f", "fo" and "foo" are those of section 10 of RFC 4648 |
| `Characters.KnownLongTexts` | src/base64/encode/api.rs:547-643 | So are those of "foob", "fooba" and "foobar" |
| `EncodeLanes.FieldsAreGroup` | src/base64/encode/avx2.rs:602-618 | The high-multiply and the multiply-and-shift extractions both give the 6-bit split |
| `EncodeLanes.FieldsOfSpread` | src/base64/encode/ssse3.rs:111-123 | A shuffled vector's fields are the values of its bytes, in order |
| `EncodeLanes.MultishiftOfSpread` | src/base64/encode/avx512.rs:181-212 | The multishift of 64-bit lanes gives the values of their bytes, in order |
| `EncodeLanes.AsciiIsSymbol` | src/base64/encode/avx2.rs:655-696 | The saturating-subtract offset lookup gives the symbol of every value, for every alphabet that starts like the standard one |
| `EncodeKernels.ShuffleSpreads` | src/base64/encode/avx2.rs:602-618 | Both shuffles, from the lane start and from byte four, spread the intended twelve bytes |
| `EncodeKernels.Encode12` | src/base64/encode/ssse3.rs:111-123 | Sixteen loaded bytes encode to the symbols of the first twelve |
| `EncodeKernels.Encode24ShiftedValue` | src/base64/encode/avx2.rs:602-618 | A vector loaded four bytes back encodes to the symbols of its bytes 4 to 28 |
| `EncodeKernels.Encode24First` | src/base64/encode/avx2.rs:584-589 | The first vector, permuted to stay inside the input, encodes to the symbols of bytes 0 to 24 |
| `EncodeKernels.Encode96Groups` | src/base64/encode/avx2.rs:301-363 | A positive number of groups of 96 bytes is encoded, with all loads inside the input |
| `EncodeKernels.HelperGroups` | src/base64/encode/avx2.rs:123-163 | The helper is used only where its loads and its alignment steps fit |
| `EncodeKernels.EncodeSsse3` | src/base64/encode/ssse3.rs:28-57 | Consumes whole groups until fewer than sixteen bytes are left, all loads inside the input, and writes exactly their symbols |
| `EncodeKernels.EncodeAvx2` | src/base64/encode/avx2.rs:100-213 | Consumes whole groups until fewer than 28 bytes are left, with or without the helper, all loads inside the input, and writes exactly their symbols |
| `EncodeKernels.BuildEncodeShuffle` | src/base64/encode/avx512.rs:20-35 | The filled shuffle spreads sixteen groups of three bytes |
| `EncodeKernels.EncodeMasked` | src/base64/encode/avx512.rs:199-212 | A masked vector encodes to the symbols of its active bytes |
| `EncodeKernels.EncodeAvx512` | src/base64/encode/avx512.rs:75-158 | From 48 bytes on consumes all whole groups, masked tail included, and writes exactly their symbols |
| `EncodeNeon.ValueLanes` | src/base64/encode/aarch64.rs:104-124 | The shift-and-insert lanes hold the 6-bit split of each group |
| `EncodeNeon.EncodingIsSymbols` | src/base64/encode/aarch64.rs:131-159 | Taking groups apart, looking values up and interleaving four registers is the encoding of the block |
| `EncodeNeon.ZipsInterleave` | src/base64/encode/aarch64.rs:236-287 | Zips by bytes and then by pairs write the same bytes as the interleaving store |
| `EncodeNeon.EncodeStructured` | src/base64/encode/aarch64.rs:43-89 | Consumes whole groups until fewer than 24 bytes are left, all loads inside the input, and writes exactly their symbols |
| `EncodeNeon.ZippedBlock` | src/base64/encode/aarch64.rs:236-287 | A block assembled by zips is its symbols, in order |
| `EncodeApi.EncodeScalar` | src/base64/encode/api.rs:547-643 | The 24-byte, 6-byte and 3-byte loops and the padded tail write the padded encoding and nothing else |
| `EncodeApi.EncodeToPtr` | src/base64/encode/api.rs:260-319 | Kernel then scalar rest is the padded encoding, for every backend and alphabet |
| `EncodeApi.EncodeUnwrapped` | src/bindings/base64/encode.rs:319-346 | With or without padding, exactly the encoding is written: the trimmed tail never spills |
| `EncodeApi.NewEncodeAlphabet` | src/bindings/base64/encode.rs:40-46 | The chosen alphabet has the altchars at 62 and 63 and the standard symbols elsewhere |
| `EncodeApi.NewCustomAlphabet` | src/base64/encode/api.rs:22-60 | The prefix flag is true exactly for tables that start like the standard alphabet |
| `EncodeWrap.WrapLine` | src/bindings/base64/encode.rs:371-397 | One backwards move of a line, and its newline, keeps the unmoved front and the finished rear |
| `EncodeWrap.WrapEncoded` | src/bindings/base64/encode.rs:371-397 | Overlapping backwards moves in place leave the wrapped text and everything behind it unchanged |
| `EncodeWrap.WrappedSplit` | src/bindings/base64/encode.rs:371-397 | A wrapped text splits at any line end |
| `WrappedOutputs.WrappedOutput.StartLine` | src/base64/encode/api.rs:343-349 | A newline is written only when the line is full and more follows |
| `WrappedOutputs.WrappedOutput.WriteQuad` | src/base64/encode/api.rs:352-358 | A quartet is appended to the payload, broken where a line is full |
| `WrappedOutputs.WrappedOutput.Write16` | src/base64/encode/api.rs:361-378 | Sixteen symbols are appended whole or by quartets, as the column permits |
| `WrappedOutputs.WrappedOutput.WriteBytes` | src/base64/encode/api.rs:381-399 | Any bytes are appended to the payload; memory is always the wrapped payload |
| `WrappedOutputs.WrappedOutput.Wraps` | src/base64/encode/api.rs:324-399 | Between writes memory holds exactly the wrapped payload, without a newline at the end |
| `WrappedEncode.EncodeWrappedSsse3` | src/base64/encode/ssse3.rs:82-105 | The wrapped kernel streams the symbols of the groups it consumes |
| `WrappedEncode.EncodeWrappedAvx2` | src/base64/encode/avx2.rs:246-296 | The same for the AVX2 kernel |
| `WrappedEncode.EncodeWrappedAvx512` | src/base64/encode/avx512.rs:252-320 | The same for the AVX-512 kernel |
| `WrappedEncode.EncodeWrappedNeon` | src/base64/encode/aarch64.rs:202-231 | The same for the Neon kernel |
| `WrappedEncode.EncodeScalarWrapped` | src/base64/encode/api.rs:491-526 | The scalar rest completes the payload to the whole encoding, padded or not |
| `WrappedEncode.EncodeWrappedToPtr` | src/base64/encode/api.rs:452-470 | Streaming writes the wrapped encoding and nothing else, for every width that is a multiple of four |
| `WrappedEncode.NormalizeWrapcol` | src/bindings/base64/encode.rs:248-261 | The width is the largest multiple of four within the limit, at least four; zero, negative and oversized limits are told apart |
| `WrappedEncode.UnpaddedEncodedLen` | src/bindings/base64/encode.rs:277-279 | The subtraction gives the length of the unpadded encoding |
| `WrappedEncode.OutputLenIsExact` | src/bindings/base64/encode.rs:107-121 | The computed length is the length of the text, for every encoder and input |
| `WrappedEncode.TextIs` | src/bindings/base64/encode.rs:134-168 | Every character of an encoder's text in plain numbers, line breaks included |
| `WrappedEncode.EncodeInto` | src/bindings/base64/encode.rs:134-168 | In-place wrapping and streaming produce the same text; too small is reported exactly when the text does not fit, with the buffer unchanged; each byte written is the one that plain numbers give |
| `Batch.OutputRanges` | src/bindings/base64/batch.rs:50-63 | The cached ranges are exactly those of nonempty outputs, in address order and disjoint |
| `Batch.PartitionPoint` | src/bindings/base64/batch.rs:65-82 | The binary search finds the first range that starts at or behind the end of the input |
| `Batch.AliasesOutput` | src/bindings/base64/batch.rs:65-82 | Looking at the single neighbour finds an overlap if and only if some output overlaps |
| `Batch.ContainsIdentity` | src/bindings/base64/batch.rs:39-48 | A bytearray is known exactly when it is one of the outputs |
| `Batch.CheckOutputs` | src/bindings/base64/batch.rs:85-131 | Outputs are accepted exactly when there is one for each item and no two are the same object |
| `Batch.AcquireInputs` | src/bindings/base64/batch.rs:183-241 | Exactly the inputs that need preparation are acquired, in item order |
| `Batch.StageSnapshots` | src/bindings/base64/batch.rs:149-169 | A stage replaces an input by its snapshot or leaves it as it is |
| `Batch.PrepareBatchInputs` | src/bindings/base64/batch.rs:178-255 | After both stages every prepared input is a copy of what its item held or shares nothing with any output |
| `Batch.ApartUnchanged` | src/bindings/base64/batch.rs:331-364 | Memory apart from the outputs written so far keeps its initial contents |
| `Batch.AfterOutput` | src/bindings/base64/batch.rs:331-364 | In the final memory each output is its own item's coding of the initial contents, followed by its own old bytes |
| `Batch.NextPrepared` | src/bindings/base64/batch.rs:331-364 | Consuming prepared inputs in order pairs each with its own item |
| `BatchCodecs.EncodeItem` | src/bindings/base64/batch.rs:328-358 | Encoding one item is the codec that stores the whole text, or nothing when the destination is too small |
| `BatchCodecs.DecodeItem` | src/bindings/base64/batch.rs:439-472 | Decoding one item with the decode driver is the codec that stores the whole meaning, nothing when it does not fit, and bounded left-overs when there is none |
| `BatchCodecs.CodeInPlace` | src/bindings/base64/batch.rs:331-472 | Coding one item changes memory in its own destination only, exactly as the item's codec says |
| `BatchCodecs.AnyLeft` | src/bindings/base64/batch.rs:439-472 | The items that succeed have the same results and leave the same memory whatever a later failure leaves, so the failing item decides that alone |
| `BatchCodecs.CodeBatchInto` | src/bindings/base64/batch.rs:331-472 | Running the encoder or the decode driver item by item, in place, has the memory, counts and point of failure of reading every input before any write, however inputs alias outputs |
| `BatchCodecs.EncodeBatchInto` | src/bindings/base64/batch.rs:331-364 | A batch encode, however items share memory with destinations: each destination before the first failure holds the text of what its item held at the start and its own old bytes behind that; the failing item is unreadable or its text does not fit; no other byte changes |
| `BatchCodecs.DecodeBatchInto` | src/bindings/base64/batch.rs:439-472 | A batch decode, however items share memory with destinations: each destination before the first failure holds the policy's meaning of what its item held at the start and its own old bytes behind that; the failing destination is unchanged if the meaning does not fit and, if there is none, unchanged behind the decoder's bound; no other byte changes |
| `BatchCodecs.EncodeCodecFits` | src/bindings/base64/batch.rs:328-358 | The encoding codec meets what the batch theorem asks of a codec |
| `BatchCodecs.DecodeCodecFits` | src/bindings/base64/batch.rs:439-472 | So does the decoding codec, whatever a failure leaves |
| `BatchCodecs.BatchRoundTrip` | src/bindings/base64/batch.rs:318-472 | After a batch encoding that succeeds, whatever memory items and destinations share, every destination starts with a text that decodes to what its item held before the batch |
| `MurmurWords.PartialIsLittleEndian` | src/murmur3/primitives.rs:52-73 | The branching partial load of up to eight bytes is the little-endian number of the bytes |
| `MurmurWords.MulloIsProduct` | src/murmur3/x64_128/x86.rs:111-120 | Three 32-bit partial products give the product modulo 2^64 |
| `MurmurWords.ShiftsRotate` | src/murmur3/x64_128/x86.rs:84-107 | The two shifts and the or are the rotations of the scalar code |
| `MurmurWords.LaneShiftsRotate32` | src/murmur3/x86_128/x86.rs:73-86 | Per-lane variable shifts are the rotations by 15 to 18 of the scalar code |
| `MurmurBlocks.FoldConcat` | src/murmur3/block_buffer.rs:44-72 | Folding whole blocks and then more is folding all |
| `MurmurBlocks.Split` | src/murmur3/block_buffer.rs:12-16 | Input splits into whole blocks and less than one block |
| `MurmurBlocks.UpdateSplit` | src/murmur3/block_buffer.rs:44-72 | New input behind a message extends its whole blocks and replaces its rest as splitting the longer message does |
| `MurmurBlocks.FoldTellsBlocks` | src/murmur3/x64_128/murmur3_x64_hasher128.rs:214-240 | A fold of steps that tell states and blocks apart tells apart two runs of blocks that differ in one |
| `MurmurBlocks.BlockBuffer.Consume` | src/murmur3/block_buffer.rs:44-72 | The runs given out and the bytes kept are, in order, the bytes kept before and the input; runs are whole and not empty |
| `MurmurX64.MixBodyScalar` | src/murmur3/x64_128/murmur3_x64_hasher128.rs:214-238 | The loop is the fold of the block step |
| `MurmurX64.MixWordsIsBody` | src/murmur3/x64_128/x86.rs:179-183 | Premixing all blocks and then mixing their words in order is the fold |
| `MurmurX64.PremixVectorWords` | src/murmur3/x64_128/x86.rs:84-107 | A vector of one or two blocks premixes to the words of the scalar code, in order |
| `MurmurX64.MixBodyAvx2` | src/murmur3/x64_128/x86.rs:16-75 | The staged 128-byte, 32-byte and scalar steps equal the fold for every whole number of blocks |
| `MurmurX64.MixBodySse41` | src/murmur3/x64_128/x86.rs:123-153 | The staged 64-byte and 16-byte steps equal the fold |
| `MurmurX64.FinishTailLoads` | src/murmur3/x64_128/murmur3_x64_hasher128.rs:247-275 | The guarded tail loads and mixes are the specified finish of the tail |
| `MurmurX64.Murmur3X64128` | src/murmur3/x64_128/murmur3_x64_hasher128.rs:154-164 | The one-shot hash is the digest of its input on every backend |
| `MurmurX64.Murmur3X64Hasher128.Update` | src/murmur3/x64_128/murmur3_x64_hasher128.rs:90-96 | An update makes the hasher's message longer by the input, the length counter wrapping |
| `MurmurX64.Murmur3X64Hasher128.GetDigest` | src/murmur3/x64_128/murmur3_x64_hasher128.rs:115-117 | The digest is that of the concatenated message and leaves the state as it is |
| `MurmurX64.DigestChunks` | src/murmur3/x64_128/murmur3_x64_hasher128.rs:90-117 | Any sequence of updates gives the one-shot digest of the concatenation |
| `MurmurX64Laws.PremixUndone` | src/murmur3/x64_128/murmur3_x64_hasher128.rs:214-240 | Both premixes are undone by inverses written out, for all words |
| `MurmurX64Laws.Fmix64Undone` | src/murmur3/primitives.rs:10-17 | So is the final mixer |
| `MurmurX64Laws.MixUndone` | src/murmur3/x64_128/murmur3_x64_hasher128.rs:278-281 | From the state after a block and the premixed words comes the state before, and from both states the words |
| `MurmurX64Laws.FinalizeUndone` | src/murmur3/x64_128/murmur3_x64_hasher128.rs:266-275 | From a digest and the length comes the state it was made of |
| `MurmurX64Laws.DigestTellsBlocks` | src/murmur3/x64_128/murmur3_x64_hasher128.rs:154-164 | Two different messages of one length that agree outside one block have different digests |
| `MurmurX64Laws.DigestTellsSeeds` | src/murmur3/x64_128/murmur3_x64_hasher128.rs:154-164 | A message has different digests for different seeds |
| `MurmurX64Laws.DigestOfThree` | src/murmur3/tests/reference.rs:32-35 | The digest of the bytes 1, 2, 3 is the known one |
| `MurmurX64Laws.DigestOfCounting` | src/murmur3/x64_128/murmur3_x64_hasher128.rs:154-164 | A digest, written out, that takes a block and both words of a tail |
| `MurmurX86.MixBodyScalar` | src/murmur3/x86_128/murmur3_x86_hasher128.rs:238-264 | The loop is the fold of the block step, from any offset |
| `MurmurX86.Transposes` | src/murmur3/x86_128/x86.rs:131-164 | The unpacks turn four rows of words into their four columns |
| `MurmurX86.PremixGroupSse41` | src/murmur3/x86_128/x86.rs:131-164 | A group is stored as the premixed words of its four blocks, by columns |
| `MurmurX86.MixTransposedGroup` | src/murmur3/x86_128/x86.rs:182-192 | Reading the columns across restores block order: the group is the fold of its four blocks |
| `MurmurX86.MixBodyAvx2` | src/murmur3/x86_128/x86.rs:15-69 | The staged vector steps and the scalar rest equal the fold for every whole number of blocks |
| `MurmurX86.MixBodySse41` | src/murmur3/x86_128/x86.rs:89-124 | Four groups, single groups and the scalar rest equal the fold |
| `MurmurX86.FinishTailBytes` | src/murmur3/x86_128/murmur3_x86_hasher128.rs:170-207 | The byte-wise tail with its four lanes is the specified finish of the tail |
| `MurmurX86.Murmur3X86128` | src/murmur3/x86_128/murmur3_x86_hasher128.rs:156-161 | The one-shot hash is the digest of its input on every backend |
| `MurmurX86.Murmur3X86Hasher128.Update` | src/murmur3/x86_128/murmur3_x86_hasher128.rs:92-98 | An update makes the hasher's message longer by the input, the 32-bit length wrapping |
| `MurmurX86.Murmur3X86Hasher128.GetDigest` | src/murmur3/x86_128/murmur3_x86_hasher128.rs:117-119 | The digest is that of the concatenated message and leaves the state as it is |
| `MurmurX86.DigestChunks` | src/murmur3/x86_128/murmur3_x86_hasher128.rs:92-119 | Any sequence of updates gives the one-shot digest of the concatenation |
| `MurmurX86Laws.PremixUndone` | src/murmur3/x86_128/murmur3_x86_hasher128.rs:238-264 | The premix of every lane is undone by an inverse written out, for all words |
| `MurmurX86Laws.MixUndone` | src/murmur3/x86_128/murmur3_x86_hasher128.rs:267-282 | From the state after a block and the premixed words comes the state before, and from both states the words |
| `MurmurX86Laws.SpreadUndone` | src/murmur3/x86_128/murmur3_x86_hasher128.rs:316-323 | Adding all lanes to the first and the first to all others is undone |
| `MurmurX86Laws.FinalizeUndone` | src/murmur3/x86_128/murmur3_x86_hasher128.rs:310-335 | From a digest and the length comes the state it was made of |
| `MurmurX86Laws.DigestTellsBlocks` | src/murmur3/x86_128/murmur3_x86_hasher128.rs:170-207 | Two different messages of one length that agree outside one block have different digests |
| `MurmurX86Laws.DigestTellsSeeds` | src/murmur3/x86_128/murmur3_x86_hasher128.rs:170-207 | A message has different digests for different seeds |
| `MurmurX86Laws.DigestOfThree` | src/murmur3/tests/reference.rs:28-31 | The digest of the bytes 1, 2, 3 is the known one |
| `MurmurX86Laws.DigestOfCounting` | src/murmur3/x86_128/murmur3_x86_hasher128.rs:170-207 | A digest, written out, that takes a block and every lane of a tail |
| `MurmurX86Short.MixBodyScalar` | src/murmur3/x86_32/murmur3_x86_hasher32.rs:196-208 | The loop is the fold of the block step |
| `MurmurX86Short.PremixLaneIs` | src/murmur3/x86_32/x86.rs:67-74 | A vector lane, with its rotation made of shifts, premixes as the scalar code does |
| `MurmurX86Short.MixWordsIsBody` | src/murmur3/x86_32/x86.rs:34-36 | Premixing all blocks and then mixing their words in order is the fold |
| `MurmurX86Short.MixGroup` | src/murmur3/x86_32/x86.rs:20-51 | A group of vectors, staged and then mixed, continues the fold by its blocks |
| `MurmurX86Short.MixBodyVector` | src/murmur3/x86_32/x86.rs:14-126 | Both vector bodies, of eight and of four lanes, equal the fold for every whole number of blocks |
| `MurmurX86Short.FinishTailBytes` | src/murmur3/x86_32/murmur3_x86_hasher32.rs:225-247 | Exclusive-or of the tail bytes in descending order is the little-endian word that the specification mixes |
| `MurmurX86Short.Murmur3X8632` | src/murmur3/x86_32/murmur3_x86_hasher32.rs:151-156 | The one-shot hash is the digest of its input on every backend |
| `MurmurX86Short.Murmur3X86Hasher32.Update` | src/murmur3/x86_32/murmur3_x86_hasher32.rs:91-97 | An update makes the hasher's message longer by the input, the 32-bit length wrapping |
| `MurmurX86Short.Murmur3X86Hasher32.GetDigest` | src/murmur3/x86_32/murmur3_x86_hasher32.rs:118-120 | The digest is that of the concatenated message and leaves the state as it is |
| `MurmurX86Short.DigestChunks` | src/murmur3/x86_32/murmur3_x86_hasher32.rs:91-120 | Any sequence of updates gives the one-shot digest of the concatenation |
| `MurmurWordLaws.Fmix32Undone` | src/murmur3/primitives.rs:1-8 | The final mixer of both x86 variants is undone by an inverse written out, for all words |
| `MurmurWordLaws.PartialWordTells` | src/murmur3/x86_128/murmur3_x86_hasher128.rs:170-207 | A word of a tail tells its bytes |
| `MurmurX86ShortLaws.PremixUndone` | src/murmur3/x86_32/murmur3_x86_hasher32.rs:236-243 | The premix is undone by an inverse written out, for all words |
| `MurmurX86ShortLaws.MixUndone` | src/murmur3/x86_32/murmur3_x86_hasher32.rs:211-216 | From the hash after a block and the premixed word comes the hash before, and from both hashes the word |
| `MurmurX86ShortLaws.DigestTellsBlocks` | src/murmur3/x86_32/murmur3_x86_hasher32.rs:151-156 | Two different messages of one length that agree outside one block have different digests |
| `MurmurX86ShortLaws.DigestTellsSeeds` | src/murmur3/x86_32/murmur3_x86_hasher32.rs:151-156 | A message has different digests for different seeds |
| `MurmurX86ShortLaws.DigestOfHello` | src/murmur3/tests/reference.rs:26-26 | The known digest of "hello" |
| `MurmurX86ShortLaws.DigestOfThree` | src/murmur3/tests/reference.rs:27-27 | The known digest of the bytes 1, 2, 3 |

## Findings

The contract of the one-pass configured decode asks for room for all symbol prefixes it may accept
(src/bindings/base64/configured.rs:594-596). The allocating decode reserves the upper bound of the decoded length, which
takes up to two final `=` for padding (src/bindings/base64/lenient.rs:205-216). An unpadded strict scan that searches for
special bytes hands these `=` to the decoder as symbols all the same, to be rejected there, and on Neon the block
decoder stores an interval before it tests it. So a decode that fails can store one or two bytes behind the allocation.

* It happens exactly for the inputs of `ConfiguredSpace.Overruns`: more than 256 bytes whose whole quartets end with `=`
  (and which end with `==` if one byte is left over), no forbidden byte, no ignored byte (or one, if one byte is left
  over), a last chunk of whole 64-byte blocks (a full buffer, if symbols are translated and one is left over), and no
  invalid symbol before that chunk's last interval.
  `AllocatingConfigured.LeftoversFit` proves both directions, and that no other backend is concerned.
* `AllocatingDriver.RouteOverruns` names the policies: strict unpadded ones with a configured decoder, and those whose
  unpadded strict attempt has altchars of its own, lenient policies included.
* `AllocatingConfigured.OverrunExample` is a concrete input: 238 bytes reserved, 240 stored.
* The returned result is right in every case: such input is rejected (`AllocatingConfigured.FinalEqualsRejected`).

## Left out

- AllocatingConfigured.DecodeConfiguredAt: what lies behind the allocation is two bytes of the same array; no scan
  reaches further.
- MurmurBlocks.BlockBuffer.Consume: returns the runs of whole blocks instead of calling back with each.
- BatchCodecs.CodeBatchInto: one loop that runs either coder stands for the encoding and the decoding loop. An item is
  coded in a copy of its destination, which is stored back: its input shares no memory with the destination.
- Strict.DecodeWithBackend: validated scalar variants without checks (`decode_eight_validated_ptr`,
  `decode_quad_validated_ptr`) are modelled by the checked ones on valid input, as the results agree there.
- Driver.Execute: in a too small buffer, whether input without a meaning gets a capacity error or no result is left open,
  as it depends on the order of attempts. The warning for legacy URL-safe input, which decodes to a fresh buffer and
  copies, is not modelled.
- CPython objects, buffer exports, reentrant callbacks, argument parsing, exceptions' texts and warnings: foreign calls.
  Aliasing between a single input and its own output is not modelled, as the source takes a snapshot first.
- The `binascii` fallback after all native attempts fail: outside the repository; a decode then has no native result.
- The bit set `IgnoredBytes` and its iterator (`src/bindings/base64/policy.rs:174-202`): modelled as a set of bytes.
- MurmurX86Short.MixBodyVector: one method with a lane count stands for the two bodies, which differ in nothing else.
- CPU detection, backend selection, cache topology and the choice of streaming stores: arbitrary parameters.
- Inline assembly and instruction scheduling: modelled by the lane arithmetic; `sfence` has no counterpart.
- Byte scanners under `src/bindings/base64/scan`: represented by their contracts (some prefix of symbols, nonempty
  when the first byte is one; some alphanumeric prefix; simultaneous replacement of two bytes).
- Allocation failures, the overflow of `isize` in buffer sizes, and integer overflow of lengths near the address-space
  limit: lengths are unbounded.
- The Python-level parsing of alphabets and altchars.
- XXH3, benchmarks, fuzz targets, build hooks and generated documentation.
