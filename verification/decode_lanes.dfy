/** Lane arithmetic of the vector decoders: nibble-class validation, translation by shuffled
offsets, and the multiply-and-shuffle packing of 6-bit fields. Each intrinsic is modelled by
what it computes in one lane. */
module DecodeLanes {
  import opened Bytes
  import opened Alphabet
  import opened Quantum

  /** Which vector code classifies and translates a byte. */
  datatype Lanes = Sse | Avx2 | Avx512 | Neon

  // The 16-entry tables, as functions of the nibble that selects an entry.

  function StandardOffsets(n: byte): byte {
    if n == 1 then 16 else if n == 2 then 19 else if n == 3 then 4 else
    if n == 4 || n == 5 then 191 else if n == 6 || n == 7 then 185 else 0
  }

  function UrlSafeOffsets(n: byte): byte {
    if n == 2 then 17 else if n == 3 then 4 else if n == 4 || n == 5 then 191 else
    if n == 6 || n == 7 then 185 else 0
  }

  function MixedShifts(n: byte): byte {
    if n == 13 then 8 else if n == 15 then 11 else 0
  }

  function MixedHashOffsets(n: byte): byte {
    if n == 0 then 224 else if n == 2 then 19 else if n == 3 then 4 else
    if n == 4 || n == 5 || n == 12 || n == 15 then 191 else
    if n == 8 || n == 9 || n == 11 then 0 else if n == 10 then 17 else if n == 13 then 16 else 185
  }

  function MixedOffsets(n: byte): byte {
    if n == 1 then 16 else if n == 2 then 19 else if n == 3 then 4 else
    if n == 4 || n == 5 then 191 else if n == 6 || n == 7 then 185 else if n == 8 then 17 else
    if n == 9 then 224 else 0
  }

  function StandardHighClasses(n: byte): byte {
    if n == 2 then 0x01 else if n == 3 then 0x02 else if n == 4 || n == 6 then 0x04 else
    if n == 5 || n == 7 then 0x08 else 0x20
  }

  function StandardLowClasses(n: byte): byte {
    if n == 0 then 0x25 else if n == 10 then 0x23 else if n == 11 || n == 15 then 0x2a else
    if n == 12 || n == 13 || n == 14 then 0x2b else 0x21
  }

  function UrlSafeHighClasses(n: byte): byte {
    if n == 2 then 0x01 else if n == 3 then 0x02 else if n == 4 || n == 6 then 0x04 else
    if n == 5 then 0x08 else if n == 7 then 0x10 else 0x20
  }

  function UrlSafeLowClasses(n: byte): byte {
    if n == 0 then 0x25 else if n == 10 then 0x23 else
    if n == 11 || n == 12 || n == 14 then 0x3b else if n == 13 then 0x3a else
    if n == 15 then 0x33 else 0x21
  }

  function MixedLowClasses(n: byte): byte {
    if n == 0 then 0x25 else if n == 10 then 0x23 else if n == 11 || n == 13 then 0x3a else
    if n == 12 || n == 14 then 0x3b else if n == 15 then 0x32 else 0x21
  }

  /** One lane of a byte compare: all ones when equal. */
  function CmpEq(a: byte, b: byte): byte { if a == b then 0xff else 0 }

  /** The high nibble of one byte. */
  function HighNibble(b: byte): byte { b >> 4 }

  /** The high nibbles of a 16-bit lane, shifted as one word and then masked per byte. */
  function HighNibbles(w: bv16): bv16 { (w >> 4) & 0x0f0f }

  /** Two neighbouring bytes as one 16-bit lane. */
  function Pair(lo: byte, hi: byte): bv16 { ((hi as bv16) << 8) | lo as bv16 }

  lemma HighNibblesPerByte(lo: byte, hi: byte)
    ensures HighNibbles(Pair(lo, hi)) == Pair(HighNibble(lo), HighNibble(hi))
  {
  }

  function LowByte(w: bv16): byte { (w & 0xff) as byte }

  function HighByte(w: bv16): byte { (w >> 8) as byte }

  lemma PairBytes(lo: byte, hi: byte)
    ensures LowByte(Pair(lo, hi)) == lo && HighByte(Pair(lo, hi)) == hi
  {
  }

  lemma PairNibbles(lo: byte, hi: byte)
    ensures LowByte(HighNibbles(Pair(lo, hi))) == HighNibble(lo)
    ensures HighByte(HighNibbles(Pair(lo, hi))) == HighNibble(hi)
  {
    hide *;
    HighNibblesPerByte(lo, hi);
    PairBytes(HighNibble(lo), HighNibble(hi));
  }

  /** Whether the nibbles of a kernel come out of 16-bit lanes. */
  predicate ShiftsPairs(f: Lanes) {
    f == Sse || f == Avx2
  }

  /** The high nibbles of a vector's bytes: x86 has no shift of single bytes, Neon has. */
  function NibbleLanes(f: Lanes, s: seq<byte>): (n: seq<byte>)
    requires ShiftsPairs(f) ==> |s| % 2 == 0
    ensures |n| == |s|
  {
    if ShiftsPairs(f) then
      seq(|s|, k requires 0 <= k < |s| =>
        if k % 2 == 0 then LowByte(HighNibbles(Pair(s[k], s[k + 1])))
        else HighByte(HighNibbles(Pair(s[k - 1], s[k]))))
    else Map(HighNibble, s)
  }

  lemma NibbleLanesAt(f: Lanes, s: seq<byte>, k: nat)
    requires (ShiftsPairs(f) ==> |s| % 2 == 0) && k < |s|
    ensures NibbleLanes(f, s)[k] == HighNibble(s[k])
  {
    if ShiftsPairs(f) {
      hide HighNibble, HighNibbles, Pair, LowByte, HighByte;
      if k % 2 == 0 {
        PairNibbles(s[k], s[k + 1]);
      } else {
        PairNibbles(s[k - 1], s[k]);
      }
    }
  }

  function HighClass(a: DecodeAlphabet, n: byte): byte {
    if a == Standard then StandardHighClasses(n) else UrlSafeHighClasses(n)
  }

  function LowClass(a: DecodeAlphabet, n: byte): byte {
    match a
    case Standard => StandardLowClasses(n)
    case UrlSafe => UrlSafeLowClasses(n)
    case Mixed => MixedLowClasses(n)
  }

  // The lanes of a byte `b` with high nibble `n`.

  /** 128-bit kernels: both shuffles are indexed by a nibble; a shared class bit is an error. */
  function NibbleErrors(a: DecodeAlphabet, b: byte, n: byte): byte {
    HighClass(a, n) & LowClass(a, b & 0x0f)
  }

  /** 256-bit kernel: the complemented low table is shuffled by the raw byte, so a set high bit
      selects zero, which leaves the high class standing. */
  function RawErrors(a: DecodeAlphabet, b: byte, n: byte): byte {
    var mismatches := if b >= 0x80 then 0 else !LowClass(a, b & 0x0f);
    !mismatches & HighClass(a, n)
  }

  /** Nonzero exactly in the lanes that hold a byte outside the alphabet. */
  function ErrorLane(f: Lanes, a: DecodeAlphabet, b: byte, n: byte): byte {
    match f
    case Sse => NibbleErrors(a, b, n)
    case Neon => NibbleErrors(a, b, n)
    case Avx2 => RawErrors(a, b, n)
    case Avx512 => (StrictValue(a, b & 0x7f) | b) & 0x80
  }

  /** Offset lookups by a lane sum: a sum with its high bit set (PSHUFB) or beyond the table (TBL)
      selects zero. */
  function TranslateStandard(b: byte, n: byte): byte {
    var at := n + CmpEq(b, 47);
    b + (if at >= 0x80 then 0 else StandardOffsets(at & 0x0f))
  }

  function TranslateUrlSafe(b: byte, n: byte): byte {
    (b + UrlSafeOffsets(n)) + (CmpEq(b, 95) & 33)
  }

  function TranslateMixed(b: byte, n: byte): byte {
    TranslateStandard(b, n) + ((CmpEq(b, 45) & 254) | (CmpEq(b, 95) & 33))
  }

  function TranslateHashed(b: byte, n: byte): byte {
    var at := n + (if b >= 0x80 then 0 else MixedShifts(b & 0x0f));
    b + (if at >= 0x80 then 0 else MixedHashOffsets(at & 0x0f))
  }

  function TranslateNeonStandard(b: byte, n: byte): byte {
    var at := n + CmpEq(b, 47);
    b + (if at >= 16 then 0 else StandardOffsets(at))
  }

  function TranslateNeonMixed(b: byte, n: byte): byte {
    var at := if b == 95 then 9 else if b == 45 then 8 else n + CmpEq(b, 47);
    b + (if at >= 16 then 0 else MixedOffsets(at))
  }

  function IndexLane(f: Lanes, a: DecodeAlphabet, b: byte, n: byte): byte {
    match f
    case Avx512 => StrictValue(a, b & 0x7f)
    case Avx2 => if a == Standard then TranslateStandard(b, n) else TranslateHashed(b, n)
    case Sse =>
      (match a
       case Standard => TranslateStandard(b, n)
       case UrlSafe => TranslateUrlSafe(b, n)
       case Mixed => TranslateMixed(b, n))
    case Neon =>
      (match a
       case Standard => TranslateNeonStandard(b, n)
       case UrlSafe => TranslateUrlSafe(b, n)
       case Mixed => TranslateNeonMixed(b, n))
  }

  lemma StandardClasses(b: byte)
    ensures NibbleErrors(Standard, b, HighNibble(b)) == 0 <==> StrictValue(Standard, b) < 64
    ensures RawErrors(Standard, b, HighNibble(b)) == 0 <==> StrictValue(Standard, b) < 64
  {
  }

  lemma UrlSafeClasses(b: byte)
    ensures NibbleErrors(UrlSafe, b, HighNibble(b)) == 0 <==> StrictValue(UrlSafe, b) < 64
  {
    if b < 64 {
    } else if b < 128 {
    } else {
    }
  }

  lemma UrlSafeRawClasses(b: byte)
    ensures RawErrors(UrlSafe, b, HighNibble(b)) == 0 <==> StrictValue(UrlSafe, b) < 64
  {
  }

  lemma MixedClasses(b: byte)
    ensures NibbleErrors(Mixed, b, HighNibble(b)) == 0 <==> StrictValue(Mixed, b) < 64
    ensures RawErrors(Mixed, b, HighNibble(b)) == 0 <==> StrictValue(Mixed, b) < 64
  {
  }

  lemma ClassesAgreeWithTable(a: DecodeAlphabet, b: byte)
    ensures NibbleErrors(a, b, HighNibble(b)) == 0 <==> StrictValue(a, b) < 64
    ensures RawErrors(a, b, HighNibble(b)) == 0 <==> StrictValue(a, b) < 64
  {
    hide NibbleErrors, RawErrors, HighNibble, StrictValue;
    match a
    case Standard => StandardClasses(b);
    case UrlSafe =>
      UrlSafeClasses(b);
      UrlSafeRawClasses(b);
    case Mixed => MixedClasses(b);
  }

  lemma TranslationsAgreeWithTable(b: byte)
    ensures StrictValue(Standard, b) < 64 ==>
              TranslateStandard(b, HighNibble(b)) == StrictValue(Standard, b) == TranslateNeonStandard(b, HighNibble(b))
    ensures StrictValue(UrlSafe, b) < 64 ==>
              TranslateUrlSafe(b, HighNibble(b)) == StrictValue(UrlSafe, b) == TranslateHashed(b, HighNibble(b))
    ensures StrictValue(Mixed, b) < 64 ==>
              TranslateMixed(b, HighNibble(b)) == StrictValue(Mixed, b) == TranslateHashed(b, HighNibble(b))
    ensures StrictValue(Mixed, b) < 64 ==> TranslateNeonMixed(b, HighNibble(b)) == StrictValue(Mixed, b)
  {
  }

  /** Every kernel's nibble classes and offsets agree with the 256-entry table, for all 256 bytes:
      a lane reports an error exactly for a byte outside the alphabet, and otherwise holds its value. */
  lemma LaneAgreesWithTable(f: Lanes, a: DecodeAlphabet, b: byte)
    ensures ErrorLane(f, a, b, HighNibble(b)) == 0 <==> StrictValue(a, b) < 64
    ensures StrictValue(a, b) < 64 ==> IndexLane(f, a, b, HighNibble(b)) == StrictValue(a, b)
  {
    ClassesAgreeWithTable(a, b);
    TranslationsAgreeWithTable(b);
  }

  /** Multiply-add packing of four indices: MADDUBS by (64, 1) joins pairs into 12 bits, MADD by
      (4096, 1) joins the pairs into 24 bits of a 32-bit lane. */
  function PackedDword(a: byte, b: byte, c: byte, d: byte): bv32 {
    var low: bv32 := a as bv32 * 0x40 + b as bv32;
    var high: bv32 := c as bv32 * 0x40 + d as bv32;
    low * 0x1000 + high
  }

  /** Byte `k` of a 32-bit lane in memory order. */
  function DwordByte(w: bv32, k: nat): byte
    requires k < 4
  {
    (if k == 0 then w & 0xff else if k == 1 then (w >> 8) & 0xff
     else if k == 2 then (w >> 16) & 0xff else (w >> 24) & 0xff) as byte
  }

  lemma PackedDwordIsQuantum(a: byte, b: byte, c: byte, d: byte)
    requires a < 64 && b < 64 && c < 64 && d < 64
    ensures DwordByte(PackedDword(a, b, c, d), 2) == First(a, b)
    ensures DwordByte(PackedDword(a, b, c, d), 1) == Second(b, c)
    ensures DwordByte(PackedDword(a, b, c, d), 0) == Third(c, d)
  {
  }
}
