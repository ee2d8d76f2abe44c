// The signal codec: the constructor's precomputed masks, shifts and byte window, the fast decoder
// that runs on them, and the encoder that walks the signal one bit at a time.
module SignalCodec {
  import opened Bits
  import opened SignalLayout

  datatype ErrorCode =
    | NoError
    | MaschinesFloatEncodingNotSupported
    | MaschinesDoubleEncodingNotSupported
    | SignalExceedsMessageSize
    | WrongBitSizeForExtendedDataType

  function Code(e: ErrorCode): u64 {
    Pow2Values();
    match e
    case NoError => 0
    case MaschinesFloatEncodingNotSupported => 1
    case MaschinesDoubleEncodingNotSupported => 2
    case SignalExceedsMessageSize => 4
    case WrongBitSizeForExtendedDataType => 8
  }

  // Bit `Flag(e)` of an error word records e.
  function Flag(e: ErrorCode): nat
    requires e != NoError
  {
    match e
    case MaschinesFloatEncodingNotSupported => 0
    case MaschinesDoubleEncodingNotSupported => 1
    case SignalExceedsMessageSize => 2
    case WrongBitSizeForExtendedDataType => 3
  }

  predicate Reports(error: u64, e: ErrorCode) {
    Code(e) == error || And(error, Code(e)) != 0
  }

  lemma CodeIsFlag(e: ErrorCode)
    requires e != NoError
    ensures Code(e) == Shl(1, Flag(e))
  {
    OneBit(Flag(e), 0);
    assert Pow2(0) == 1 && Pow2(1) == 2 && Pow2(2) == 4 && Pow2(3) == 8;
  }

  // An error word reports a condition exactly when its flag is set, and NoError exactly when none is.
  lemma ReportsMeansFlag(error: u64, e: ErrorCode)
    requires forall i: nat | 4 <= i :: !Bit(error, i)
    ensures e != NoError ==> Reports(error, e) == Bit(error, Flag(e))
    ensures Reports(error, NoError) <==> forall c: ErrorCode | c != NoError :: !Bit(error, Flag(c))
  {
    if e != NoError {
      CodeIsFlag(e);
      TestBit(error, Flag(e));
      OneBit(Flag(e), Flag(e));
    }
    if error != 0 {
      NonZeroHasBit(error);
      var i: nat :| Bit(error, i);
      var c := if i == 0 then MaschinesFloatEncodingNotSupported
      else if i == 1 then MaschinesDoubleEncodingNotSupported
      else if i == 2 then SignalExceedsMessageSize else WrongBitSizeForExtendedDataType;
      assert Flag(c) == i;
    } else {
      forall c: ErrorCode | c != NoError ensures !Bit(error, Flag(c)) { NoHighBits(0, 0, Flag(c)); }
    }
  }

  // Some bit of the signal lies outside the first n bytes.
  ghost predicate Exceeds(d: Desc, n: nat)
  {
    exists k: nat :: k < d.bitSize && Place(d, k) >= 8 * n
  }

  lemma ExceedsMeansEndByte(d: Desc, n: nat)
    requires d.Valid()
    ensures Exceeds(d, n) <==> EndByte(d) > n
  {
    EndBytesReached(d);
    if EndByte(d) <= n { PlacesFit(d, n); }
  }

  // The frame size in bytes, as 64-bit arithmetic on bits sees it: at least eight, but modulo 2^61.
  function Capacity(messageSize: u64): nat {
    AtLeastEight(messageSize) % TWO_61
  }

  function AtLeastEight(messageSize: u64): u64 {
    if messageSize < 8 then 8 else messageSize
  }

  const TWO_61: nat := 0x2000_0000_0000_0000

  // The end of the signal as that arithmetic sees it, which goes on from zero beyond the last 64-bit position.
  function ReachedByte(d: Desc): nat
    requires d.Valid()
  {
    if d.byteOrder == LittleEndian && d.startBit + d.bitSize == TWO_64 then 0
    else if EndByte(d) > TWO_61 then EndByte(d) - TWO_61
    else EndByte(d)
  }

  // The test the constructor makes on the frame size, for each byte order.
  predicate FrameTooSmall(d: Desc, n: u64)
    requires d.Valid()
  {
    match d.byteOrder
    case LittleEndian => Add64(d.startBit, d.bitSize) > Mul64(n, 8)
    case BigEndian =>
      var fsize := Add64(d.bitSize, Sub64(7, d.startBit % 8));
      var fstart := Sub64(d.startBit, d.startBit % 8);
      Add64(fstart, Mul64(Sub64(fsize, 1) / 8, 8)) >= Mul64(n, 8)
  }

  lemma FrameTooSmallMeaning(d: Desc, n: u64)
    requires d.Valid()
    ensures FrameTooSmall(d, n) <==> ReachedByte(d) > n % TWO_61
  {
    TimesEight(n);
    match d.byteOrder {
      case LittleEndian =>
        LittleEndWraps(d, n % TWO_61);
      case BigEndian =>
        var fsize := d.bitSize + 7 - d.startBit % 8;
        assert Add64(d.bitSize, Sub64(7, d.startBit % 8)) == fsize;
        assert Sub64(d.startBit, d.startBit % 8) == 8 * FirstByte(d);
        TimesEight((fsize - 1) / 8);
        assert EndByte(d) == FirstByte(d) + (fsize - 1) / 8 + 1;
    }
  }

  lemma TimesEight(n: u64)
    ensures Mul64(n, 8) == 8 * (n % TWO_61)
  {
  }

  lemma LittleEndWraps(d: Desc, n: nat)
    requires d.Valid() && d.byteOrder == LittleEndian
    ensures Add64(d.startBit, d.bitSize) > 8 * n <==> ReachedByte(d) > n
  {
    var sum := d.startBit + d.bitSize;
    assert EndByte(d) == (sum - 1) / 8 + 1;
    if sum >= TWO_64 { assert Add64(d.startBit, d.bitSize) == sum - TWO_64; }
  }

  // The end of the signal is below 2^64 as the check computes it.
  predicate CheckableEnd(d: Desc)
    requires d.Valid()
  {
    if d.byteOrder == LittleEndian then d.startBit + d.bitSize < TWO_64 else Addressable(d)
  }

  // The check tells whether some bit lies outside the message exactly under these conditions.
  lemma FlagIsRightIff(d: Desc, messageSize: u64)
    requires d.Valid()
    ensures (ReachedByte(d) > Capacity(messageSize) <==> Exceeds(d, AtLeastEight(messageSize)))
            <==> if messageSize < TWO_61 then CheckableEnd(d)
                 else ReachedByte(d) <= Capacity(messageSize) || EndByte(d) > messageSize
  {
    ExceedsMeansEndByte(d, AtLeastEight(messageSize));
  }

  // The number of bytes the signal touches, as the constructor and the C generator compute it.
  function NBytes(d: Desc): (r: u64)
    requires d.Valid()
    ensures r == ByteCount(d)
  {
    if d.byteOrder == LittleEndian
    then Add64(Add64(d.startBit % 8, d.bitSize), 7) / 8
    else Add64(Add64(d.bitSize, Sub64(7, d.startBit % 8)), 7) / 8
  }

  predicate WrongSize(d: Desc) {
    (d.extendedValueType == Float && d.bitSize != 32) || (d.extendedValueType == Double && d.bitSize != 64)
  }

  // `b |= 1ull << k` and `b &= ~(1ull << k)`, truncated to a byte
  function SetBit(b: byte, k: nat): byte
    requires k < 8
  {
    Or(b, Shl(1, k)) % 256
  }

  function ClearBit(b: byte, k: nat): byte
    requires k < 8
  {
    And(b, Not64(Shl(1, k))) % 256
  }

  lemma SetBitAt(b: byte, k: nat, i: nat)
    requires k < 8 && i < 8
    ensures Bit(SetBit(b, k), i) == (i == k || Bit(b, i))
  {
    Pow2Values();
    OneBit(k, i);
    OrBit(b, Shl(1, k), i);
    ModBit(Or(b, Shl(1, k)), 8, i);
  }

  lemma ClearBitAt(b: byte, k: nat, i: nat)
    requires k < 8 && i < 8
    ensures Bit(ClearBit(b, k), i) == (i != k && Bit(b, i))
  {
    assert Pow2(8) == 256 && Pow2(64) == TWO_64 by { Pow2Values(); }
    OneBit(k, i);
    ComplementBit(Shl(1, k), 64, i);
    AndBit(b, Not64(Shl(1, k)), i);
    ModBit(And(b, Not64(Shl(1, k))), 8, i);
  }

  // `(8 * (7 - (s / 8))) + (s % 8) - (size - 1)`
  function WordShift(s: u64, size: u64): u64 {
    Sub64(Add64(Mul64(8, Sub64(7, s / 8)), s % 8), Sub64(size, 1))
  }

  lemma WordShiftExact(s: u64, size: u64)
    requires s < 64 && 1 <= size <= 8 * (7 - s / 8) + s % 8 + 1
    ensures WordShift(s, size) == 8 * (7 - s / 8) + s % 8 - (size - 1)
  {
  }

  lemma OffsetInWord(start: nat, w: nat)
    requires w <= start / 8
    ensures start >= 8 * w
    ensures (start - 8 * w) / 8 == start / 8 - w && (start - 8 * w) % 8 == start % 8
  {
  }

  lemma {:induction false} WordShiftLies(d: Desc, w: nat)
    requires d.Valid() && w <= FirstByte(d) && EndByte(d) <= w + 8
    ensures 0 <= d.startBit - 8 * w < 64
    ensures d.byteOrder == LittleEndian ==> LiesInWord(d, w, d.startBit - 8 * w)
    ensures d.byteOrder == BigEndian ==>
              WordShift(d.startBit - 8 * w, d.bitSize) < 64
              && LiesInWord(d, w, WordShift(d.startBit - 8 * w, d.bitSize))
  {
    OffsetInWord(d.startBit, w);
    assert FirstByte(d) < w + 8;
    if d.byteOrder == LittleEndian { LittleLiesInWord(d, w); } else { BigWordShift(d, w); }
  }

  lemma {:induction false} BigWordShift(d: Desc, w: nat)
    requires d.Valid() && d.byteOrder == BigEndian && w <= FirstByte(d) && EndByte(d) <= w + 8
    requires 0 <= d.startBit - 8 * w < 64
    ensures WordShift(d.startBit - 8 * w, d.bitSize) < 64
    ensures LiesInWord(d, w, WordShift(d.startBit - 8 * w, d.bitSize))
  {
    BigLiesInWord(d, w);
    WordShiftIsBigShift(d, w);
  }

  lemma {:induction false} WordShiftIsBigShift(d: Desc, w: nat)
    requires d.Valid() && w <= FirstByte(d) && 0 <= d.startBit - 8 * w < 64 && BigShift(d, w) >= 0
    ensures WordShift(d.startBit - 8 * w, d.bitSize) == BigShift(d, w)
  {
    var s := d.startBit - 8 * w;
    OffsetInWord(d.startBit, w);
    assert s / 8 == FirstByte(d) - w && s % 8 == d.startBit % 8;
    WordShiftExact(s, d.bitSize);
  }

  lemma WordBitOfSignal(d: Desc, frame: seq<byte>, w: nat, i: nat, k: nat)
    requires d.Valid() && w + 8 <= |frame| && EndByte(d) <= |frame|
    requires i < 64 && k < d.bitSize && WordPlace(d.byteOrder, w, i) == Place(d, k)
    ensures Bit(LoadOrdered(d.byteOrder, frame, w), i) == Bit(Assemble(d, frame), k)
  {
    LoadOrderedBit(d.byteOrder, frame, w, i);
    AssembleBit(d, frame, k);
  }

  lemma NinthByteOfSignal(d: Desc, frame: seq<byte>, w: nat, j: nat, k: nat)
    requires d.Valid() && w + 9 <= |frame| && EndByte(d) <= |frame|
    requires j < 8 && k < d.bitSize && Place(d, k) == 8 * (w + 8) + j
    ensures Bit(frame[w + 8], j) == Bit(Assemble(d, frame), k)
  {
    AssembleBit(d, frame, k);
    assert Place(d, k) / 8 == w + 8 && Place(d, k) % 8 == j;
  }

  lemma BeyondSignal(d: Desc, frame: seq<byte>, k: nat)
    requires d.Valid() && EndByte(d) <= |frame| && d.bitSize <= k
    ensures !Bit(Assemble(d, frame), k)
  {
    AssembleBit(d, frame, k);
  }

  // Shifting and masking the loaded word yields the bits of the signal, in order.
  lemma {:induction false} WordHoldsSignal(d: Desc, frame: seq<byte>, w: nat, shift: nat)
    requires d.Valid() && w + 8 <= |frame| && EndByte(d) <= |frame| && LiesInWord(d, w, shift)
    ensures And(Shr(LoadOrdered(d.byteOrder, frame, w), shift), Pow2(d.bitSize) - 1) == Assemble(d, frame)
  {
    var data := LoadOrdered(d.byteOrder, frame, w);
    var masked := And(Shr(data, shift), Pow2(d.bitSize) - 1);
    AndBound(Shr(data, shift), Pow2(d.bitSize) - 1);
    forall k: nat | k < d.bitSize ensures Bit(masked, k) == Bit(Assemble(d, frame), k) {
      AndBit(Shr(data, shift), Pow2(d.bitSize) - 1, k);
      LowMaskBit(d.bitSize, k);
      ShrBit(data, shift, k);
      WordBitOfSignal(d, frame, w, shift + k, k);
    }
    AssembleBit(d, frame, 0);
    BitsEqual(masked, Assemble(d, frame), d.bitSize);
  }

  lemma ByteEnds(b: byte, i: nat)
    requires i >= 8
    ensures !Bit(b, i)
  {
    Pow2Values();
    NoHighBits(b, 8, i);
  }

  lemma WordEnds(x: u64, i: nat)
    requires i >= 64
    ensures !Bit(x, i)
  {
    Pow2Values();
    NoHighBits(x, 64, i);
  }

  lemma MaskedBit(x: nat, n: nat, i: nat)
    ensures Bit(And(x, Pow2(n) - 1), i) == (i < n && Bit(x, i))
  {
    AndBit(x, Pow2(n) - 1, i);
    LowMaskBit(n, i);
  }

  lemma MaskedWordIsSignal(d: Desc, frame: seq<byte>, word: u64, shift: nat)
    requires d.Valid() && WindowEnd(d) <= |frame| && LiesInWord(d, WindowStart(d), shift)
    requires word == LoadOrdered(d.byteOrder, frame, WindowStart(d)) && Pow2(d.bitSize) <= TWO_64
    ensures EndByte(d) <= |frame| && Assemble(d, frame) < Pow2(d.bitSize)
    ensures And64(Shr64(word, shift), Pow2(d.bitSize) - 1) == Assemble(d, frame)
  {
    WindowCoversSignal(d);
    WordHoldsSignal(d, frame, WindowStart(d), shift);
    AssembleBit(d, frame, 0);
  }

  lemma {:induction false} NineBytesLittleBit(d: Desc, frame: seq<byte>, w: nat, shift: nat, tail: nat, k: nat)
    requires d.Valid() && w + 9 <= |frame| && EndByte(d) <= |frame| && SplitsLittle(d, w, shift, tail) && k < 64
    ensures (Bit(Shr(LoadOrdered(LittleEndian, frame, w), shift), k)
             || Bit(Shl(And(frame[w + 8], Pow2(tail) - 1), 64 - shift), k))
            == Bit(Assemble(d, frame), k)
  {
    var data, last := LoadOrdered(LittleEndian, frame, w), frame[w + 8];
    ShrBit(data, shift, k);
    ShlBit(And(last, Pow2(tail) - 1), 64 - shift, k);
    if k < 64 - shift {
      WordBitOfSignal(d, frame, w, shift + k, k);
    } else {
      var j := k - (64 - shift);
      WordEnds(data, k + shift);
      MaskedBit(last, tail, j);
      if k < d.bitSize { NinthByteOfSignal(d, frame, w, j, k); } else { BeyondSignal(d, frame, k); }
    }
  }

  lemma NineBytesHoldLittle(d: Desc, frame: seq<byte>, w: nat, shift: nat, tail: nat)
    requires d.Valid() && w + 9 <= |frame| && EndByte(d) <= |frame| && SplitsLittle(d, w, shift, tail)
    requires Pow2(tail) <= TWO_64
    ensures Or64(Shr64(LoadOrdered(LittleEndian, frame, w), shift),
                 Shl(And64(frame[w + 8], Pow2(tail) - 1), 64 - shift))
            == Assemble(d, frame)
  {
    var low := Shr64(LoadOrdered(LittleEndian, frame, w), shift);
    var high := Shl(And64(frame[w + 8], Pow2(tail) - 1), 64 - shift);
    forall k: nat | k < 64 ensures Bit(Or64(low, high), k) == Bit(Assemble(d, frame), k) {
      OrBit(low, high, k);
      NineBytesLittleBit(d, frame, w, shift, tail, k);
    }
    Pow2Values();
    BitsEqual(Or64(low, high), Assemble(d, frame), 64);
  }

  // The ninth byte ends with the tail bits of the signal, the word holds the others.
  lemma {:induction false} NinthByteTail(d: Desc, frame: seq<byte>, w: nat, tail: nat, k: nat)
    requires d.Valid() && w + 9 <= |frame| && EndByte(d) <= |frame| && SplitsBig(d, w, tail) && k < 64
    ensures Bit(Shr(frame[w + 8], 8 - tail), k) == (k < tail && Bit(Assemble(d, frame), k))
  {
    ShrBit(frame[w + 8], 8 - tail, k);
    if k < tail {
      NinthByteOfSignal(d, frame, w, 8 - tail + k, k);
    } else {
      ByteEnds(frame[w + 8], k + (8 - tail));
    }
  }

  lemma {:induction false} WordHead(d: Desc, frame: seq<byte>, w: nat, tail: nat, k: nat)
    requires d.Valid() && w + 9 <= |frame| && EndByte(d) <= |frame| && SplitsBig(d, w, tail) && k < 64
    ensures Bit(Shl(And(LoadOrdered(BigEndian, frame, w), Pow2(d.bitSize - tail) - 1), tail), k)
            == (tail <= k && Bit(Assemble(d, frame), k))
  {
    var data, kept := LoadOrdered(BigEndian, frame, w), d.bitSize - tail;
    ShlBit(And(data, Pow2(kept) - 1), tail, k);
    if tail <= k { KeptBit(d, frame, w, tail, k); }
  }

  lemma {:induction false} KeptBit(d: Desc, frame: seq<byte>, w: nat, tail: nat, k: nat)
    requires d.Valid() && w + 9 <= |frame| && EndByte(d) <= |frame| && SplitsBig(d, w, tail) && tail <= k < 64
    ensures Bit(And(LoadOrdered(BigEndian, frame, w), Pow2(d.bitSize - tail) - 1), k - tail)
            == Bit(Assemble(d, frame), k)
  {
    MaskedBit(LoadOrdered(BigEndian, frame, w), d.bitSize - tail, k - tail);
    if k < d.bitSize { WordBitOfSignal(d, frame, w, k - tail, k); } else { BeyondSignal(d, frame, k); }
  }

  lemma NineBytesHoldBig(d: Desc, frame: seq<byte>, w: nat, tail: nat)
    requires d.Valid() && w + 9 <= |frame| && EndByte(d) <= |frame| && SplitsBig(d, w, tail)
    requires Pow2(d.bitSize - tail) <= TWO_64
    ensures Or64(Shl(And64(LoadOrdered(BigEndian, frame, w), Pow2(d.bitSize - tail) - 1), tail),
                 Shr64(frame[w + 8], 8 - tail))
            == Assemble(d, frame)
  {
    var high := Shl(And64(LoadOrdered(BigEndian, frame, w), Pow2(d.bitSize - tail) - 1), tail);
    var low := Shr64(frame[w + 8], 8 - tail);
    forall k: nat | k < 64 ensures Bit(Or64(high, low), k) == Bit(Assemble(d, frame), k) {
      OrBit(high, low, k);
      WordHead(d, frame, w, tail, k);
      NinthByteTail(d, frame, w, tail, k);
    }
    Pow2Values();
    BitsEqual(Or64(high, low), Assemble(d, frame), 64);
  }

  // `if (data & _mask_signed) data |= _mask_signed;`
  lemma SignExtendedByMask(x: u64, n: nat, signMask: u64)
    requires 1 <= n <= 64 && x < Pow2(n)
    requires forall i: nat :: Bit(signMask, i) == (n - 1 <= i < 64)
    ensures (if And(x, signMask) != 0 then Or(x, signMask) else x) == SignExtend(x, n)
  {
    SignMaskHits(x, n, signMask);
    if Bit(x, n - 1) {
      forall i: nat | i < 64 ensures Bit(Or64(x, signMask), i) == Bit(SignExtend(x, n), i) {
        OrBit(x, signMask, i);
        SignExtendBit(x, n, i);
      }
      Pow2Values();
      BitsEqual(Or64(x, signMask), SignExtend(x, n), 64);
    } else {
      TopBit(x, n);
    }
  }

  lemma SignMaskHits(x: u64, n: nat, signMask: u64)
    requires 1 <= n <= 64 && x < Pow2(n)
    requires forall i: nat :: Bit(signMask, i) == (n - 1 <= i < 64)
    ensures And(x, signMask) != 0 <==> Bit(x, n - 1)
  {
    AndBit(x, signMask, n - 1);
    if And(x, signMask) != 0 {
      NonZeroHasBit(And(x, signMask));
      var i: nat :| Bit(And(x, signMask), i);
      AndBit(x, signMask, i);
      if n <= i { NoHighBits(x, n, i); }
    } else {
      NoHighBits(0, 0, n - 1);
    }
  }

  // The i-th bit of the big-endian walk is the place of raw bit bitSize - 1 - i, and the step to the next bit of
  // the signal, if there is one, does not wrap.
  lemma {:induction false} BigWalkStep(d: Desc, src: u64, i: nat)
    requires d.Valid() && d.byteOrder == BigEndian && Addressable(d) && i < d.bitSize
    requires Mirror(src) == Mirror(d.startBit) + i
    ensures Place(d, d.bitSize - 1 - i) == src
    ensures i + 1 < d.bitSize ==> Mirror(NextBig(src)) == Mirror(d.startBit) + (i + 1)
  {
    MirrorTwice(src);
    if i + 1 < d.bitSize { NextStaysBelow(d, src, i); }
  }

  lemma NextStaysBelow(d: Desc, src: u64, i: nat)
    requires d.Valid() && d.byteOrder == BigEndian && Addressable(d) && i + 1 < d.bitSize
    requires Mirror(src) == Mirror(d.startBit) + i
    ensures Mirror(NextBig(src)) == Mirror(src) + 1
  {
    assert Mirror(src) + 1 < 8 * EndByte(d);
  }

  // The raw bits lo..hi have been written over the frame `before`, and nothing else.
  ghost predicate Written(d: Desc, before: seq<byte>, now: seq<byte>, raw: nat, lo: nat, hi: nat) {
    && |now| == |before|
    && forall p: nat | p < 8 * |before| ::
         FrameBit(now, p) == if lo <= Slot(d, p) < hi then Bit(raw, Slot(d, p)) else FrameBit(before, p)
  }

  // Bits [lo, hi) other than `slot`, which is the first or the last of them.
  ghost predicate WrittenExcept(d: Desc, before: seq<byte>, now: seq<byte>, raw: nat, lo: nat, hi: nat, slot: nat) {
    if slot == lo then Written(d, before, now, raw, lo + 1, hi)
    else slot + 1 == hi && Written(d, before, now, raw, lo, slot)
  }

  lemma BitWritten(d: Desc, before: seq<byte>, now: seq<byte>, raw: nat, lo: nat, hi: nat, slot: nat, v: byte)
    requires d.Valid() && EndByte(d) <= |now| && lo <= slot < hi <= d.bitSize
    requires WrittenExcept(d, before, now, raw, lo, hi, slot)
    requires Place(d, slot) / 8 < |now|
    requires forall i: nat | i < 8 ::
               Bit(v, i) == if i == Place(d, slot) % 8 then Bit(raw, slot) else Bit(now[Place(d, slot) / 8], i)
    ensures Written(d, before, now[Place(d, slot) / 8 := v], raw, lo, hi)
  {
    var next := now[Place(d, slot) / 8 := v];
    SlotOfPlace(d, slot);
    forall p: nat | p < 8 * |before|
      ensures FrameBit(next, p) == if lo <= Slot(d, p) < hi then Bit(raw, Slot(d, p)) else FrameBit(before, p)
    {
      if Slot(d, p) == slot { PlaceOfSlot(d, p); }
      assert p == Place(d, slot) <==> Slot(d, p) == slot;
      assert p != Place(d, slot) ==> FrameBit(next, p) == FrameBit(now, p);
    }
  }

  lemma AllWritten(d: Desc, before: seq<byte>, now: seq<byte>, raw: nat)
    requires Written(d, before, now, raw, 0, d.bitSize)
    ensures now == Encoded(d, before, raw)
  {
    forall p: nat | p < 8 * |before| ensures FrameBit(now, p) == FrameBit(Encoded(d, before, raw), p) {
      EncodedBit(d, before, raw, p);
    }
    FramesEqual(now, Encoded(d, before, raw));
  }

  class SignalImpl {
    const desc: Desc
    var mask: u64
    var maskSigned: u64
    var fixedStartBit0: u64
    var fixedStartBit1: u64
    var bytePos: u64
    var error: u64
    // Selects the instance of the decoder, as the source's function pointer does.
    var alignment: Alignment

    // What the precomputed fields mean. Every shift amount is below 64, and below 8 for the ninth byte
    // of a big-endian signal.
    ghost predicate Valid()
      reads this
    {
      && desc.Valid()
      && (forall i: nat :: Bit(maskSigned, i) == (desc.bitSize - 1 <= i < 64))
      && alignment == AlignmentOf(desc)
      && bytePos == (if alignment == InFirstWord then FirstByte(desc) else WindowStart(desc))
      && fixedStartBit0 < 64
      && match alignment {
           case InFirstWord =>
             mask == Pow2(desc.bitSize) - 1 && LiesInWord(desc, 0, fixedStartBit0)
           case InWord =>
             mask == Pow2(desc.bitSize) - 1 && LiesInWord(desc, bytePos, fixedStartBit0)
           case NineBytes => NineBytesValid()
         }
    }

    ghost predicate NineBytesValid()
      requires desc.Valid()
      reads this
    {
      if desc.byteOrder == LittleEndian then
        && fixedStartBit1 == 64 - fixedStartBit0 < 64 && fixedStartBit1 < desc.bitSize
        && SplitsLittle(desc, bytePos, fixedStartBit0, desc.bitSize - fixedStartBit1)
        && mask == Pow2(desc.bitSize - fixedStartBit1) - 1
      else
        && SplitsBig(desc, bytePos, fixedStartBit0)
        && fixedStartBit1 == 8 - fixedStartBit0 < 8
        && mask == Pow2(desc.bitSize - fixedStartBit0) - 1
    }

    predicate Error(e: ErrorCode)
      reads this
    {
      Reports(error, e)
    }

    method SetError(e: ErrorCode)
      requires e != NoError
      requires forall i: nat | 4 <= i :: !Bit(error, i)
      modifies this`error
      ensures forall i: nat :: Bit(error, i) == (Bit(old(error), i) || i == Flag(e))
    {
      ghost var before := error;
      error := Or64(error, Code(e));
      CodeIsFlag(e);
      forall i: nat ensures Bit(error, i) == (Bit(before, i) || i == Flag(e)) {
        OrBit(before, Code(e), i);
        OneBit(Flag(e), i);
      }
    }

    constructor (messageSize: u64, d: Desc, floatIsIec559: bool, doubleIsIec559: bool)
      requires d.Valid()
      ensures desc == d && Valid()
      ensures Error(SignalExceedsMessageSize)
              <==> ReachedByte(d) > (if messageSize < 8 then 8 else messageSize) % 0x2000_0000_0000_0000
      ensures messageSize < 0x2000_0000_0000_0000 && CheckableEnd(d) ==>
                (Error(SignalExceedsMessageSize) <==>
                   exists k: nat :: k < d.bitSize && Place(d, k) >= 8 * (if messageSize < 8 then 8 else messageSize))
      ensures Error(WrongBitSizeForExtendedDataType)
              <==> || (d.extendedValueType == Float && d.bitSize != 32)
                   || (d.extendedValueType == Double && d.bitSize != 64)
      ensures Error(MaschinesFloatEncodingNotSupported) <==> d.extendedValueType == Float && !floatIsIec559
      ensures Error(MaschinesDoubleEncodingNotSupported) <==> d.extendedValueType == Double && !doubleIsIec559
      ensures Error(NoError) <==>
              && !Error(SignalExceedsMessageSize) && !Error(WrongBitSizeForExtendedDataType)
              && !Error(MaschinesFloatEncodingNotSupported) && !Error(MaschinesDoubleEncodingNotSupported)
    {
      desc := d;
      error := 0;
      new;
      Check(AtLeastEight(messageSize), floatIsIec559, doubleIsIec559);
      FlagIsRightIff(d, messageSize);
      Precompute();
    }

    // The error checks of the constructor.
    method Check(messageSize: u64, floatIsIec559: bool, doubleIsIec559: bool)
      requires desc.Valid() && error == 0
      modifies this`error
      ensures Error(SignalExceedsMessageSize) <==> ReachedByte(desc) > messageSize % TWO_61
      ensures Error(WrongBitSizeForExtendedDataType) <==> WrongSize(desc)
      ensures Error(MaschinesFloatEncodingNotSupported) <==> desc.extendedValueType == Float && !floatIsIec559
      ensures Error(MaschinesDoubleEncodingNotSupported) <==> desc.extendedValueType == Double && !doubleIsIec559
      ensures Error(NoError) <==>
              && ReachedByte(desc) <= messageSize % TWO_61 && !WrongSize(desc)
              && (desc.extendedValueType == Float ==> floatIsIec559)
              && (desc.extendedValueType == Double ==> doubleIsIec559)
    {
      forall i: nat ensures !Bit(error, i) { NoHighBits(0, 0, i); }
      CheckFrameSize(messageSize);
      CheckTypeSize(floatIsIec559, doubleIsIec559);
      ReportsMeansFlag(error, SignalExceedsMessageSize);
      ReportsMeansFlag(error, WrongBitSizeForExtendedDataType);
      ReportsMeansFlag(error, MaschinesFloatEncodingNotSupported);
      ReportsMeansFlag(error, MaschinesDoubleEncodingNotSupported);
    }

    method CheckFrameSize(messageSize: u64)
      requires desc.Valid()
      requires forall i: nat | 4 <= i :: !Bit(error, i)
      modifies this`error
      ensures forall i: nat ::
                Bit(error, i) == (Bit(old(error), i)
                                  || (i == Flag(SignalExceedsMessageSize) && ReachedByte(desc) > messageSize % TWO_61))
    {
      FrameTooSmallMeaning(desc, messageSize);
      if FrameTooSmall(desc, messageSize) {
        SetError(SignalExceedsMessageSize);
      }
    }

    method CheckTypeSize(floatIsIec559: bool, doubleIsIec559: bool)
      requires forall i: nat | 4 <= i :: !Bit(error, i)
      modifies this`error
      ensures forall i: nat ::
                Bit(error, i) == (Bit(old(error), i)
                                  || (i == Flag(WrongBitSizeForExtendedDataType) && WrongSize(desc))
                                  || (i == Flag(MaschinesFloatEncodingNotSupported)
                                      && desc.extendedValueType == Float && !floatIsIec559)
                                  || (i == Flag(MaschinesDoubleEncodingNotSupported)
                                      && desc.extendedValueType == Double && !doubleIsIec559))
    {
      match desc.extendedValueType {
        case Float =>
          if desc.bitSize != 32 { SetError(WrongBitSizeForExtendedDataType); }
        case Double =>
          if desc.bitSize != 64 { SetError(WrongBitSizeForExtendedDataType); }
        case Integer =>
      }
      if desc.extendedValueType == Float && !floatIsIec559 {
        SetError(MaschinesFloatEncodingNotSupported);
      }
      if desc.extendedValueType == Double && !doubleIsIec559 {
        SetError(MaschinesDoubleEncodingNotSupported);
      }
    }

    method PrecomputeMasks()
      requires desc.Valid()
      modifies this`mask, this`maskSigned
      ensures mask == Pow2(desc.bitSize) - 1
      ensures forall i: nat :: Bit(maskSigned, i) == (desc.bitSize - 1 <= i < 64)
    {
      mask := Sub64(Shl(Shl(1, Sub64(desc.bitSize, 1)), 1), 1);
      maskSigned := Not64(Sub64(Shl(1, Sub64(desc.bitSize, 1)), 1));
      FullMask(desc.bitSize);
      forall i: nat ensures Bit(maskSigned, i) == (desc.bitSize - 1 <= i < 64) { SignMaskBit(desc.bitSize, i); }
    }

    // The masks, shifts and window of the constructor.
    method Precompute()
      requires desc.Valid()
      modifies this`mask, this`maskSigned, this`fixedStartBit0, this`fixedStartBit1, this`bytePos, this`alignment
      ensures Valid()
    {
      PrecomputeMasks();
      bytePos := desc.startBit / 8;
      var nbytes := NBytes(desc);
      ByteCountBounds(desc);
      if Add64(bytePos, nbytes) <= 8 {
        alignment := InFirstWord;
        PrecomputeFirstWord();
      } else if Add64(bytePos % 8, nbytes) <= 8 {
        alignment := InWord;
        bytePos := Sub64(bytePos, bytePos % 8);
        PrecomputeWordShift();
      } else if nbytes <= 8 {
        alignment := InWord;
        PrecomputeWordShift();
      } else {
        alignment := NineBytes;
        PrecomputeNineBytes();
      }
    }

    method PrecomputeFirstWord()
      requires desc.Valid() && EndByte(desc) <= 8
      modifies this`fixedStartBit0
      ensures fixedStartBit0 < 64 && LiesInWord(desc, 0, fixedStartBit0)
    {
      WordShiftLies(desc, 0);
      if desc.byteOrder == LittleEndian {
        fixedStartBit0 := desc.startBit;
      } else {
        fixedStartBit0 := WordShift(desc.startBit, desc.bitSize);
      }
    }

    method PrecomputeNineBytes()
      requires desc.Valid() && ByteCount(desc) == 9 && bytePos == FirstByte(desc)
      modifies this`mask, this`fixedStartBit0, this`fixedStartBit1
      ensures fixedStartBit0 < 64 && NineBytesValid()
    {
      if desc.byteOrder == BigEndian { PrecomputeNineBytesBig(); } else { PrecomputeNineBytesLittle(); }
    }

    method PrecomputeNineBytesBig()
      requires desc.Valid() && ByteCount(desc) == 9 && bytePos == FirstByte(desc) && desc.byteOrder == BigEndian
      modifies this`mask, this`fixedStartBit0, this`fixedStartBit1
      ensures fixedStartBit0 < 64 && NineBytesValid()
    {
      NineBytesBig(desc);
      var nbitsLastByte := Sub64(Add64(Sub64(7, desc.startBit % 8), desc.bitSize), 64);
      fixedStartBit0 := nbitsLastByte;
      fixedStartBit1 := Sub64(8, nbitsLastByte);
      mask := Sub64(Shl(1, Add64(desc.startBit % 8, 57)), 1);
      LowMask(desc.startBit % 8 + 57);
    }

    method PrecomputeNineBytesLittle()
      requires desc.Valid() && ByteCount(desc) == 9 && bytePos == FirstByte(desc) && desc.byteOrder == LittleEndian
      modifies this`mask, this`fixedStartBit0, this`fixedStartBit1
      ensures fixedStartBit0 < 64 && NineBytesValid()
    {
      NineBytesLittle(desc);
      fixedStartBit0 := Sub64(desc.startBit, Mul64(bytePos, 8));
      fixedStartBit1 := Sub64(64, desc.startBit % 8);
      var nbitsLastByte := Sub64(Add64(desc.bitSize, desc.startBit % 8), 64);
      mask := Sub64(Shl(1, nbitsLastByte), 1);
      LowMask(nbitsLastByte);
    }

    // The shift within the word at bytePos, common to the aligned and the unaligned word.
    method PrecomputeWordShift()
      requires desc.Valid() && bytePos <= FirstByte(desc) && EndByte(desc) <= bytePos + 8
      modifies this`fixedStartBit0
      ensures fixedStartBit0 < 64 && LiesInWord(desc, bytePos, fixedStartBit0)
    {
      WordShiftLies(desc, bytePos);
      fixedStartBit0 := Sub64(desc.startBit, Mul64(bytePos, 8));
      if desc.byteOrder == BigEndian {
        fixedStartBit0 := WordShift(fixedStartBit0, desc.bitSize);
      }
    }

    // The fast decoder, through the instance selected by the constructor.
    method Decode(nbytes: array<byte>) returns (data: u64)
      requires Valid() && WindowEnd(desc) <= nbytes.Length
      ensures data == Value(desc, nbytes[..])
    {
      if alignment == NineBytes {
        data := DecodeNineBytes(nbytes);
      } else {
        data := DecodeWord(nbytes);
      }
    }

    method DecodeNineBytes(nbytes: array<byte>) returns (data: u64)
      requires Valid() && alignment == NineBytes && WindowEnd(desc) <= nbytes.Length
      ensures data == Value(desc, nbytes[..])
    {
      WindowCoversSignal(desc);
      AssembleBit(desc, nbytes[..], 0);
      if desc.byteOrder == BigEndian {
        data := ComposeBig(nbytes);
      } else {
        data := ComposeLittle(nbytes);
      }
      if desc.extendedValueType == Float || desc.extendedValueType == Double {
        return data;
      }
      if desc.valueType == Signed {
        data := ExtendSign(data);
      }
    }

    method ComposeBig(nbytes: array<byte>) returns (data: u64)
      requires desc.Valid() && desc.byteOrder == BigEndian && fixedStartBit0 < 64 && NineBytesValid()
      requires bytePos + 9 <= nbytes.Length && EndByte(desc) <= nbytes.Length
      ensures data == Assemble(desc, nbytes[..])
    {
      NineBytesHoldBig(desc, nbytes[..], bytePos, fixedStartBit0);
      data := Load64(nbytes[..], bytePos);
      var data1: u64 := nbytes[bytePos + 8];
      data := Bswap64(data);
      data := And64(data, mask);
      data := Shl(data, fixedStartBit0);
      data1 := Shr64(data1, fixedStartBit1);
      data := Or64(data, data1);
    }

    method ComposeLittle(nbytes: array<byte>) returns (data: u64)
      requires desc.Valid() && desc.byteOrder == LittleEndian && fixedStartBit0 < 64 && NineBytesValid()
      requires bytePos + 9 <= nbytes.Length && EndByte(desc) <= nbytes.Length
      ensures data == Assemble(desc, nbytes[..])
    {
      NineBytesHoldLittle(desc, nbytes[..], bytePos, fixedStartBit0, desc.bitSize - fixedStartBit1);
      data := Load64(nbytes[..], bytePos);
      var data1: u64 := nbytes[bytePos + 8];
      data := Shr64(data, fixedStartBit0);
      data1 := And64(data1, mask);
      data1 := Shl(data1, fixedStartBit1);
      data := Or64(data, data1);
    }

    method ExtendSign(raw: u64) returns (data: u64)
      requires Valid() && raw < Pow2(desc.bitSize)
      ensures data == SignExtend(raw, desc.bitSize)
    {
      data := raw;
      SignExtendedByMask(data, desc.bitSize, maskSigned);
      if And64(data, maskSigned) != 0 {
        data := Or64(data, maskSigned);
      }
    }

    method DecodeWord(nbytes: array<byte>) returns (data: u64)
      requires Valid() && alignment != NineBytes && WindowEnd(desc) <= nbytes.Length
      ensures data == Value(desc, nbytes[..])
    {
      data := LoadWord(nbytes);
      if desc.extendedValueType == Double {
        return data;
      }
      MaskedWordIsSignal(desc, nbytes[..], data, fixedStartBit0);
      data := Shr64(data, fixedStartBit0);
      data := And64(data, mask);
      if desc.extendedValueType == Float {
        return data;
      }
      if desc.valueType == Signed {
        data := ExtendSign(data);
      }
    }

    // The word that holds the signal, in the signal's byte order.
    method LoadWord(nbytes: array<byte>) returns (data: u64)
      requires Valid() && alignment != NineBytes && WindowEnd(desc) <= nbytes.Length
      ensures data == LoadOrdered(desc.byteOrder, nbytes[..], WindowStart(desc))
    {
      if alignment == InFirstWord {
        data := Load64(nbytes[..], 0);
      } else {
        data := Load64(nbytes[..], bytePos);
      }
      if desc.byteOrder == BigEndian {
        data := Bswap64(data);
      }
    }

    // The bit-by-bit encoder, in place.
    method Encode(raw: u64, buffer: array<byte>)
      requires desc.Valid() && Addressable(desc) && EndByte(desc) <= buffer.Length
      modifies buffer
      ensures buffer[..] == Encoded(desc, old(buffer[..]), raw)
    {
      if desc.byteOrder == BigEndian {
        EncodeBig(raw, buffer);
      } else {
        EncodeLittle(raw, buffer);
      }
    }

    method EncodeBig(raw: u64, buffer: array<byte>)
      requires desc.Valid() && desc.byteOrder == BigEndian && Addressable(desc) && EndByte(desc) <= buffer.Length
      modifies buffer
      ensures buffer[..] == Encoded(desc, old(buffer[..]), raw)
    {
      ghost var before := buffer[..];
      var src: u64 := desc.startBit;
      var dst: u64 := Sub64(desc.bitSize, 1);
      MirrorTwice(src);
      for i := 0 to desc.bitSize
        invariant i < desc.bitSize ==> Mirror(src) == Mirror(desc.startBit) + i
        invariant i < desc.bitSize ==> dst == desc.bitSize - 1 - i
        invariant Written(desc, before, buffer[..], raw, desc.bitSize - i, desc.bitSize)
      {
        BigWalkStep(desc, src, i);
        WriteBit(raw, dst, src, buffer, before, dst, desc.bitSize);
        src := NextBig(src);
        dst := Sub64(dst, 1);
      }
      AllWritten(desc, before, buffer[..], raw);
    }

    method EncodeLittle(raw: u64, buffer: array<byte>)
      requires desc.Valid() && desc.byteOrder == LittleEndian && Addressable(desc) && EndByte(desc) <= buffer.Length
      modifies buffer
      ensures buffer[..] == Encoded(desc, old(buffer[..]), raw)
    {
      ghost var before := buffer[..];
      var src: u64 := desc.startBit;
      var dst: u64 := 0;
      for i := 0 to desc.bitSize
        invariant dst == i && (i < desc.bitSize ==> src == desc.startBit + i)
        invariant Written(desc, before, buffer[..], raw, 0, i)
      {
        WriteBit(raw, dst, src, buffer, before, 0, i + 1);
        src := Add64(src, 1);
        dst := Add64(dst, 1);
      }
      AllWritten(desc, before, buffer[..], raw);
    }

    // One round of either loop: raw bit dst goes to frame bit src.
    method WriteBit(raw: u64, dst: u64, src: u64, buffer: array<byte>, ghost before: seq<byte>, ghost lo: nat,
                    ghost hi: nat)
      requires desc.Valid() && EndByte(desc) <= buffer.Length
      requires lo <= dst < hi <= desc.bitSize && src == Place(desc, dst)
      requires WrittenExcept(desc, before, buffer[..], raw, lo, hi, dst)
      modifies buffer
      ensures Written(desc, before, buffer[..], raw, lo, hi)
    {
      SlotOfPlace(desc, dst);
      TestBit(raw, dst);
      ghost var now, b := buffer[..], buffer[src / 8];
      forall i: nat | i < 8
        ensures Bit(SetBit(b, src % 8), i) == (i == src % 8 || Bit(b, i))
        ensures Bit(ClearBit(b, src % 8), i) == (i != src % 8 && Bit(b, i))
      {
        SetBitAt(b, src % 8, i);
        ClearBitAt(b, src % 8, i);
      }
      if And64(raw, Shl(1, dst)) != 0 {
        buffer[src / 8] := SetBit(buffer[src / 8], src % 8);
      } else {
        buffer[src / 8] := ClearBit(buffer[src / 8], src % 8);
      }
      BitWritten(desc, before, now, raw, lo, hi, dst, buffer[src / 8]);
      assert buffer[..] == now[src / 8 := buffer[src / 8]];
    }
  }
}
