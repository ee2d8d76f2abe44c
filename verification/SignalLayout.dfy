// Where the bits of a signal lie in a frame, independently of how they are read or written.
module SignalLayout {
  import opened Bits

  type byte = x: nat | x < 256

  datatype ByteOrder = BigEndian | LittleEndian
  datatype ValueType = Signed | Unsigned
  datatype ExtendedValueType = Integer | Float | Double

  // The part of a DBC signal that its codec depends on.
  datatype Desc = Desc(startBit: u64, bitSize: u64, byteOrder: ByteOrder,
                       valueType: ValueType, extendedValueType: ExtendedValueType)
  {
    // Sizes the 64-bit shifts of the codec are defined for.
    ghost predicate Valid() {
      1 <= bitSize <= 64
    }
  }

  // Bit p of a frame: bits 0..7 are those of the first byte, least significant first.
  predicate FrameBit(frame: seq<byte>, p: nat)
    requires p < 8 * |frame|
  {
    Bit(frame[p / 8], p % 8)
  }

  //
  // Positions
  //

  // Numbers the bits of each byte from the other end. Big-endian signals are contiguous in this numbering.
  function Mirror(p: nat): nat {
    8 * (p / 8) + 7 - p % 8
  }

  // The frame bit that holds bit k of the raw value.
  function Place(d: Desc, k: nat): nat
    requires k < d.bitSize
  {
    match d.byteOrder
    case LittleEndian => d.startBit + k
    case BigEndian => Mirror(Mirror(d.startBit) + (d.bitSize - 1 - k))
  }

  // The bit of the raw value that frame bit p would hold; it is one when 0 <= Slot(d, p) < bitSize.
  function Slot(d: Desc, p: nat): int {
    match d.byteOrder
    case LittleEndian => p - d.startBit
    case BigEndian => d.bitSize - 1 - (Mirror(p) - Mirror(d.startBit))
  }

  predicate Owns(d: Desc, p: nat) {
    0 <= Slot(d, p) < d.bitSize
  }

  function FirstByte(d: Desc): nat {
    d.startBit / 8
  }

  // One past the last byte of the signal.
  function EndByte(d: Desc): nat
    requires d.bitSize >= 1
  {
    match d.byteOrder
    case LittleEndian => (d.startBit + d.bitSize - 1) / 8 + 1
    case BigEndian => (Mirror(d.startBit) + d.bitSize - 1) / 8 + 1
  }

  function ByteCount(d: Desc): int
    requires d.bitSize >= 1
  {
    EndByte(d) - FirstByte(d)
  }

  lemma MirrorTwice(p: nat)
    ensures Mirror(Mirror(p)) == p && Mirror(p) / 8 == p / 8
  {
  }

  // The big-endian walk goes down within a byte and on to the top of the next one.
  function NextBig(p: u64): (r: u64)
    ensures Mirror(p) + 1 < TWO_64 ==> Mirror(r) == Mirror(p) + 1
  {
    if p % 8 == 0 then Add64(p, 15) else Sub64(p, 1)
  }

  // Place and Slot are inverse to each other, so the walk over a signal visits bitSize distinct bits,
  // all of them in the bytes FirstByte..EndByte, the first and the last of which it reaches.
  lemma SlotOfPlace(d: Desc, k: nat)
    requires d.Valid() && k < d.bitSize
    ensures Slot(d, Place(d, k)) == k
    ensures FirstByte(d) <= Place(d, k) / 8 < EndByte(d)
  {
    MirrorTwice(d.startBit);
    MirrorTwice(Mirror(d.startBit) + (d.bitSize - 1 - k));
  }

  lemma PlaceOfSlot(d: Desc, p: nat)
    requires d.Valid() && Owns(d, p)
    ensures Place(d, Slot(d, p)) == p
  {
    MirrorTwice(p);
  }

  lemma EndBytesReached(d: Desc)
    requires d.Valid()
    ensures Place(d, if d.byteOrder == LittleEndian then 0 else d.bitSize - 1) / 8 == FirstByte(d)
    ensures Place(d, if d.byteOrder == LittleEndian then d.bitSize - 1 else 0) / 8 == EndByte(d) - 1
  {
    MirrorTwice(d.startBit);
    MirrorTwice(Mirror(d.startBit) + (d.bitSize - 1));
  }

  // Every bit of the signal has a position of 64 bits.
  predicate Addressable(d: Desc)
    requires d.bitSize >= 1
  {
    8 * EndByte(d) <= TWO_64
  }

  lemma ByteCountBounds(d: Desc)
    requires d.Valid()
    ensures 1 <= ByteCount(d) <= 9
  {
  }

  //
  // The 64-bit word a decoder loads
  //

  // The frame bit that ends up as bit i of the word loaded at byte w, after the byte-order conversion.
  function WordPlace(order: ByteOrder, w: nat, i: nat): nat
    requires i < 64
  {
    match order
    case LittleEndian => 8 * w + i
    case BigEndian => 8 * (w + 7 - i / 8) + i % 8
  }

  lemma WordPlaceInjective(order: ByteOrder, w: nat, i: nat, j: nat)
    requires i < 64 && j < 64
    ensures WordPlace(order, w, i) == WordPlace(order, w, j) ==> i == j
  {
  }

  // A little-endian load of |bytes| bytes.
  function LoadLE(bytes: seq<byte>): (x: nat)
  {
    if bytes == [] then 0 else bytes[0] + 256 * LoadLE(bytes[1..])
  }

  function Load64(frame: seq<byte>, w: nat): (x: u64)
    requires w + 8 <= |frame|
  {
    LoadLEBound(frame[w..w + 8]);
    Pow2Values();
    LoadLE(frame[w..w + 8])
  }

  function ByteAt(x: nat, i: nat): byte {
    Pow2Values();
    Shr(x, 8 * i) % Pow2(8)
  }

  // Byte reversal, as done by the host's bswap_64.
  function Bswap64(x: u64): u64 {
    var bytes := seq(8, i requires 0 <= i < 8 => ByteAt(x, 7 - i));
    LoadLEBound(bytes);
    Pow2Values();
    LoadLE(bytes)
  }

  lemma {:induction false} LoadLEBound(bytes: seq<byte>)
    ensures LoadLE(bytes) < Pow2(8 * |bytes|)
  {
    if bytes == [] {
    } else {
      LoadLEBound(bytes[1..]);
      Pow2Add(8, 8 * |bytes[1..]|);
      Pow2Values();
    }
  }

  lemma LowByteBit(b: byte, y: nat, i: nat)
    ensures Bit(b + 256 * y, i) == (if i < 8 then Bit(b, i) else Bit(y, i - 8))
  {
    Pow2Values();
    QuotientUnique(b + 256 * y, 256, y, b);
    if i < 8 { ModBit(b + 256 * y, 8, i); } else { ShrBit(b + 256 * y, 8, i - 8); }
  }

  lemma {:induction false} LoadLEBit(bytes: seq<byte>, i: nat)
    ensures Bit(LoadLE(bytes), i) == (i / 8 < |bytes| && Bit(bytes[i / 8], i % 8))
  {
    if bytes == [] {
      NoHighBits(0, 0, i);
    } else {
      LowByteBit(bytes[0], LoadLE(bytes[1..]), i);
      if i >= 8 { LoadLEBit(bytes[1..], i - 8); }
    }
  }

  lemma Bswap64Bit(x: u64, i: nat)
    requires i < 64
    ensures Bit(Bswap64(x), i) == Bit(x, 8 * (7 - i / 8) + i % 8)
  {
    var bytes := seq(8, i requires 0 <= i < 8 => ByteAt(x, 7 - i));
    LoadLEBit(bytes, i);
    var j := 7 - i / 8;
    assert bytes[i / 8] == ByteAt(x, j);
    ModBit(Shr(x, 8 * j), 8, i % 8);
    ShrBit(x, 8 * j, i % 8);
  }

  // The word as a decoder sees it after native_to_little_inplace / native_to_big_inplace on a
  // little-endian host.
  function LoadOrdered(order: ByteOrder, frame: seq<byte>, w: nat): u64
    requires w + 8 <= |frame|
  {
    if order == LittleEndian then Load64(frame, w) else Bswap64(Load64(frame, w))
  }

  lemma LoadOrderedBit(order: ByteOrder, frame: seq<byte>, w: nat, i: nat)
    requires w + 8 <= |frame| && i < 64
    ensures WordPlace(order, w, i) < 8 * |frame|
    ensures Bit(LoadOrdered(order, frame, w), i) == FrameBit(frame, WordPlace(order, w, i))
  {
    if order == LittleEndian {
      Load64Bit(frame, w, i / 8, i % 8);
    } else {
      Bswap64Bit(Load64(frame, w), i);
      Load64Bit(frame, w, 7 - i / 8, i % 8);
    }
  }

  lemma Load64Bit(frame: seq<byte>, w: nat, b: nat, i: nat)
    requires w + 8 <= |frame| && b < 8 && i < 8
    ensures Bit(Load64(frame, w), 8 * b + i) == Bit(frame[w + b], i) == FrameBit(frame, 8 * (w + b) + i)
  {
    LoadLEBit(frame[w..w + 8], 8 * b + i);
    assert (8 * b + i) / 8 == b && (8 * b + i) % 8 == i;
  }

  //
  // The value of a signal, read bit by bit
  //

  lemma PlacesFit(d: Desc, n: nat)
    requires d.Valid() && EndByte(d) <= n
    ensures forall k: nat | k < d.bitSize :: Place(d, k) < 8 * n
  {
    forall k: nat | k < d.bitSize ensures Place(d, k) < 8 * n { SlotOfPlace(d, k); }
  }

  function RawBits(d: Desc, frame: seq<byte>): (bits: seq<bool>)
    requires d.Valid() && EndByte(d) <= |frame|
    ensures |bits| == d.bitSize
  {
    assert forall k: nat | k < d.bitSize :: Place(d, k) < 8 * |frame| by { PlacesFit(d, |frame|); }
    seq(d.bitSize, k requires 0 <= k < d.bitSize => FrameBit(frame, Place(d, k)))
  }

  // The unsigned number a signal's bits spell.
  function Assemble(d: Desc, frame: seq<byte>): (x: u64)
    requires d.Valid() && EndByte(d) <= |frame|
  {
    FromBitsAt(RawBits(d, frame), 0);
    Pow2Mono(d.bitSize, 64);
    Pow2Values();
    FromBits(RawBits(d, frame))
  }

  lemma AssembleBit(d: Desc, frame: seq<byte>, k: nat)
    requires d.Valid() && EndByte(d) <= |frame|
    ensures Assemble(d, frame) < Pow2(d.bitSize)
    ensures k < d.bitSize ==> Place(d, k) < 8 * |frame|
    ensures Bit(Assemble(d, frame), k) == (k < d.bitSize && FrameBit(frame, Place(d, k)))
  {
    PlacesFit(d, |frame|);
    FromBitsAt(RawBits(d, frame), k);
  }

  // The n-bit two's complement number x, as the uint64_t with the same value as an int64_t.
  function SignExtend(x: nat, n: nat): (r: u64)
    requires 1 <= n <= 64 && x < Pow2(n)
  {
    Pow2Mono(n, 64);
    Pow2Values();
    if x >= Pow2(n - 1) then x - Pow2(n) + TWO_64 else x
  }

  // The meaning of a raw value under the signal's types.
  function Extend(d: Desc, x: nat): u64
    requires d.Valid() && x < Pow2(d.bitSize)
  {
    Pow2Mono(d.bitSize, 64);
    Pow2Values();
    if d.extendedValueType == Integer && d.valueType == Signed then SignExtend(x, d.bitSize) else x
  }

  lemma {:induction false} HighMaskBit(x: nat, n: nat, m: nat, i: nat)
    requires n <= m && x < Pow2(n)
    ensures Pow2(n) <= Pow2(m)
    ensures Bit(x + (Pow2(m) - Pow2(n)), i) == (if i < n then Bit(x, i) else i < m)
  {
    Pow2Mono(n, m);
    if n == 0 {
      LowMaskBit(m, i);
    } else {
      HighMaskBit(x / 2, n - 1, m - 1, if i == 0 then 0 else i - 1);
      assert (x + (Pow2(m) - Pow2(n))) / 2 == x / 2 + (Pow2(m - 1) - Pow2(n - 1));
    }
  }

  lemma SignExtendBit(x: nat, n: nat, i: nat)
    requires 1 <= n <= 64 && x < Pow2(n) && i < 64
    ensures Bit(SignExtend(x, n), i) == (if i < n then Bit(x, i) else Bit(x, n - 1))
  {
    TopBit(x, n);
    Pow2Values();
    HighMaskBit(x, n, 64, i);
    if n <= i { NoHighBits(x, n, i); }
  }

  // Reading int64_t out of the result gives the two's complement value of the n bits.
  function Int64(x: u64): int {
    if x >= Pow2(63) then x - TWO_64 else x
  }

  lemma SignExtendMeaning(x: nat, n: nat)
    requires 1 <= n <= 64 && x < Pow2(n)
    ensures Int64(SignExtend(x, n)) == (if Bit(x, n - 1) then x - Pow2(n) else x)
  {
    TopBit(x, n);
    Pow2Mono(n - 1, 63);
    Pow2Values();
  }

  //
  // The bytes a decoder reads
  //

  // InFirstWord: the word at byte 0 holds the signal; InWord: another word does;
  // NineBytes: a word and the byte after it.
  datatype Alignment = InFirstWord | InWord | NineBytes

  function AlignmentOf(d: Desc): Alignment
    requires d.Valid()
  {
    if EndByte(d) <= 8 then InFirstWord else if ByteCount(d) <= 8 then InWord else NineBytes
  }

  function WindowStart(d: Desc): nat
    requires d.Valid()
  {
    if EndByte(d) <= 8 then 0
    else if FirstByte(d) % 8 + ByteCount(d) <= 8 then FirstByte(d) - FirstByte(d) % 8
    else FirstByte(d)
  }

  function WindowEnd(d: Desc): nat
    requires d.Valid()
  {
    WindowStart(d) + if AlignmentOf(d) == NineBytes then 9 else 8
  }

  // The window holds the whole signal and stays within the signal's last byte rounded up to a
  // multiple of eight bytes.
  lemma WindowCoversSignal(d: Desc)
    requires d.Valid()
    ensures WindowStart(d) <= FirstByte(d) && EndByte(d) <= WindowEnd(d)
    ensures WindowEnd(d) <= if AlignmentOf(d) == NineBytes then EndByte(d) else (EndByte(d) + 7) / 8 * 8
  {
    ByteCountBounds(d);
  }

  // Bit i of the word loaded from window byte w is bit i - shift of the signal.
  ghost predicate LiesInWord(d: Desc, w: nat, shift: nat) {
    && shift + d.bitSize <= 64
    && forall k: nat | k < d.bitSize :: WordPlace(d.byteOrder, w, shift + k) == Place(d, k)
  }

  // Little-endian, nine bytes: the low bits end the word, the others start the ninth byte.
  ghost predicate SplitsLittle(d: Desc, w: nat, shift: nat, tail: nat) {
    && d.byteOrder == LittleEndian
    && 1 <= shift <= 7 && 1 <= tail <= 7 && d.bitSize == 64 - shift + tail
    && (forall k: nat | k < 64 - shift :: WordPlace(LittleEndian, w, shift + k) == Place(d, k))
    && (forall k: nat | 64 - shift <= k < d.bitSize :: Place(d, k) == 8 * (w + 8) + (k - (64 - shift)))
  }

  // Big-endian, nine bytes: the high bits end the word, the low ones fill the ninth byte from its top.
  ghost predicate SplitsBig(d: Desc, w: nat, tail: nat) {
    && d.byteOrder == BigEndian
    && 1 <= tail <= 7 && tail < d.bitSize <= 63 + tail
    && (forall k: nat | tail <= k < d.bitSize :: WordPlace(BigEndian, w, k - tail) == Place(d, k))
    && (forall k: nat | k < tail :: Place(d, k) == 8 * (w + 8) + (8 - tail + k))
  }

  lemma LittleLiesInWord(d: Desc, w: nat)
    requires d.Valid() && d.byteOrder == LittleEndian
    requires w <= FirstByte(d) && EndByte(d) <= w + 8
    ensures LiesInWord(d, w, d.startBit - 8 * w)
  {
  }

  // Where a big-endian signal starts in the swapped word at byte w.
  function BigShift(d: Desc, w: nat): int {
    8 * (7 - (FirstByte(d) - w)) + d.startBit % 8 - (d.bitSize - 1)
  }

  lemma BigLiesInWord(d: Desc, w: nat)
    requires d.Valid() && d.byteOrder == BigEndian
    requires w <= FirstByte(d) && EndByte(d) <= w + 8
    ensures BigShift(d, w) >= 0 && LiesInWord(d, w, BigShift(d, w))
  {
    var shift := BigShift(d, w);
    assert Mirror(d.startBit) == 8 * w + 63 - (shift + d.bitSize - 1);
    forall k: nat | k < d.bitSize
      ensures WordPlace(BigEndian, w, shift + k) == Place(d, k)
    {
      MirrorWord(w, shift + k);
    }
  }

  lemma MirrorWord(w: nat, i: nat)
    requires i < 64
    ensures Mirror(8 * w + 63 - i) == WordPlace(BigEndian, w, i)
  {
  }

  lemma NineBytesLittle(d: Desc)
    requires d.Valid() && d.byteOrder == LittleEndian && ByteCount(d) == 9
    ensures SplitsLittle(d, FirstByte(d), d.startBit % 8, d.bitSize + d.startBit % 8 - 64)
  {
  }

  lemma NineBytesBig(d: Desc)
    requires d.Valid() && d.byteOrder == BigEndian && ByteCount(d) == 9
    ensures (7 - d.startBit % 8) + d.bitSize >= 65
    ensures SplitsBig(d, FirstByte(d), (7 - d.startBit % 8) + d.bitSize - 64)
  {
    var w, tail := FirstByte(d), (7 - d.startBit % 8) + d.bitSize - 64;
    assert Mirror(d.startBit) == 8 * w + 63 - (d.bitSize - 1 - tail);
    forall k: nat | k < d.bitSize
      ensures tail <= k ==> WordPlace(BigEndian, w, k - tail) == Place(d, k)
      ensures k < tail ==> Place(d, k) == 8 * (w + 8) + (8 - tail + k)
    {
      if tail <= k { MirrorWord(w, k - tail); }
    }
  }

  // What Decode returns. A Double that fits one word is returned as that word, unmasked.
  function Value(d: Desc, frame: seq<byte>): u64
    requires d.Valid() && WindowEnd(d) <= |frame|
  {
    WindowCoversSignal(d);
    if d.extendedValueType == Double && AlignmentOf(d) != NineBytes
    then LoadOrdered(d.byteOrder, frame, WindowStart(d))
    else AssembleBit(d, frame, 0); Extend(d, Assemble(d, frame))
  }

  //
  // A frame with a signal written into it
  //

  function Encoded(d: Desc, frame: seq<byte>, raw: nat): (out: seq<byte>)
    ensures |out| == |frame|
  {
    seq(|frame|, j requires 0 <= j < |frame| => EncodedByte(d, frame, raw, j))
  }

  function EncodedBits(d: Desc, frame: seq<byte>, raw: nat, j: nat): (bits: seq<bool>)
    requires j < |frame|
    ensures |bits| == 8
  {
    seq(8, i requires 0 <= i < 8 =>
      if Owns(d, 8 * j + i) then Bit(raw, Slot(d, 8 * j + i)) else Bit(frame[j], i))
  }

  function EncodedByte(d: Desc, frame: seq<byte>, raw: nat, j: nat): byte
    requires j < |frame|
  {
    FromBitsAt(EncodedBits(d, frame, raw, j), 0);
    Pow2Values();
    FromBits(EncodedBits(d, frame, raw, j))
  }

  // Encoding changes the signal's own bits to those of the raw value, and no other bit.
  lemma EncodedBit(d: Desc, frame: seq<byte>, raw: nat, p: nat)
    requires p < 8 * |frame|
    ensures FrameBit(Encoded(d, frame, raw), p) == if Owns(d, p) then Bit(raw, Slot(d, p)) else FrameBit(frame, p)
  {
    FromBitsAt(EncodedBits(d, frame, raw, p / 8), p % 8);
  }

  lemma FramesEqual(a: seq<byte>, b: seq<byte>)
    requires |a| == |b|
    requires forall p: nat | p < 8 * |a| :: FrameBit(a, p) == FrameBit(b, p)
    ensures a == b
  {
    forall j | 0 <= j < |a| ensures a[j] == b[j] {
      forall i: nat | i < 8 ensures Bit(a[j], i) == Bit(b[j], i) {
        assert FrameBit(a, 8 * j + i) == FrameBit(b, 8 * j + i);
      }
      Pow2Values();
      BitsEqual(a[j], b[j], 8);
    }
  }
}
