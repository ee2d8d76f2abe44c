// What encoding and decoding promise together, for one signal and for all the signals of a frame.
module CodecLaws {
  import opened Bits
  import opened SignalLayout
  import opened SignalCodec

  //
  // One signal: what is written is read back, what is read can be written back, the last write wins
  //

  lemma AssembleEncoded(d: Desc, frame: seq<byte>, raw: nat)
    requires d.Valid() && EndByte(d) <= |frame|
    ensures Assemble(d, Encoded(d, frame, raw)) == raw % Pow2(d.bitSize)
  {
    var out := Encoded(d, frame, raw);
    forall k: nat | k < d.bitSize ensures Bit(Assemble(d, out), k) == Bit(raw % Pow2(d.bitSize), k) {
      AssembleBit(d, out, k);
      EncodedBit(d, frame, raw, Place(d, k));
      SlotOfPlace(d, k);
      ModBit(raw, d.bitSize, k);
    }
    AssembleBit(d, out, 0);
    BitsEqual(Assemble(d, out), raw % Pow2(d.bitSize), d.bitSize);
  }

  // Every signal but a Double that is not 64 bits long and is read from one word. Sizes that fit the type satisfy
  // this, and so do a Float of any size and a Double over nine bytes.
  predicate BitsAreValue(d: Desc)
    requires d.Valid()
  {
    d.extendedValueType == Double && AlignmentOf(d) != NineBytes ==> d.bitSize == 64
  }

  // The value of such a signal is its bits, extended as its types say.
  lemma ValueIsAssembled(d: Desc, frame: seq<byte>)
    requires d.Valid() && WindowEnd(d) <= |frame| && BitsAreValue(d)
    ensures EndByte(d) <= |frame| && Assemble(d, frame) < Pow2(d.bitSize)
    ensures Value(d, frame) == Extend(d, Assemble(d, frame))
  {
    WindowCoversSignal(d);
    AssembleBit(d, frame, 0);
    if d.extendedValueType == Double && AlignmentOf(d) != NineBytes { WholeWordIsSignal(d, frame); }
  }

  // A 64-bit signal within one word starts at shift 0.
  lemma WholeWord(d: Desc)
    requires d.Valid() && d.bitSize == 64 && AlignmentOf(d) != NineBytes
    ensures LiesInWord(d, WindowStart(d), 0)
  {
    WordShiftLies(d, WindowStart(d));
  }

  lemma WholeWordIsSignal(d: Desc, frame: seq<byte>)
    requires d.Valid() && d.bitSize == 64 && AlignmentOf(d) != NineBytes && WindowEnd(d) <= |frame|
    ensures EndByte(d) <= |frame|
    ensures LoadOrdered(d.byteOrder, frame, WindowStart(d)) == Assemble(d, frame)
  {
    WindowCoversSignal(d);
    WholeWord(d);
    FullWordIsSignal(d, frame, WindowStart(d));
  }

  lemma FullWordIsSignal(d: Desc, frame: seq<byte>, w: nat)
    requires d.Valid() && d.bitSize == 64 && w + 8 <= |frame| && EndByte(d) <= |frame| && LiesInWord(d, w, 0)
    ensures LoadOrdered(d.byteOrder, frame, w) == Assemble(d, frame)
  {
    forall k: nat | k < 64 ensures Bit(LoadOrdered(d.byteOrder, frame, w), k) == Bit(Assemble(d, frame), k) {
      assert WordPlace(d.byteOrder, w, 0 + k) == Place(d, k);
      WordBitOfSignal(d, frame, w, k, k);
    }
    Pow2Values();
    BitsEqual(LoadOrdered(d.byteOrder, frame, w), Assemble(d, frame), 64);
  }

  lemma DecodeAfterEncode(d: Desc, frame: seq<byte>, raw: nat)
    requires d.Valid() && WindowEnd(d) <= |frame| && BitsAreValue(d)
    ensures Value(d, Encoded(d, frame, raw)) == Extend(d, raw % Pow2(d.bitSize))
  {
    WindowCoversSignal(d);
    ValueIsAssembled(d, Encoded(d, frame, raw));
    AssembleEncoded(d, frame, raw);
  }

  // For the remaining signals the round trip fails: on a frame of ones the value has bits above the signal.
  lemma DecodeAfterEncodeIff(d: Desc)
    requires d.Valid()
    ensures (forall frame: seq<byte>, raw: u64 | WindowEnd(d) <= |frame| ::
               Value(d, Encoded(d, frame, raw)) == Extend(d, raw % Pow2(d.bitSize)))
            <==> BitsAreValue(d)
  {
    if BitsAreValue(d) {
      forall frame: seq<byte>, raw: u64 | WindowEnd(d) <= |frame|
        ensures Value(d, Encoded(d, frame, raw)) == Extend(d, raw % Pow2(d.bitSize))
      {
        DecodeAfterEncode(d, frame, raw);
      }
    } else {
      var frame, raw: u64 := Ones(WindowEnd(d)), TWO_64 - 1;
      OnesEncoded(d, WindowEnd(d));
      WholeWordHasTopBit(d);
      NoHighBits(raw % Pow2(d.bitSize), d.bitSize, 63);
      assert Value(d, Encoded(d, frame, raw)) != Extend(d, raw % Pow2(d.bitSize));
    }
  }

  function Ones(n: nat): seq<byte> {
    seq(n, _ => 255)
  }

  lemma OnesBit(n: nat, p: nat)
    requires p < 8 * n
    ensures FrameBit(Ones(n), p)
  {
    Pow2Values();
    LowMaskBit(8, p % 8);
  }

  lemma OnesEncoded(d: Desc, n: nat)
    requires d.Valid()
    ensures Encoded(d, Ones(n), TWO_64 - 1) == Ones(n)
  {
    forall p: nat | p < 8 * n ensures FrameBit(Encoded(d, Ones(n), TWO_64 - 1), p) == FrameBit(Ones(n), p) {
      EncodedBit(d, Ones(n), TWO_64 - 1, p);
      OnesBit(n, p);
      if Owns(d, p) {
        Pow2Values();
        LowMaskBit(64, Slot(d, p));
      }
    }
    FramesEqual(Encoded(d, Ones(n), TWO_64 - 1), Ones(n));
  }

  lemma WholeWordHasTopBit(d: Desc)
    requires d.Valid() && d.extendedValueType == Double && AlignmentOf(d) != NineBytes
    ensures Bit(Value(d, Ones(WindowEnd(d))), 63)
  {
    LoadOrderedBit(d.byteOrder, Ones(WindowEnd(d)), WindowStart(d), 63);
    OnesBit(WindowEnd(d), WordPlace(d.byteOrder, WindowStart(d), 63));
  }

  // An integer that fits the signal is read back as the same int64_t or uint64_t.
  lemma FittingIntegerSurvives(d: Desc, frame: seq<byte>, v: int)
    requires d.Valid() && WindowEnd(d) <= |frame| && d.extendedValueType == Integer
    requires if d.valueType == Signed then 0 - Pow2(d.bitSize - 1) <= v < Pow2(d.bitSize - 1)
             else 0 <= v < Pow2(d.bitSize)
    ensures v + TWO_64 >= 0
    ensures var r := Value(d, Encoded(d, frame, if v < 0 then v + TWO_64 else v));
            (if d.valueType == Signed then Int64(r) else r) == v
  {
    var n := d.bitSize;
    TwosComplement(v, n);
    DecodeAfterEncode(d, frame, if v < 0 then v + TWO_64 else v);
    if d.valueType == Signed {
      var x := if v < 0 then v + Pow2(n) else v;
      SignExtendMeaning(x, n);
      TopBit(x, n);
    }
  }

  lemma TwosComplement(v: int, n: nat)
    requires 1 <= n <= 64 && 0 - Pow2(n - 1) <= v < Pow2(n)
    ensures v + TWO_64 >= 0
    ensures (if v < 0 then v + TWO_64 else v) % Pow2(n) == if v < 0 then v + Pow2(n) else v
  {
    Pow2Values();
    Pow2Mono(n, 64);
    Pow2Mono(n - 1, n);
    if v < 0 {
      var x, y := v + Pow2(n), v + TWO_64;
      ResidueBound(y, n);
      forall i: nat | i < n ensures Bit(y % Pow2(n), i) == Bit(x, i) {
        HighMaskBit(x, n, 64, i);
        ModBit(y, n, i);
      }
      BitsEqual(y % Pow2(n), x, n);
    } else {
      QuotientUnique(v, Pow2(n), 0, v);
    }
  }

  lemma ResidueBound(y: nat, n: nat)
    ensures 0 <= y % Pow2(n) < Pow2(n)
  {
  }

  lemma EncodeUsesLowBits(d: Desc, frame: seq<byte>, a: nat, b: nat)
    requires d.Valid() && EndByte(d) <= |frame|
    ensures Encoded(d, frame, a) == Encoded(d, frame, b) <==> a % Pow2(d.bitSize) == b % Pow2(d.bitSize)
  {
    if a % Pow2(d.bitSize) == b % Pow2(d.bitSize) {
      forall p: nat | p < 8 * |frame|
        ensures FrameBit(Encoded(d, frame, a), p) == FrameBit(Encoded(d, frame, b), p)
      {
        EncodedBit(d, frame, a, p);
        EncodedBit(d, frame, b, p);
        if Owns(d, p) {
          ModBit(a, d.bitSize, Slot(d, p));
          ModBit(b, d.bitSize, Slot(d, p));
        }
      }
      FramesEqual(Encoded(d, frame, a), Encoded(d, frame, b));
    } else {
      AssembleEncoded(d, frame, a);
      AssembleEncoded(d, frame, b);
    }
  }

  // Writing the bits that are there changes nothing.
  lemma EncodingOwnBits(d: Desc, frame: seq<byte>, raw: nat)
    requires d.Valid() && EndByte(d) <= |frame|
    requires forall k: nat | k < d.bitSize :: Bit(raw, k) == Bit(Assemble(d, frame), k)
    ensures Encoded(d, frame, raw) == frame
  {
    forall p: nat | p < 8 * |frame| ensures FrameBit(Encoded(d, frame, raw), p) == FrameBit(frame, p) {
      EncodedBit(d, frame, raw, p);
      if Owns(d, p) {
        PlaceOfSlot(d, p);
        AssembleBit(d, frame, Slot(d, p));
      }
    }
    FramesEqual(Encoded(d, frame, raw), frame);
  }

  lemma EncodeAfterDecode(d: Desc, frame: seq<byte>)
    requires d.Valid() && WindowEnd(d) <= |frame| && BitsAreValue(d)
    ensures Encoded(d, frame, Value(d, frame)) == frame
  {
    ValueIsAssembled(d, frame);
    var x := Assemble(d, frame);
    forall k: nat | k < d.bitSize ensures Bit(Value(d, frame), k) == Bit(x, k) {
      if d.extendedValueType == Integer && d.valueType == Signed { SignExtendBit(x, d.bitSize, k); }
    }
    EncodingOwnBits(d, frame, Value(d, frame));
  }

  // The signal's lowest bit is the lowest bit of the loaded word.
  predicate StartsWord(d: Desc)
    requires d.Valid()
  {
    Place(d, 0) == WordPlace(d.byteOrder, WindowStart(d), 0)
  }

  // Of the remaining signals, those that start their word can still be written back unchanged, and only those.
  lemma EncodeAfterDecodeIff(d: Desc)
    requires d.Valid()
    ensures (forall frame: seq<byte> | WindowEnd(d) <= |frame| :: Encoded(d, frame, Value(d, frame)) == frame)
            <==> BitsAreValue(d) || StartsWord(d)
  {
    if BitsAreValue(d) {
      forall frame: seq<byte> | WindowEnd(d) <= |frame| ensures Encoded(d, frame, Value(d, frame)) == frame {
        EncodeAfterDecode(d, frame);
      }
    } else if StartsWord(d) {
      forall frame: seq<byte> | WindowEnd(d) <= |frame| ensures Encoded(d, frame, Value(d, frame)) == frame {
        WordWrittenBack(d, frame);
      }
    } else {
      LoneBitMoves(d);
    }
  }

  lemma WordWrittenBack(d: Desc, frame: seq<byte>)
    requires d.Valid() && !BitsAreValue(d) && StartsWord(d) && WindowEnd(d) <= |frame|
    ensures Encoded(d, frame, Value(d, frame)) == frame
  {
    var w := WindowStart(d);
    WindowCoversSignal(d);
    WordShiftLies(d, w);
    var shift := if d.byteOrder == LittleEndian then d.startBit - 8 * w else WordShift(d.startBit - 8 * w, d.bitSize);
    assert WordPlace(d.byteOrder, w, shift + 0) == Place(d, 0);
    WordPlaceInjective(d.byteOrder, w, shift, 0);
    forall k: nat | k < d.bitSize ensures Bit(Value(d, frame), k) == Bit(Assemble(d, frame), k) {
      assert WordPlace(d.byteOrder, w, shift + k) == Place(d, k);
      WordBitOfSignal(d, frame, w, k, k);
    }
    EncodingOwnBits(d, frame, Value(d, frame));
  }

  // A frame whose only bit is the lowest one of the word: writing the word back sets the signal's lowest bit.
  lemma LoneBitMoves(d: Desc)
    requires d.Valid() && !BitsAreValue(d) && !StartsWord(d)
    ensures exists frame: seq<byte> | WindowEnd(d) <= |frame| :: Encoded(d, frame, Value(d, frame)) != frame
  {
    var q := WordPlace(d.byteOrder, WindowStart(d), 0);
    var zeros: seq<byte> := seq(WindowEnd(d), _ => 0);
    var frame := zeros[q / 8 := 1];
    WindowCoversSignal(d);
    SlotOfPlace(d, 0);
    LoneBit(zeros, q, q);
    LoneBit(zeros, q, Place(d, 0));
    LowestBitMoves(d, frame);
  }

  lemma LowestBitMoves(d: Desc, frame: seq<byte>)
    requires d.Valid() && !BitsAreValue(d) && WindowEnd(d) <= |frame| && Place(d, 0) < 8 * |frame|
    requires WordPlace(d.byteOrder, WindowStart(d), 0) < 8 * |frame|
    requires FrameBit(frame, WordPlace(d.byteOrder, WindowStart(d), 0)) && !FrameBit(frame, Place(d, 0))
    ensures Encoded(d, frame, Value(d, frame)) != frame
  {
    LoadOrderedBit(d.byteOrder, frame, WindowStart(d), 0);
    SlotOfPlace(d, 0);
    EncodedBit(d, frame, Value(d, frame), Place(d, 0));
  }

  lemma LoneBit(zeros: seq<byte>, q: nat, p: nat)
    requires q < 8 * |zeros| && p < 8 * |zeros| && q % 8 == 0 && forall j | 0 <= j < |zeros| :: zeros[j] == 0
    ensures FrameBit(zeros[q / 8 := 1], p) == (p == q)
  {
    if p / 8 != q / 8 {
      NoHighBits(0, 0, p % 8);
    } else if p != q {
      NoHighBits(1, 1, p % 8);
    }
  }

  lemma LastEncodeWins(d: Desc, frame: seq<byte>, a: nat, b: nat)
    ensures Encoded(d, Encoded(d, frame, a), b) == Encoded(d, frame, b)
  {
    var once, twice := Encoded(d, frame, a), Encoded(d, Encoded(d, frame, a), b);
    forall p: nat | p < 8 * |frame| ensures FrameBit(twice, p) == FrameBit(Encoded(d, frame, b), p) {
      EncodedBit(d, frame, a, p);
      EncodedBit(d, once, b, p);
      EncodedBit(d, frame, b, p);
    }
    FramesEqual(twice, Encoded(d, frame, b));
  }

  //
  // Float and Double signals
  //

  // Their value is the plain bits whatever the value type, when the size fits the type.
  lemma FloatingValueIsPlainBits(d: Desc, frame: seq<byte>)
    requires d.Valid() && WindowEnd(d) <= |frame| && BitsAreValue(d) && d.extendedValueType != Integer
    ensures EndByte(d) <= |frame| && Value(d, frame) == Assemble(d, frame)
    ensures forall t: ValueType ::
              WindowEnd(d.(valueType := t)) <= |frame| && Value(d.(valueType := t), frame) == Assemble(d, frame)
  {
    ValueIsAssembled(d, frame);
    forall t: ValueType
      ensures WindowEnd(d.(valueType := t)) <= |frame| && Value(d.(valueType := t), frame) == Assemble(d, frame)
    {
      SameBits(d, t, frame);
    }
  }

  lemma SameBits(d: Desc, t: ValueType, frame: seq<byte>)
    requires d.Valid() && WindowEnd(d) <= |frame| && BitsAreValue(d) && d.extendedValueType != Integer
    ensures EndByte(d) <= |frame| && WindowEnd(d.(valueType := t)) <= |frame|
    ensures Value(d.(valueType := t), frame) == Assemble(d, frame)
  {
    var e := d.(valueType := t);
    assert EndByte(e) == EndByte(d) && WindowEnd(e) == WindowEnd(d) by { SameWindow(d, t); }
    WindowCoversSignal(d);
    ValueIsAssembled(e, frame);
    SameRawBits(d, t, frame);
  }

  lemma SameWindow(d: Desc, t: ValueType)
    requires d.Valid()
    ensures EndByte(d.(valueType := t)) == EndByte(d) && WindowEnd(d.(valueType := t)) == WindowEnd(d)
  {
  }

  lemma SameRawBits(d: Desc, t: ValueType, frame: seq<byte>)
    requires d.Valid() && EndByte(d) <= |frame|
    ensures EndByte(d.(valueType := t)) <= |frame| && Assemble(d.(valueType := t), frame) == Assemble(d, frame)
  {
    assert RawBits(d.(valueType := t), frame) == RawBits(d, frame);
  }

  // The decoder returns a Double that lies in one word without shift or mask. On every frame that gives the
  // signal's bits exactly when the Double has 64 bits.
  lemma UnmaskedDoubleExact(d: Desc)
    requires d.Valid() && d.extendedValueType == Double
    ensures (forall frame: seq<byte> | EndByte(d) <= WindowEnd(d) <= |frame| :: Value(d, frame) == Assemble(d, frame))
            <==> d.bitSize == 64 || AlignmentOf(d) == NineBytes
  {
    WindowCoversSignal(d);
    if d.bitSize == 64 || AlignmentOf(d) == NineBytes {
      forall frame: seq<byte> | EndByte(d) <= WindowEnd(d) <= |frame| ensures Value(d, frame) == Assemble(d, frame) {
        if d.bitSize == 64 { ValueIsAssembled(d, frame); }
      }
    } else {
      WholeWordHasTopBit(d);
      AssembleBit(d, Ones(WindowEnd(d)), 63);
      assert Value(d, Ones(WindowEnd(d))) != Assemble(d, Ones(WindowEnd(d)));
    }
  }

  //
  // The frame length a decoder needs
  //

  // Signal.h asks for at least eight bytes and at least as many as the signal needs. That covers the
  // decoder's window exactly for these signals; any other one is read through a word that goes on past it.
  lemma DocumentedLengthCoversWindow(d: Desc)
    requires d.Valid()
    ensures WindowEnd(d) <= (if EndByte(d) < 8 then 8 else EndByte(d))
            <==> EndByte(d) <= 8 || EndByte(d) % 8 == 0 || ByteCount(d) >= 8
  {
    ByteCountBounds(d);
  }

  // The ninth byte of a message, say: nine bytes were promised to be enough, sixteen are read.
  lemma DocumentedLengthTooShort()
    ensures var d := Desc(64, 8, LittleEndian, Unsigned, Integer); EndByte(d) == 9 && WindowEnd(d) == 16
  {
  }

  //
  // The code itself
  //

  // A signal is constructed, a raw value is written into a frame, and the frame is read again.
  method WriteThenRead(messageSize: u64, d: Desc, floatIsIec559: bool, doubleIsIec559: bool, raw: u64,
                       buffer: array<byte>)
    returns (v: u64)
    requires d.Valid() && Addressable(d) && BitsAreValue(d) && WindowEnd(d) <= buffer.Length
    modifies buffer
    ensures v == Extend(d, raw % Pow2(d.bitSize))
    ensures buffer[..] == Encoded(d, old(buffer[..]), raw)
  {
    WindowCoversSignal(d);
    DecodeAfterEncode(d, buffer[..], raw);
    var sig := new SignalImpl(messageSize, d, floatIsIec559, doubleIsIec559);
    sig.Encode(raw, buffer);
    v := sig.Decode(buffer);
  }

  //
  // All the signals of a frame
  //

  ghost predicate Disjoint(a: Desc, b: Desc) {
    forall p: nat :: !(Owns(a, p) && Owns(b, p))
  }

  // Two signals can be encoded in either order exactly when they share no bit.
  lemma CommuteIffDisjoint(d: Desc, e: Desc, frame: seq<byte>)
    requires d.Valid() && e.Valid() && EndByte(d) <= |frame| && EndByte(e) <= |frame|
    ensures (forall a: u64, b: u64 ::
               Encoded(e, Encoded(d, frame, a), b) == Encoded(d, Encoded(e, frame, b), a))
            <==> Disjoint(d, e)
  {
    if Disjoint(d, e) {
      forall a: u64, b: u64 ensures Encoded(e, Encoded(d, frame, a), b) == Encoded(d, Encoded(e, frame, b), a) {
        DisjointCommute(d, e, frame, a, b);
      }
    } else {
      var p: nat :| Owns(d, p) && Owns(e, p);
      PlaceOfSlot(d, p);
      SlotOfPlace(d, Slot(d, p));
      var ones: u64 := TWO_64 - 1;
      Pow2Values();
      LowMaskBit(64, Slot(d, p));
      NoHighBits(0, 0, Slot(e, p));
      EncodedBit(e, Encoded(d, frame, ones), 0, p);
      EncodedBit(d, Encoded(e, frame, 0), ones, p);
      assert Encoded(e, Encoded(d, frame, ones), 0) != Encoded(d, Encoded(e, frame, 0), ones);
    }
  }

  lemma DisjointCommute(d: Desc, e: Desc, frame: seq<byte>, a: nat, b: nat)
    requires Disjoint(d, e)
    ensures Encoded(e, Encoded(d, frame, a), b) == Encoded(d, Encoded(e, frame, b), a)
  {
    var x, y := Encoded(e, Encoded(d, frame, a), b), Encoded(d, Encoded(e, frame, b), a);
    forall p: nat | p < 8 * |frame| ensures FrameBit(x, p) == FrameBit(y, p) {
      EncodedBit(d, frame, a, p);
      EncodedBit(e, Encoded(d, frame, a), b, p);
      EncodedBit(e, frame, b, p);
      EncodedBit(d, Encoded(e, frame, b), a, p);
    }
    FramesEqual(x, y);
  }

  type Assignment = (Desc, u64)

  function EncodeAll(frame: seq<byte>, items: seq<Assignment>): (out: seq<byte>)
    ensures |out| == |frame|
    decreases |items|
  {
    if items == [] then frame else EncodeAll(Encoded(items[0].0, frame, items[0].1), items[1..])
  }

  ghost predicate PairwiseDisjoint(items: seq<Assignment>) {
    && (forall i | 0 <= i < |items| :: items[i].0.Valid())
    && (forall i, j | 0 <= i < j < |items| :: Disjoint(items[i].0, items[j].0))
  }

  lemma {:induction false} EncodeAllBit(frame: seq<byte>, items: seq<Assignment>, p: nat)
    requires PairwiseDisjoint(items) && p < 8 * |frame|
    ensures forall i | 0 <= i < |items| && Owns(items[i].0, p) ::
              FrameBit(EncodeAll(frame, items), p) == Bit(items[i].1, Slot(items[i].0, p))
    ensures (forall i | 0 <= i < |items| :: !Owns(items[i].0, p)) ==>
              FrameBit(EncodeAll(frame, items), p) == FrameBit(frame, p)
    decreases |items|
  {
    if items != [] {
      var head, tail := items[0], items[1..];
      EncodedBit(head.0, frame, head.1, p);
      assert forall i | 0 <= i < |tail| :: tail[i] == items[i + 1];
      EncodeAllBit(Encoded(head.0, frame, head.1), tail, p);
      forall i | 0 <= i < |items| && Owns(items[i].0, p)
        ensures FrameBit(EncodeAll(frame, items), p) == Bit(items[i].1, Slot(items[i].0, p))
      {
        if i == 0 {
          forall j | 0 <= j < |tail| ensures !Owns(tail[j].0, p) {
            assert tail[j] == items[j + 1] && Disjoint(items[0].0, items[j + 1].0);
          }
        } else {
          assert tail[i - 1] == items[i];
        }
      }
    }
  }

  // Signals are non-empty, so disjoint ones are distinct, whatever their order.
  lemma PermutedStillDisjoint(xs: seq<Assignment>, ys: seq<Assignment>)
    requires PairwiseDisjoint(xs) && multiset(xs) == multiset(ys)
    ensures PairwiseDisjoint(ys)
    ensures forall y | y in ys :: y in xs
    ensures forall x | x in xs :: x in ys
  {
    forall y | y in ys ensures y in xs { assert y in multiset(ys); }
    forall x | x in xs ensures x in ys { assert x in multiset(xs); }
    forall i | 0 <= i < |ys| ensures ys[i].0.Valid() { assert ys[i] in xs; }
    forall i, j | 0 <= i < j < |ys| ensures Disjoint(ys[i].0, ys[j].0) {
      assert ys[i] in xs && ys[j] in xs;
      DisjointMeansDistinct(xs, ys, i, j);
      var k :| 0 <= k < |xs| && xs[k] == ys[i];
      var l :| 0 <= l < |xs| && xs[l] == ys[j];
      if k > l { assert Disjoint(xs[l].0, xs[k].0); }
    }
  }

  lemma DisjointMeansDistinct(xs: seq<Assignment>, ys: seq<Assignment>, i: nat, j: nat)
    requires PairwiseDisjoint(xs) && multiset(xs) == multiset(ys) && i < j < |ys|
    ensures ys[i] != ys[j]
  {
    if ys[i] == ys[j] {
      RepeatedCount(ys, i, j);
      CountedTwice(xs, ys[i]);
      var k, l :| 0 <= k < l < |xs| && xs[k] == xs[l] == ys[i];
      OverlapsItself(xs[k].0);
    }
  }

  lemma OverlapsItself(d: Desc)
    requires d.Valid()
    ensures !Disjoint(d, d)
  {
    SlotOfPlace(d, 0);
    assert Owns(d, Place(d, 0));
  }

  lemma RepeatedCount(s: seq<Assignment>, i: nat, j: nat)
    requires i < j < |s| && s[i] == s[j]
    ensures multiset(s)[s[i]] >= 2
  {
    assert s == s[..j] + s[j..];
    assert s[i] == s[..j][i] && s[j] == s[j..][0];
    assert s[i] in multiset(s[..j]) && s[j] in multiset(s[j..]);
  }

  lemma {:induction false} CountedTwice(s: seq<Assignment>, v: Assignment)
    requires multiset(s)[v] >= 2
    ensures exists k, l :: 0 <= k < l < |s| && s[k] == s[l] == v
  {
    assert s == [s[0]] + s[1..];
    if s[0] == v {
      assert v in multiset(s[1..]);
      var l :| 0 <= l < |s[1..]| && s[1..][l] == v;
      assert s[0] == s[l + 1] == v;
    } else {
      CountedTwice(s[1..], v);
      var k, l :| 0 <= k < l < |s[1..]| && s[1..][k] == s[1..][l] == v;
      assert s[k + 1] == s[l + 1] == v;
    }
  }

  // Disjoint signals give the same frame in whatever order they are encoded.
  lemma EncodingOrderIsIrrelevant(frame: seq<byte>, xs: seq<Assignment>, ys: seq<Assignment>)
    requires PairwiseDisjoint(xs) && multiset(xs) == multiset(ys)
    ensures EncodeAll(frame, xs) == EncodeAll(frame, ys)
  {
    PermutedStillDisjoint(xs, ys);
    forall p: nat | p < 8 * |frame| ensures FrameBit(EncodeAll(frame, xs), p) == FrameBit(EncodeAll(frame, ys), p) {
      EncodeAllBit(frame, xs, p);
      EncodeAllBit(frame, ys, p);
      if i :| 0 <= i < |xs| && Owns(xs[i].0, p) {
        assert xs[i] in ys;
        var j :| 0 <= j < |ys| && ys[j] == xs[i];
        assert Owns(ys[j].0, p);
      } else {
        forall j | 0 <= j < |ys| ensures !Owns(ys[j].0, p) { assert ys[j] in xs; }
      }
    }
    FramesEqual(EncodeAll(frame, xs), EncodeAll(frame, ys));
  }

  // After encoding disjoint signals into one frame, each decodes to its own value.
  lemma EachSignalReadsItsOwn(frame: seq<byte>, items: seq<Assignment>, i: nat)
    requires PairwiseDisjoint(items) && i < |items|
    requires WindowEnd(items[i].0) <= |frame| && BitsAreValue(items[i].0)
    ensures Value(items[i].0, EncodeAll(frame, items)) == Extend(items[i].0, items[i].1 % Pow2(items[i].0.bitSize))
  {
    var (d, raw) := items[i];
    var out := EncodeAll(frame, items);
    WindowCoversSignal(d);
    ValueIsAssembled(d, out);
    forall k: nat | k < d.bitSize ensures Bit(Assemble(d, out), k) == Bit(raw % Pow2(d.bitSize), k) {
      AssembleBit(d, out, k);
      SlotOfPlace(d, k);
      EncodeAllBit(frame, items, Place(d, k));
      ModBit(raw, d.bitSize, k);
    }
    BitsEqual(Assemble(d, out), raw % Pow2(d.bitSize), d.bitSize);
  }
}
