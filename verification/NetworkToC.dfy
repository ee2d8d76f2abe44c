// The C generator: for every signal it emits a straight-line decoder from the precomputed fields. The
// emitted statements are given a meaning here, and compared with the decoder of the library.
module NetworkToC {
  import opened Bits
  import opened SignalLayout
  import opened SignalCodec
  import opened CodecLaws

  //
  // The byte-swap macros of the emitted header
  //

  const BYTE_MASK: u64 := 0xff
  const HALF_MASK: u64 := 0xffff
  const WORD_MASK: u64 := 0xffffffff

  function Cast16(x: u64): u64 { x % 0x1_0000 }

  function Cast32(x: u64): u64 { x % 0x1_0000_0000 }

  function MacroBswap16(v: u64): u64 {
    Or64(Shl(And64(v, BYTE_MASK), 8), Shr64(v, 8))
  }

  function MacroBswap32(v: u64): u64 {
    Or64(Shl(MacroBswap16(Cast16(And64(v, HALF_MASK))), 16), MacroBswap16(Cast16(Shr64(v, 16))))
  }

  function MacroBswap64(v: u64): u64 {
    Or64(Shl(MacroBswap32(Cast32(And64(v, WORD_MASK))), 32), MacroBswap32(Cast32(Shr64(v, 32))))
  }

  lemma JoinBit(low: u64, high: u64, h: nat, i: nat)
    ensures Bit(Or64(Shl(low, h), high), i) == ((h <= i < 64 && Bit(low, i - h)) || Bit(high, i))
  {
    OrBit(Shl(low, h), high, i);
    ShlBit(low, h, i);
  }

  lemma MasksBit(v: u64, i: nat)
    ensures Bit(And64(v, BYTE_MASK), i) == (i < 8 && Bit(v, i))
    ensures Bit(Cast16(And64(v, HALF_MASK)), i) == (i < 16 && Bit(v, i))
    ensures Bit(Cast32(And64(v, WORD_MASK)), i) == (i < 32 && Bit(v, i))
  {
    Pow2Values();
    AndBit(v, BYTE_MASK, i);
    AndBit(v, HALF_MASK, i);
    AndBit(v, WORD_MASK, i);
    LowMaskBit(8, i);
    LowMaskBit(16, i);
    LowMaskBit(32, i);
    CastBit(And64(v, HALF_MASK), i);
    CastBit(And64(v, WORD_MASK), i);
  }

  lemma ByteMaskBit(v: u64, i: nat)
    ensures Bit(And64(v, BYTE_MASK), i) == (i < 8 && Bit(v, i))
  {
    MasksBit(v, i);
  }

  lemma CastBit(x: u64, i: nat)
    ensures Bit(Cast16(x), i) == (i < 16 && Bit(x, i))
    ensures Bit(Cast32(x), i) == (i < 32 && Bit(x, i))
  {
    Pow2Values();
    ModBit(x, 16, i);
    ModBit(x, 32, i);
  }

  lemma HighHalfBit(v: u64, i: nat)
    ensures Bit(Cast16(Shr64(v, 16)), i) == (i < 16 && Bit(v, i + 16))
    ensures Bit(Cast32(Shr64(v, 32)), i) == (i < 32 && Bit(v, i + 32))
  {
    CastBit(Shr64(v, 16), i);
    CastBit(Shr64(v, 32), i);
    ShrBit(v, 16, i);
    ShrBit(v, 32, i);
  }

  // The bit that ends up as bit i when the n bytes of a number are reversed.
  function Reversed(n: nat, i: nat): nat
    requires i < 8 * n
  {
    8 * (n - 1 - i / 8) + i % 8
  }

  lemma ReversedHalves(n: nat, i: nat)
    requires i < 16 * n
    ensures i < 8 * n ==> Reversed(2 * n, i) == Reversed(n, i) + 8 * n
    ensures 8 * n <= i ==> Reversed(2 * n, i) == Reversed(n, i - 8 * n)
    ensures i < 8 * n ==> Reversed(n, i) < 8 * n
    ensures 8 * n <= i ==> Reversed(n, i - 8 * n) < 8 * n
  {
  }

  lemma Pow2Of16(v: u64)
    ensures v < Pow2(16) <==> v < 0x1_0000
  {
    Pow2Values();
  }

  lemma SwapHalvesBit(v: u64, low: u64, i: nat)
    requires v < 0x1_0000 && (i >= 8 ==> Bit(low, i - 8) == (i < 16 && Bit(v, i - 8)))
    ensures Bit(Or64(Shl(low, 8), Shr64(v, 8)), i) == (i < 16 && Bit(v, if i < 8 then i + 8 else i - 8))
  {
    JoinBit(low, Shr64(v, 8), 8, i);
    ShrBit(v, 8, i);
    if i >= 8 {
      Pow2Of16(v);
      NoHighBits(v, 16, i + 8);
    }
  }

  lemma {:induction false} MacroBswap16Bit(v: u64, i: nat)
    requires v < 0x1_0000
    ensures Bit(MacroBswap16(v), i) == (i < 16 && Bit(v, Reversed(2, i)))
  {
    if i >= 8 { ByteMaskBit(v, i - 8); }
    SwapHalvesBit(v, And64(v, BYTE_MASK), i);
  }

  lemma {:induction false} MacroBswap32Bit(v: u64, i: nat)
    ensures Bit(MacroBswap32(v), i) == (i < 32 && Bit(v, Reversed(4, i)))
  {
    var low, high := Cast16(And64(v, HALF_MASK)), Cast16(Shr64(v, 16));
    JoinBit(MacroBswap16(low), MacroBswap16(high), 16, i);
    MacroBswap16Bit(high, i);
    if i < 32 { ReversedHalves(2, i); }
    if i < 16 {
      HighHalfBit(v, Reversed(2, i));
    } else {
      MacroBswap16Bit(low, i - 16);
      if i < 32 { MasksBit(v, Reversed(2, i - 16)); }
    }
  }

  lemma {:induction false} MacroBswap64Bit(v: u64, i: nat)
    requires i < 64
    ensures Bit(MacroBswap64(v), i) == Bit(v, Reversed(8, i))
  {
    var low, high := Cast32(And64(v, WORD_MASK)), Cast32(Shr64(v, 32));
    JoinBit(MacroBswap32(low), MacroBswap32(high), 32, i);
    MacroBswap32Bit(high, i);
    ReversedHalves(4, i);
    if i < 32 {
      HighHalfBit(v, Reversed(4, i));
    } else {
      MacroBswap32Bit(low, i - 32);
      MasksBit(v, Reversed(4, i - 32));
    }
  }

  // The macros reverse the bytes.
  lemma MacroIsByteSwap(v: u64)
    ensures MacroBswap64(v) == Bswap64(v)
  {
    forall i: nat | i < 64 ensures Bit(MacroBswap64(v), i) == Bit(Bswap64(v), i) {
      MacroBswap64Bit(v, i);
      Bswap64Bit(v, i);
    }
    Pow2Values();
    BitsEqual(MacroBswap64(v), Bswap64(v), 64);
  }

  //
  // The emitted statements and their meaning
  //

  datatype Stmt =
    | LoadFirst                    // data = *reinterpret_cast<const uint64_t*>(nbytes);
    | LoadWord(offset: nat)        // data = *reinterpret_cast<const uint64_t*>(&nbytes[offset]);
    | LoadTail(offset: nat)        // uint64_t data1 = nbytes[offset + 8];
    | NativeToBig                  // data = dbcppp_native_to_big(data);
    | NativeToLittle               // data = dbcppp_native_to_little(data);
    | ShiftRight(amount: nat)      // data >>= amount;
    | ShiftLeft(amount: nat)       // data <<= amount;
    | Mask(mask: u64)              // data &= mask;
    | TailMask(mask: u64)          // data1 &= mask;
    | TailShiftLeft(amount: nat)   // data1 <<= amount;
    | TailShiftRight(amount: nat)  // data1 >>= amount;
    | OrTail                       // data |= data1;
    | OrTailStray                  // data |= data1;)
    | ExtendSign(mask: u64)        // if (data & mask) { data |= mask; }
    | Return                       // return data;

  // The text of the function has no unbalanced parenthesis.
  predicate Parses(code: seq<Stmt>) {
    OrTailStray !in code
  }

  datatype State = Running(data: u64, data1: u64) | Returned(value: u64) | Undefined

  function Step(s: Stmt, frame: seq<byte>, st: State): State {
    match st
    case Returned(_) => st
    case Undefined => st
    case Running(data, data1) =>
      match s
      case LoadFirst => if 8 <= |frame| then Running(Load64(frame, 0), data1) else Undefined
      case LoadWord(offset) =>
        if offset + 8 <= |frame| then Running(Load64(frame, offset), data1) else Undefined
      case LoadTail(offset) =>
        if offset + 8 < |frame| then Running(data, frame[offset + 8]) else Undefined
      case NativeToBig => Running(MacroBswap64(data), data1)
      case NativeToLittle => st
      case ShiftRight(n) => if n < 64 then Running(Shr64(data, n), data1) else Undefined
      case ShiftLeft(n) => if n < 64 then Running(Shl(data, n), data1) else Undefined
      case Mask(m) => Running(And64(data, m), data1)
      case TailMask(m) => Running(data, And64(data1, m))
      case TailShiftLeft(n) => if n < 64 then Running(data, Shl(data1, n)) else Undefined
      case TailShiftRight(n) => if n < 64 then Running(data, Shr64(data1, n)) else Undefined
      case OrTail => Running(Or64(data, data1), data1)
      case OrTailStray => Undefined
      case ExtendSign(m) => if And64(data, m) != 0 then Running(Or64(data, m), data1) else st
      case Return => Returned(data)
  }

  function Run(code: seq<Stmt>, frame: seq<byte>): State {
    if code == [] then Running(0, 0) else Step(code[|code| - 1], frame, Run(code[..|code| - 1], frame))
  }

  lemma RunAppend(code: seq<Stmt>, s: Stmt, frame: seq<byte>)
    ensures Run(code + [s], frame) == Step(s, frame, Run(code, frame))
  {
    assert (code + [s])[..|code|] == code;
  }

  //
  // The generator
  //

  predicate FitsOneWord(d: Desc)
    requires d.Valid()
  {
    AlignmentOf(d) != NineBytes
  }

  // The emitted decoder returns what Decode returns on every frame long enough.
  ghost predicate Agrees(d: Desc, code: seq<Stmt>)
    requires d.Valid()
  {
    forall frame: seq<byte> | WindowEnd(d) <= |frame| :: Run(code, frame) == Returned(Value(d, frame))
  }

  // ... or a word whose low bitSize bits are that value.
  ghost predicate AgreesOnLowBits(d: Desc, code: seq<Stmt>)
    requires d.Valid()
  {
    forall frame: seq<byte> | WindowEnd(d) <= |frame| ::
      Run(code, frame).Returned? && Run(code, frame).value % Pow2(d.bitSize) == Value(d, frame)
  }

  // What is emitted for a signal: a faithful decoder, except that the nine-byte little-endian one does not
  // parse, and that a Float read from one word is not masked, which matters unless it ends that word.
  ghost predicate Faithful(d: Desc, code: seq<Stmt>)
    requires d.Valid()
  {
    && (Parses(code) <==> FitsOneWord(d) || d.byteOrder == BigEndian)
    && (Parses(code) && !(FitsOneWord(d) && d.extendedValueType == Float) ==> Agrees(d, code))
    && (FitsOneWord(d) && d.extendedValueType == Float ==>
          AgreesOnLowBits(d, code) && (Agrees(d, code) <==> EndsWord(d)))
  }

  // The signal's highest bit is the highest bit of the loaded word.
  predicate EndsWord(d: Desc)
    requires d.Valid()
  {
    WordPlace(d.byteOrder, WindowStart(d), 63) == Place(d, d.bitSize - 1)
  }

  method EmitDecoder(sig: SignalImpl) returns (code: seq<Stmt>)
    requires sig.Valid()
    ensures Faithful(sig.desc, code)
  {
    var nbytes := NBytes(sig.desc);
    ByteCountBounds(sig.desc);
    if Add64(sig.bytePos, nbytes) <= 8 || nbytes <= 8 {
      code := EmitWord(sig, nbytes);
    } else {
      code := EmitNineBytes(sig);
    }
  }

  method EmitWord(sig: SignalImpl, nbytes: u64) returns (code: seq<Stmt>)
    requires sig.Valid() && FitsOneWord(sig.desc) && nbytes == ByteCount(sig.desc)
    ensures Faithful(sig.desc, code)
  {
    var d := sig.desc;
    code := EmitLoad(sig, nbytes);
    ghost var loaded := code;
    assert LiesInWord(d, WindowStart(d), sig.fixedStartBit0);
    if d.extendedValueType == Double {
      code := code + [Return];
      ReturnsLoaded(d, loaded);
    } else {
      code := code + [ShiftRight(sig.fixedStartBit0)];
      if d.extendedValueType != Float {
        code := code + [Mask(sig.mask)];
        if d.valueType == Signed {
          code := code + [ExtendSign(sig.maskSigned)] + [Return];
        }
        code := code + [Return];
        MaskedInteger(d, loaded, sig.fixedStartBit0, sig.mask, sig.maskSigned, code);
      } else {
        code := code + [Return];
        UnmaskedFloat(d, loaded, sig.fixedStartBit0, code);
      }
    }
  }

  method EmitLoad(sig: SignalImpl, nbytes: u64) returns (code: seq<Stmt>)
    requires sig.Valid() && FitsOneWord(sig.desc) && nbytes == ByteCount(sig.desc)
    ensures Parses(code) && LeavesWord(sig.desc, code)
  {
    var d := sig.desc;
    WindowFromFields(d, sig.bytePos, nbytes);
    var load := if Add64(sig.bytePos, nbytes) <= 8 then LoadFirst else LoadWord(sig.bytePos);
    var swap := if d.byteOrder == BigEndian then NativeToBig else NativeToLittle;
    code := [load] + [swap];
    forall frame: seq<byte> | WindowEnd(d) <= |frame|
      ensures Run(code, frame) == Running(LoadOrdered(d.byteOrder, frame, WindowStart(d)), 0)
    {
      RunLoad(d, frame, load, swap);
    }
  }

  lemma ReturnsLoaded(d: Desc, loaded: seq<Stmt>)
    requires d.Valid() && FitsOneWord(d) && d.extendedValueType == Double && LeavesWord(d, loaded) && Parses(loaded)
    ensures Parses(loaded + [Return]) && Agrees(d, loaded + [Return])
  {
    forall frame: seq<byte> | WindowEnd(d) <= |frame|
      ensures Run(loaded + [Return], frame) == Returned(Value(d, frame))
    {
      RunAppend(loaded, Return, frame);
    }
  }

  // The generator's own choice of the word, made after the constructor may have aligned bytePos, is the
  // decoder's.
  lemma WindowFromFields(d: Desc, bytePos: u64, nbytes: u64)
    requires d.Valid() && FitsOneWord(d) && nbytes == ByteCount(d)
    requires bytePos == if AlignmentOf(d) == InFirstWord then FirstByte(d) else WindowStart(d)
    ensures (if Add64(bytePos, nbytes) <= 8 then 0 else bytePos) == WindowStart(d)
  {
  }

  lemma RunLoad(d: Desc, frame: seq<byte>, load: Stmt, swap: Stmt)
    requires d.Valid() && WindowEnd(d) <= |frame|
    requires load == LoadWord(WindowStart(d)) || (load == LoadFirst && WindowStart(d) == 0)
    requires swap == if d.byteOrder == BigEndian then NativeToBig else NativeToLittle
    ensures Run([load] + [swap], frame) == Running(LoadOrdered(d.byteOrder, frame, WindowStart(d)), 0)
  {
    RunAppend([], load, frame);
    assert [] + [load] == [load];
    RunAppend([load], swap, frame);
    MacroIsByteSwap(Load64(frame, WindowStart(d)));
  }

  // The code so far leaves the loaded word, in order.
  ghost predicate LeavesWord(d: Desc, loaded: seq<Stmt>)
    requires d.Valid()
  {
    forall frame: seq<byte> | WindowEnd(d) <= |frame| ::
      Run(loaded, frame) == Running(LoadOrdered(d.byteOrder, frame, WindowStart(d)), 0)
  }

  lemma MaskedInteger(d: Desc, loaded: seq<Stmt>, shift: u64, mask: u64, signMask: u64, code: seq<Stmt>)
    requires d.Valid() && FitsOneWord(d) && d.extendedValueType == Integer && LeavesWord(d, loaded)
    requires shift < 64 && LiesInWord(d, WindowStart(d), shift) && mask == Pow2(d.bitSize) - 1
    requires forall i: nat :: Bit(signMask, i) == (d.bitSize - 1 <= i < 64)
    requires Parses(loaded)
    requires code == if d.valueType == Signed
                     then loaded + [ShiftRight(shift)] + [Mask(mask)] + [ExtendSign(signMask)] + [Return] + [Return]
                     else loaded + [ShiftRight(shift)] + [Mask(mask)] + [Return]
    ensures Parses(code) && Agrees(d, code)
  {
    var masked := loaded + [ShiftRight(shift)] + [Mask(mask)];
    forall frame: seq<byte> | WindowEnd(d) <= |frame|
      ensures EndByte(d) <= |frame| && Run(masked, frame).Running? && Run(masked, frame).data == Assemble(d, frame)
    {
      WindowCoversSignal(d);
      RunMasked(loaded, shift, mask, frame, LoadOrdered(d.byteOrder, frame, WindowStart(d)));
      WordHoldsSignal(d, frame, WindowStart(d), shift);
    }
    ReturnsComposed(d, masked, signMask, code);
  }

  lemma RunMasked(loaded: seq<Stmt>, shift: u64, mask: u64, frame: seq<byte>, word: u64)
    requires shift < 64 && Run(loaded, frame) == Running(word, 0)
    ensures Run(loaded + [ShiftRight(shift)] + [Mask(mask)], frame) == Running(And64(Shr64(word, shift), mask), 0)
  {
    RunAppend(loaded, ShiftRight(shift), frame);
    RunAppend(loaded + [ShiftRight(shift)], Mask(mask), frame);
  }

  lemma RunShift(loaded: seq<Stmt>, shift: u64, frame: seq<byte>, word: u64)
    requires shift < 64 && Run(loaded, frame) == Running(word, 0)
    ensures Run(loaded + [ShiftRight(shift)], frame) == Running(Shr64(word, shift), 0)
    ensures Run(loaded + [ShiftRight(shift)] + [Return], frame) == Returned(Shr64(word, shift))
  {
    RunAppend(loaded, ShiftRight(shift), frame);
    RunAppend(loaded + [ShiftRight(shift)], Return, frame);
  }

  lemma MaskIsRemainder(x: u64, n: nat)
    requires n <= 64
    ensures And(x, Pow2(n) - 1) == x % Pow2(n)
  {
    AndBound(x, Pow2(n) - 1);
    ResidueBound(x, n);
    forall i: nat | i < n ensures Bit(And(x, Pow2(n) - 1), i) == Bit(x % Pow2(n), i) {
      AndBit(x, Pow2(n) - 1, i);
      LowMaskBit(n, i);
      ModBit(x, n, i);
    }
    BitsEqual(And(x, Pow2(n) - 1), x % Pow2(n), n);
  }

  lemma UnmaskedFloat(d: Desc, loaded: seq<Stmt>, shift: u64, code: seq<Stmt>)
    requires d.Valid() && FitsOneWord(d) && d.extendedValueType == Float && LeavesWord(d, loaded)
    requires shift < 64 && LiesInWord(d, WindowStart(d), shift)
    requires code == loaded + [ShiftRight(shift)] + [Return] && Parses(loaded)
    ensures Parses(code) && AgreesOnLowBits(d, code)
    ensures Agrees(d, code) <==> EndsWord(d)
  {
    forall frame: seq<byte> | WindowEnd(d) <= |frame|
      ensures Run(code, frame).Returned? && Run(code, frame).value % Pow2(d.bitSize) == Value(d, frame)
      ensures shift + d.bitSize == 64 ==> Run(code, frame) == Returned(Value(d, frame))
    {
      RunShift(loaded, shift, frame, LoadOrdered(d.byteOrder, frame, WindowStart(d)));
      FloatOnFrame(d, shift, frame);
    }
    EndsWordIsShift(d, shift);
    if shift + d.bitSize < 64 { HighBitsLeak(d, loaded, shift, code); }
  }

  lemma FloatOnFrame(d: Desc, shift: u64, frame: seq<byte>)
    requires d.Valid() && FitsOneWord(d) && d.extendedValueType == Float && WindowEnd(d) <= |frame|
    requires shift < 64 && LiesInWord(d, WindowStart(d), shift)
    ensures var r := Shr64(LoadOrdered(d.byteOrder, frame, WindowStart(d)), shift);
            r % Pow2(d.bitSize) == Value(d, frame) && (shift + d.bitSize == 64 ==> r == Value(d, frame))
  {
    WindowCoversSignal(d);
    FloatValue(d, frame);
    WordHoldsSignal(d, frame, WindowStart(d), shift);
    LowBitsOfShifted(LoadOrdered(d.byteOrder, frame, WindowStart(d)), shift, d.bitSize);
  }

  lemma FloatValue(d: Desc, frame: seq<byte>)
    requires d.Valid() && d.extendedValueType == Float && WindowEnd(d) <= |frame|
    ensures EndByte(d) <= |frame| && Value(d, frame) == Assemble(d, frame)
  {
    WindowCoversSignal(d);
  }

  lemma LowBitsOfShifted(x: u64, shift: nat, n: nat)
    requires shift < 64 && n <= 64
    ensures Shr64(x, shift) % Pow2(n) == And(Shr(x, shift), Pow2(n) - 1)
    ensures shift + n == 64 ==> And(Shr(x, shift), Pow2(n) - 1) == Shr64(x, shift)
  {
    MaskIsRemainder(Shr64(x, shift), n);
    if shift + n == 64 { TopBitsOnly(x, shift); }
  }

  lemma EndsWordIsShift(d: Desc, shift: u64)
    requires d.Valid() && shift < 64 && LiesInWord(d, WindowStart(d), shift)
    ensures EndsWord(d) <==> shift + d.bitSize == 64
  {
    assert WordPlace(d.byteOrder, WindowStart(d), shift + (d.bitSize - 1)) == Place(d, d.bitSize - 1);
    WordPlaceInjective(d.byteOrder, WindowStart(d), 63, shift + (d.bitSize - 1));
  }

  lemma {:induction false} TopBitsOnly(x: u64, shift: nat)
    requires shift < 64
    ensures And(Shr(x, shift), Pow2(64 - shift) - 1) == Shr(x, shift)
  {
    Pow2Values();
    AndBound(Shr(x, shift), Pow2(64 - shift) - 1);
    ShrBound(x, shift);
    forall i: nat | i < 64 ensures Bit(And(Shr(x, shift), Pow2(64 - shift) - 1), i) == Bit(Shr(x, shift), i) {
      AndBit(Shr(x, shift), Pow2(64 - shift) - 1, i);
      LowMaskBit(64 - shift, i);
      ShrBit(x, shift, i);
      if 64 - shift <= i { NoHighBits(x, 64, i + shift); }
    }
    BitsEqual(And(Shr(x, shift), Pow2(64 - shift) - 1), Shr(x, shift), 64);
  }

  // On a frame of ones the unmasked word has a bit above the signal.
  lemma HighBitsLeak(d: Desc, loaded: seq<Stmt>, shift: u64, code: seq<Stmt>)
    requires d.Valid() && FitsOneWord(d) && d.extendedValueType == Float && LeavesWord(d, loaded)
    requires LiesInWord(d, WindowStart(d), shift) && shift + d.bitSize < 64
    requires code == loaded + [ShiftRight(shift)] + [Return]
    ensures !Agrees(d, code)
  {
    var ones: seq<byte> := seq(WindowEnd(d), i => 255);
    var data := LoadOrdered(d.byteOrder, ones, WindowStart(d));
    RunShift(loaded, shift, ones, data);
    LoadOrderedBit(d.byteOrder, ones, WindowStart(d), 63);
    Pow2Values();
    LowMaskBit(8, WordPlace(d.byteOrder, WindowStart(d), 63) % 8);
    ShrBit(data, shift, 63 - shift);
    WindowCoversSignal(d);
    AssembleBit(d, ones, 63 - shift);
    assert Run(code, ones) != Returned(Value(d, ones));
  }

  method EmitNineBytes(sig: SignalImpl) returns (code: seq<Stmt>)
    requires sig.Valid() && !FitsOneWord(sig.desc)
    ensures Faithful(sig.desc, code)
  {
    var d := sig.desc;
    code := [LoadWord(sig.bytePos)] + [LoadTail(sig.bytePos)];
    if d.byteOrder == BigEndian {
      code := code + [NativeToBig] + [Mask(sig.mask)] + [ShiftLeft(sig.fixedStartBit0)]
              + [TailShiftRight(sig.fixedStartBit1)] + [OrTail];
    } else {
      code := code + [NativeToLittle] + [ShiftRight(sig.fixedStartBit0)] + [TailMask(sig.mask)]
              + [TailShiftLeft(sig.fixedStartBit1)] + [OrTailStray];
    }
    ghost var composed := code;
    if d.extendedValueType == Integer && d.valueType == Signed {
      code := code + [ExtendSign(sig.maskSigned)] + [Return] + [Return];
    } else {
      code := code + [Return];
    }
    if d.byteOrder == BigEndian {
      assert composed == ComposeBigCode(sig.bytePos, sig.mask, sig.fixedStartBit0, sig.fixedStartBit1);
      ComposesBig(d, sig.bytePos, sig.mask, sig.fixedStartBit0, sig.fixedStartBit1, composed);
      ReturnsComposed(d, composed, sig.maskSigned, code);
    } else {
      assert composed[|composed| - 1] == OrTailStray;
      assert code[|composed| - 1] == OrTailStray;
    }
  }

  // Once the signal's bits are in the word, the emitted ending returns the decoded value.
  lemma ReturnsComposed(d: Desc, composed: seq<Stmt>, signMask: u64, code: seq<Stmt>)
    requires d.Valid() && (FitsOneWord(d) ==> d.extendedValueType != Double)
    requires forall frame: seq<byte> | WindowEnd(d) <= |frame| ::
               EndByte(d) <= |frame| && Run(composed, frame).Running? && Run(composed, frame).data == Assemble(d, frame)
    requires forall i: nat :: Bit(signMask, i) == (d.bitSize - 1 <= i < 64)
    requires Parses(composed)
    requires code == if d.extendedValueType == Integer && d.valueType == Signed
                     then composed + [ExtendSign(signMask)] + [Return] + [Return]
                     else composed + [Return]
    ensures Parses(code) && Agrees(d, code)
  {
    forall frame: seq<byte> | WindowEnd(d) <= |frame| ensures Run(code, frame) == Returned(Value(d, frame)) {
      AssembleBit(d, frame, 0);
      if d.extendedValueType == Integer && d.valueType == Signed {
        RunAppend(composed, ExtendSign(signMask), frame);
        RunAppend(composed + [ExtendSign(signMask)], Return, frame);
        RunAppend(composed + [ExtendSign(signMask)] + [Return], Return, frame);
        SignExtendedByMask(Assemble(d, frame), d.bitSize, signMask);
      } else {
        RunAppend(composed, Return, frame);
      }
    }
  }

  function ComposeBigCode(w: u64, mask: u64, s0: u64, s1: u64): seq<Stmt> {
    [LoadWord(w)] + [LoadTail(w)] + [NativeToBig] + [Mask(mask)] + [ShiftLeft(s0)] + [TailShiftRight(s1)] + [OrTail]
  }

  lemma RunLoads(frame: seq<byte>, w: u64)
    requires w + 9 <= |frame|
    ensures Run([LoadWord(w)] + [LoadTail(w)] + [NativeToBig], frame)
            == Running(LoadOrdered(BigEndian, frame, w), frame[w + 8])
  {
    RunAppend([], LoadWord(w), frame);
    assert [] + [LoadWord(w)] == [LoadWord(w)];
    RunAppend([LoadWord(w)], LoadTail(w), frame);
    RunAppend([LoadWord(w)] + [LoadTail(w)], NativeToBig, frame);
    MacroIsByteSwap(Load64(frame, w));
  }

  // The big-endian code over nine bytes leaves the signal's bits.
  lemma ComposesBig(d: Desc, w: u64, mask: u64, s0: u64, s1: u64, code: seq<Stmt>)
    requires d.Valid() && w + 9 == WindowEnd(d) && SplitsBig(d, w, s0) && s0 < 64 && s1 == 8 - s0 < 64
    requires mask == Pow2(d.bitSize - s0) - 1 && code == ComposeBigCode(w, mask, s0, s1)
    ensures forall frame: seq<byte> | WindowEnd(d) <= |frame| ::
              EndByte(d) <= |frame| && Run(code, frame).Running? && Run(code, frame).data == Assemble(d, frame)
  {
    forall frame: seq<byte> | WindowEnd(d) <= |frame|
      ensures EndByte(d) <= |frame| && Run(code, frame).Running? && Run(code, frame).data == Assemble(d, frame)
    {
      WindowCoversSignal(d);
      RunComposeBig(frame, w, mask, s0, s1);
      NineBytesHoldBig(d, frame, w, s0);
    }
  }

  lemma RunTailOps(code: seq<Stmt>, frame: seq<byte>, mask: u64, s0: u64, s1: u64, data: u64, data1: u64)
    requires s0 < 64 && s1 < 64 && Run(code, frame) == Running(data, data1)
    ensures Run(code + [Mask(mask)] + [ShiftLeft(s0)] + [TailShiftRight(s1)] + [OrTail], frame)
            == Running(Or64(Shl(And64(data, mask), s0), Shr64(data1, s1)), Shr64(data1, s1))
  {
    var c4 := code + [Mask(mask)];
    var c5 := c4 + [ShiftLeft(s0)];
    RunAppend(code, Mask(mask), frame);
    RunAppend(c4, ShiftLeft(s0), frame);
    RunAppend(c5, TailShiftRight(s1), frame);
    RunAppend(c5 + [TailShiftRight(s1)], OrTail, frame);
  }

  lemma RunComposeBig(frame: seq<byte>, w: u64, mask: u64, s0: u64, s1: u64)
    requires w + 9 <= |frame| && s0 < 64 && s1 < 64
    ensures var data1 := Shr64(frame[w + 8], s1);
            Run(ComposeBigCode(w, mask, s0, s1), frame)
            == Running(Or64(Shl(And64(LoadOrdered(BigEndian, frame, w), mask), s0), data1), data1)
  {
    RunLoads(frame, w);
    RunTailOps([LoadWord(w)] + [LoadTail(w)] + [NativeToBig], frame, mask, s0, s1,
               LoadOrdered(BigEndian, frame, w), frame[w + 8]);
  }
}
