// The bit-by-bit decoder that the repository's own test compares the fast decoder with.
module ReferenceDecoder {
  import opened Bits
  import opened SignalLayout
  import opened SignalCodec
  import opened CodecLaws

  // Result holds the raw bits lo..hi of the signal and nothing else.
  ghost predicate Gathered(d: Desc, frame: seq<byte>, result: u64, lo: nat, hi: nat)
    requires d.Valid() && EndByte(d) <= |frame|
  {
    forall k: nat :: Bit(result, k) == (lo <= k < hi && Bit(Assemble(d, frame), k))
  }

  method EasyDecode(d: Desc, data: array<byte>) returns (result: u64)
    requires d.Valid() && Addressable(d) && EndByte(d) <= data.Length
    ensures Assemble(d, data[..]) < Pow2(d.bitSize)
    ensures result == Extend(d, Assemble(d, data[..]))
    ensures WindowEnd(d) <= data.Length && BitsAreValue(d) ==> result == Value(d, data[..])
  {
    AssembleBit(d, data[..], 0);
    if WindowEnd(d) <= data.Length && BitsAreValue(d) { ValueIsAssembled(d, data[..]); }
    if d.byteOrder == BigEndian {
      result := GatherBig(d, data);
    } else {
      result := GatherLittle(d, data);
    }
    if d.extendedValueType == Float || d.extendedValueType == Double {
      return result;
    }
    if d.valueType == Signed {
      result := FillSign(result, d.bitSize);
    }
  }

  method GatherBig(d: Desc, data: array<byte>) returns (result: u64)
    requires d.Valid() && Addressable(d) && EndByte(d) <= data.Length && d.byteOrder == BigEndian
    ensures result == Assemble(d, data[..])
  {
    result := 0;
    var srcBit: u64 := d.startBit;
    var dstBit: u64 := Sub64(d.bitSize, 1);
    forall k: nat ensures !Bit(0, k) { NoHighBits(0, 0, k); }
    for i := 0 to d.bitSize
      invariant i < d.bitSize ==> Mirror(srcBit) == Mirror(d.startBit) + i
      invariant i < d.bitSize ==> dstBit == d.bitSize - 1 - i
      invariant Gathered(d, data[..], result, d.bitSize - i, d.bitSize)
    {
      BigWalkStep(d, srcBit, i);
      result := GatherBit(d, data, result, srcBit, dstBit, dstBit, d.bitSize);
      srcBit := NextBig(srcBit);
      dstBit := Sub64(dstBit, 1);
    }
    AllGathered(d, data[..], result);
  }

  method GatherLittle(d: Desc, data: array<byte>) returns (result: u64)
    requires d.Valid() && Addressable(d) && EndByte(d) <= data.Length && d.byteOrder == LittleEndian
    ensures result == Assemble(d, data[..])
  {
    result := 0;
    var srcBit: u64 := d.startBit;
    var dstBit: u64 := 0;
    forall k: nat ensures !Bit(0, k) { NoHighBits(0, 0, k); }
    for i := 0 to d.bitSize
      invariant dstBit == i && (i < d.bitSize ==> srcBit == d.startBit + i)
      invariant Gathered(d, data[..], result, 0, i)
    {
      result := GatherBit(d, data, result, srcBit, dstBit, 0, i + 1);
      srcBit := Add64(srcBit, 1);
      dstBit := Add64(dstBit, 1);
    }
    AllGathered(d, data[..], result);
  }

  // One round of either loop.
  method GatherBit(d: Desc, data: array<byte>, before: u64, srcBit: u64, dstBit: u64, ghost lo: nat, ghost hi: nat)
    returns (result: u64)
    requires d.Valid() && EndByte(d) <= data.Length
    requires lo <= dstBit < hi <= d.bitSize && srcBit == Place(d, dstBit)
    requires if dstBit == lo then Gathered(d, data[..], before, lo + 1, hi)
             else dstBit + 1 == hi && Gathered(d, data[..], before, lo, dstBit)
    ensures Gathered(d, data[..], result, lo, hi)
  {
    SlotOfPlace(d, dstBit);
    AssembleBit(d, data[..], dstBit);
    TestBit(data[srcBit / 8], srcBit % 8);
    result := before;
    if And64(data[srcBit / 8], Shl(1, srcBit % 8)) != 0 {
      result := Or64(result, Shl(1, dstBit));
      forall k: nat ensures Bit(result, k) == (Bit(before, k) || k == dstBit) {
        OrBit(before, Shl(1, dstBit), k);
        OneBit(dstBit, k);
      }
    }
  }

  lemma AllGathered(d: Desc, frame: seq<byte>, result: u64)
    requires d.Valid() && EndByte(d) <= |frame| && Gathered(d, frame, result, 0, d.bitSize)
    ensures result == Assemble(d, frame)
  {
    forall k: nat | k < 64 ensures Bit(result, k) == Bit(Assemble(d, frame), k) {
      AssembleBit(d, frame, k);
    }
    Pow2Values();
    BitsEqual(result, Assemble(d, frame), 64);
  }

  method FillSign(raw: u64, bitSize: u64) returns (result: u64)
    requires 1 <= bitSize <= 64 && raw < Pow2(bitSize)
    ensures result == SignExtend(raw, bitSize)
  {
    result := raw;
    TestBit(raw, bitSize - 1);
    TopBit(raw, bitSize);
    if And64(raw, Shl(1, bitSize - 1)) != 0 {
      for i := bitSize to 64
        invariant forall k: nat :: Bit(result, k) == (Bit(raw, k) || bitSize <= k < i)
      {
        ghost var before := result;
        result := Or64(result, Shl(1, i));
        forall k: nat ensures Bit(result, k) == (Bit(before, k) || k == i) {
          OrBit(before, Shl(1, i), k);
          OneBit(i, k);
        }
      }
      forall k: nat | k < 64 ensures Bit(result, k) == Bit(SignExtend(raw, bitSize), k) {
        SignExtendBit(raw, bitSize, k);
        if bitSize <= k { NoHighBits(raw, bitSize, k); }
      }
      Pow2Values();
      BitsEqual(result, SignExtend(raw, bitSize), 64);
    }
  }
}
