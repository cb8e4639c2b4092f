/** The older copy of the size, encode and decode helpers
    (InterlockLedger.Tags.ILInt/ILIntHelpers.cs), and its agreement with the newer files. */
module LegacyILIntHelpers {
  import opened Bytes
  import opened ILIntHelpers
  import opened ByteArrayExtensions
  import opened UlongExtensions

  /** ILIntSize written as a chain of `if ... return`: the same size as the newer ternary chain
      for every `ulong`. */
  function LegacySize(value: u64): (size: nat)
    ensures size == ILIntSize(value)
  {
    if value < Base then 1
    else if value <= 0xFF + Base then 2
    else if value <= 0xFFFF + Base then 3
    else if value <= 0xFF_FFFF + Base then 4
    else if value <= 0xFFFF_FFFF + Base then 5
    else if value <= 0xFF_FFFF_FFFF + Base then 6
    else if value <= 0xFFFF_FFFF_FFFF + Base then 7
    else if value <= 0xFF_FFFF_FFFF_FFFF + Base then 8
    else 9
  }

  /** The boundary table of the size tests: each size ends at `Base + 256^(N-1) - 1`. */
  lemma LegacySizeBoundaries()
    ensures LegacySize(0) == 1 && LegacySize(Base - 1) == 1
    ensures LegacySize(Base) == 2 && LegacySize(Base + 0xFF) == 2 && LegacySize(Base + 0xFF + 1) == 3
    ensures LegacySize(Base + 0xFFFF) == 3 && LegacySize(Base + 0xFFFF + 1) == 4
    ensures LegacySize(Base + 0xFF_FFFF) == 4 && LegacySize(Base + 0xFF_FFFF + 1) == 5
    ensures LegacySize(Base + 0xFFFF_FFFF) == 5 && LegacySize(Base + 0xFFFF_FFFF + 1) == 6
    ensures LegacySize(Base + 0xFF_FFFF_FFFF) == 6 && LegacySize(Base + 0xFF_FFFF_FFFF + 1) == 7
    ensures LegacySize(Base + 0xFFFF_FFFF_FFFF) == 7 && LegacySize(Base + 0xFFFF_FFFF_FFFF + 1) == 8
    ensures LegacySize(Base + 0xFF_FFFF_FFFF_FFFF) == 8 && LegacySize(Base + 0xFF_FFFF_FFFF_FFFF + 1) == 9
  {
  }

  /** ILIntEncode(value, writeByte): ArgumentNullException when there is no `writeByte`,
      otherwise the bytes handed to it, which are the newer encoder's. `hasWriteByte` stands
      for `writeByte != null`. */
  method ILIntEncodeAction(value: u64, hasWriteByte: bool) returns (r: Result<seq<byte>>)
    ensures !hasWriteByte ==> r == Err(ArgumentNull)
    ensures hasWriteByte ==> r == Ok(Encoding(value))
  {
    if !hasWriteByte {
      return Err(ArgumentNull);
    }
    var size := LegacySize(value);
    if size == 1 {
      r := Ok([value % 0x100]);
    } else {
      // the same shift loop as the newer encoder
      var tail := WriteTail(value - Base, size - 1);
      r := Ok([Base + (size - 2)] + tail);
    }
  }

  /** ILIntEncode(value, buffer, offset, count) without the CheckBuffer pre-check: the write
      callback alone decides, so a range outside the buffer surfaces as an index error after
      the bytes that fit were stored. */
  method ILIntEncodeBuffer(value: u64, buffer: array<byte>, offset: i32, count: i32) returns (r: Outcome)
    modifies buffer
    ensures r == WriteOutcome(|Encoding(value)|, buffer.Length, offset, count)
    ensures var e := Encoding(value);
      var w := Stored(|e|, buffer.Length, offset, count);
      forall i :: 0 <= i < buffer.Length ==>
        buffer[i] == if offset <= i < offset + w then e[i - offset] else old(buffer[i])
  {
    var e := ILIntEncodeAction(value, true);
    EncodingShape(value);
    r := WriteBytes(e.value, buffer, offset, count);
  }

  /** What the missing pre-check changes. Where the written check passes, the older buffer
      encoder ends as the newer one, and inside a range the corrected check accepts that is a
      normal return or TooFewBytes. Where the newer encoder reports an argument error, the older
      one fails in the write callback instead:
      - a count in `int.MinValue + 1 .. 0` is TooFewBytes before anything is stored;
      - an offset outside the buffer, with a count the callback lets through (positive, or
        int.MinValue, which `--count` wraps to int.MaxValue), is IndexOutOfRange at the first byte. */
  lemma BufferEncodersAgree(value: u64, length: nat, offset: i32, count: i32)
    ensures CheckBuffer(length, offset, count) == Pass ==>
      CheckBufferAsWritten(length, offset, count) == Pass
      && WriteOutcome(|Encoding(value)|, length, offset, count)
         == if count >= |Encoding(value)| then Pass else Fail(TooFewBytes)
    ensures MinInt32 < count <= 0 ==>
      CheckBufferAsWritten(length, offset, count).Fail?
      && WriteOutcome(|Encoding(value)|, length, offset, count) == Fail(TooFewBytes)
      && Stored(|Encoding(value)|, length, offset, count) == 0
    ensures (offset < 0 || offset >= length) && (count >= 1 || count == MinInt32) ==>
      CheckBufferAsWritten(length, offset, count) == Fail(OffsetOutOfRange)
      && WriteOutcome(|Encoding(value)|, length, offset, count) == Fail(IndexOutOfRange)
      && Stored(|Encoding(value)|, length, offset, count) == 0
  {
    EncodingShape(value);
    if CheckBuffer(length, offset, count) == Pass {
      StoredInCheckedRange(|Encoding(value)|, length, offset, count);
    }
  }

  /** ILIntEncode(value): a fresh array of LegacySize bytes holding the encoding. */
  method ILIntEncode(value: u64) returns (bytes: array<byte>)
    ensures fresh(bytes) && bytes[..] == Encoding(value)
  {
    var size := LegacySize(value);
    EncodingShape(value);
    bytes := new byte[size];
    var r := ILIntEncodeBuffer(value, bytes, 0, size);
    assert r == Pass;
    assert bytes[..] == Encoding(value);
  }

  /** AsILInt: an alias of ILIntEncode(value). */
  method AsILInt(value: u64) returns (bytes: array<byte>)
    ensures fresh(bytes) && bytes[..] == Encoding(value)
  {
    bytes := ILIntEncode(value);
  }

  /** ILIntDecode(Func<byte> readByte): the same steps as the newer decoder, with the same result. */
  method ILIntDecode(readByte: ByteSource) returns (r: Result<u64>)
    requires readByte.Valid()
    modifies readByte
    ensures readByte.Valid() && readByte.bytes == old(readByte.bytes)
    ensures match Decoding(old(readByte.Remaining()))
      case Ok(d) => r == Ok(d.value) && readByte.position == old(readByte.position) + d.consumed
      case Err(e) => r == Err(e) && readByte.position == |readByte.bytes|
  {
    ghost var input := readByte.Remaining();
    var first := readByte.ReadByte();
    if first.Err? {
      return Err(first.error);
    }
    var nextByte := first.value;
    if nextByte < Base {
      return Ok(nextByte);
    }
    var size := nextByte - Base + 1;
    assert readByte.Remaining() == input[1..];
    // the same tail loop as the newer decoder
    var tail := ReadTail(readByte, size);
    if tail.Err? {
      return Err(tail.error);
    }
    var value := tail.value;
    assert input[1..][..size] == input[1..1 + size];
    r := Ok(if value > Max then 0 else value + Base);
  }

  /** What ILIntDecode(buffer, index, count) returns: `new MemoryStream(buffer, index, count)`
      rejects a negative index, then a negative count, then a range past the end of the buffer;
      otherwise the decoder reads from the range, with no further check. */
  function LegacyRangeDecoding(buffer: seq<byte>, index: int, count: int): (r: Result<u64>)
    ensures index < 0 <==> r == Err(OffsetOutOfRange)
    ensures 0 <= index && count < 0 ==> r == Err(CountOutOfRange)
    ensures 0 <= index && 0 <= count ==> (r == Err(InvalidRange) <==> index + count > |buffer|)
  {
    if index < 0 then Err(OffsetOutOfRange)
    else if count < 0 then Err(CountOutOfRange)
    else if |buffer| - index < count then Err(InvalidRange)
    else
      match Decoding(buffer[index..index + count])
      case Ok(d) => Ok(d.value)
      case Err(e) => Err(e)
  }

  /** ILIntDecode(buffer, index, count) through a stream over the range. */
  method ILIntDecodeRange(buffer: array<byte>, index: i32, count: i32) returns (r: Result<u64>)
    ensures r == LegacyRangeDecoding(buffer[..], index, count)
  {
    if index < 0 {
      return Err(OffsetOutOfRange);
    }
    if count < 0 {
      return Err(CountOutOfRange);
    }
    if buffer.Length - index < count {
      return Err(InvalidRange);
    }
    var stream := new ByteSource(buffer[index..index + count]);
    r := ILIntDecode(stream);
  }

  /** ILIntDecode(buffer): the whole array as the range. */
  method ILIntDecodeArray(buffer: array<byte>) returns (r: Result<u64>)
    requires buffer.Length < 0x8000_0000
    ensures r == LegacyRangeDecoding(buffer[..], 0, buffer.Length)
  {
    r := ILIntDecodeRange(buffer, 0, buffer.Length as i32);
  }

  /** The older range decoder differs from the newer one only where the newer written check
      fails: on every range it passes (every range the corrected check passes among them) they
      return the same result, and on a whole array they differ only for the empty array, which
      the older decoder reports as too few bytes and the newer one as an offset out of range. */
  lemma RangeDecodersAgree(buffer: seq<byte>, index: int, count: int)
    ensures CheckBufferAsWritten(|buffer|, index, count) == Pass ==>
      LegacyRangeDecoding(buffer, index, count) == RangeDecoding(buffer, index, count)
    ensures CheckBuffer(|buffer|, index, count) == Pass ==>
      LegacyRangeDecoding(buffer, index, count) == RangeDecoding(buffer, index, count)
    ensures |buffer| > 0 ==> LegacyRangeDecoding(buffer, 0, |buffer|) == RangeDecoding(buffer, 0, |buffer|)
    ensures LegacyRangeDecoding([], 0, 0) == Err(TooFewBytes) && RangeDecoding([], 0, 0) == Err(OffsetOutOfRange)
  {
    CheckBufferAsWrittenIsLooser(|buffer|, index, count);
    CheckBufferAsWrittenIsLooser(|buffer|, 0, |buffer|);
  }

  /** Arrays shorter than their first byte announces fail with TooFewBytes. */
  lemma TruncatedArraysFail()
    ensures LegacyRangeDecoding([0xF8], 0, 1) == Err(TooFewBytes)
    ensures LegacyRangeDecoding([0xF9, 0], 0, 2) == Err(TooFewBytes)
    ensures LegacyRangeDecoding([0xFA, 0, 0], 0, 3) == Err(TooFewBytes)
    ensures LegacyRangeDecoding([0xFB, 0, 0, 0], 0, 4) == Err(TooFewBytes)
    ensures LegacyRangeDecoding([0xFC, 0, 0, 0, 0], 0, 5) == Err(TooFewBytes)
    ensures LegacyRangeDecoding([0xFD, 0, 0, 0, 0, 0], 0, 6) == Err(TooFewBytes)
    ensures LegacyRangeDecoding([0xFE, 0, 0, 0, 0, 0, 0], 0, 7) == Err(TooFewBytes)
    ensures LegacyRangeDecoding([0xFF, 0, 0, 0, 0, 0, 0, 0], 0, 8) == Err(TooFewBytes)
  {
  }

  /** `value.AsILInt().ILIntDecode() == value` for every `ulong`, with the older helpers. */
  lemma AsILIntDecodes(value: u64)
    ensures LegacyRangeDecoding(Encoding(value), 0, |Encoding(value)|) == Ok(value)
  {
    UlongExtensions.AsILIntDecodes(value);
    EncodingShape(value);
    RangeDecodersAgree(Encoding(value), 0, |Encoding(value)|);
  }
}
