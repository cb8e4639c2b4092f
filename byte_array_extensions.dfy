/** Decoding an ILInt from a byte array or a range of it, after validating the range
    (InterlockLedger.Tags.ILInt/Extensions/ByteArrayExtensions.cs). */
module ByteArrayExtensions {
  import opened Bytes
  import opened ILIntHelpers

  /** CheckBuffer as the C# code computes it, on C# `int` arguments: `offset + count` is an
      unchecked 32-bit sum, so a count near int.MaxValue wraps it negative and slips past the
      upper-bound test. This is the check the encoder and the range decoder run. */
  function CheckBufferAsWritten(length: nat, offset: int, count: int): (r: Outcome)
    ensures r == Pass ==> 0 <= offset < length && count >= 1
  {
    if offset < 0 || offset >= length then Fail(OffsetOutOfRange)
    else if count < 1 || Wrap32(offset + count) > length then Fail(CountOutOfRange)
    else Pass
  }

  /** The wrapped sum admits a range that runs far past the end of a ten-byte buffer. */
  lemma CheckBufferAsWrittenAdmitsOverlongRange()
    ensures CheckBufferAsWritten(10, 5, 0x7FFF_FFFF) == Pass
    ensures 5 + 0x7FFF_FFFF > 10
  {
  }

  /** CheckBuffer with the bound computed without overflow: it passes exactly when
      `[offset, offset + count)` is a non-empty range inside a buffer of `length` bytes,
      and reports the offending argument otherwise. */
  function CheckBuffer(length: nat, offset: int, count: int): (r: Outcome)
    ensures r == Pass <==> 0 <= offset && 1 <= count && offset + count <= length
    ensures r == Fail(OffsetOutOfRange) <==> offset < 0 || offset >= length
    ensures r.Fail? ==> r.error == OffsetOutOfRange || r.error == CountOutOfRange
  {
    if offset < 0 || offset >= length then Fail(OffsetOutOfRange)
    else if count < 1 || offset + count > length then Fail(CountOutOfRange)
    else Pass
  }

  /** The corrected check agrees with the written one whenever the 32-bit sum does not wrap. */
  lemma CheckBufferAgreesWithoutWrap(length: nat, offset: i32, count: i32)
    requires offset + count < 0x8000_0000
    ensures CheckBuffer(length, offset, count) == CheckBufferAsWritten(length, offset, count)
  {
  }

  /** The written check is looser than the corrected one, and only through the wrap: it passes
      every range the corrected check passes, fails with the same error wherever it fails, and
      passes a range the corrected check rejects only when `offset + count` exceeds int.MaxValue,
      which the corrected check reports as a count out of range. */
  lemma CheckBufferAsWrittenIsLooser(length: nat, offset: int, count: int)
    ensures CheckBuffer(length, offset, count) == Pass ==> CheckBufferAsWritten(length, offset, count) == Pass
    ensures CheckBufferAsWritten(length, offset, count).Fail? ==>
      CheckBuffer(length, offset, count) == CheckBufferAsWritten(length, offset, count)
    ensures CheckBufferAsWritten(length, offset, count) == Pass && CheckBuffer(length, offset, count) != Pass ==>
      offset + count >= 0x8000_0000 && CheckBuffer(length, offset, count) == Fail(CountOutOfRange)
  {
    if 0 <= offset && 1 <= count {
      Wrap32AtMost(offset + count);
    }
  }

  /** An empty buffer is always rejected. */
  lemma CheckBufferRejectsEmpty(offset: int, count: int)
    ensures CheckBuffer(0, offset, count) == Fail(OffsetOutOfRange)
  {
  }

  /** What ILIntDecode(buffer, index, count) returns for a buffer holding `buffer`: the written
      check, then `new MemoryStream(buffer, index, count)`, which rejects a range past the end of
      the buffer (only reachable through the wrapped sum), then the decoding of the range. */
  function RangeDecoding(buffer: seq<byte>, index: int, count: int): Result<u64>
  {
    match CheckBufferAsWritten(|buffer|, index, count)
    case Fail(e) => Err(e)
    case Pass =>
      if |buffer| - index < count then Err(InvalidRange)
      else
        match Decoding(buffer[index..index + count])
        case Ok(d) => Ok(d.value)
        case Err(e) => Err(e)
  }

  /** Where the corrected check fails, the range decoder fails too: with the same error, or,
      exactly when the written check let a wrapped range through, with MemoryStream's
      invalid-range error. */
  lemma RangeDecodingErrors(buffer: seq<byte>, index: int, count: int)
    ensures RangeDecoding(buffer, index, count) == Err(InvalidRange) <==>
      CheckBufferAsWritten(|buffer|, index, count) == Pass && CheckBuffer(|buffer|, index, count) != Pass
    ensures CheckBufferAsWritten(|buffer|, index, count).Fail? ==>
      RangeDecoding(buffer, index, count) == Err(CheckBuffer(|buffer|, index, count).error)
  {
    CheckBufferAsWrittenIsLooser(|buffer|, index, count);
    if CheckBufferAsWritten(|buffer|, index, count) == Pass && CheckBuffer(|buffer|, index, count) == Pass {
      DecodingLength(buffer[index..index + count]);
    }
  }

  /** The overlong range of the ten-byte buffer reaches MemoryStream, which rejects it. */
  lemma OverlongRangeDecoding(buffer: seq<byte>)
    requires |buffer| == 10
    ensures RangeDecoding(buffer, 5, 0x7FFF_FFFF) == Err(InvalidRange)
  {
    CheckBufferAsWrittenAdmitsOverlongRange();
  }

  /** `count` is an upper bound: the decoder reads only the bytes the first byte announces,
      so the result is the decoding of the range's front, whatever follows it in the range;
      a range shorter than announced fails with TooFewBytes. */
  lemma RangeDecodingReadsOnlyAnnounced(buffer: seq<byte>, index: int, count: int)
    requires CheckBuffer(|buffer|, index, count) == Pass
    ensures var n := 1 + TailLength(buffer[index]);
      (n <= count ==> RangeDecoding(buffer, index, count) == Ok(Decoding(buffer[index..index + n]).value.value))
      && (n > count ==> RangeDecoding(buffer, index, count) == Err(TooFewBytes))
  {
    CheckBufferAsWrittenIsLooser(|buffer|, index, count);
    var n := 1 + TailLength(buffer[index]);
    var range := buffer[index..index + count];
    DecodingLength(range);
    if n <= count {
      assert range == buffer[index..index + n] + buffer[index + n..index + count];
      DecodingLength(buffer[index..index + n]);
      DecodingIgnoresTrailing(buffer[index..index + n], buffer[index + n..index + count]);
    }
  }

  /** The nine-byte arrays at the top of the range: 0x07 as the last byte gives 2^64 - 1, and the
      overflowing tails of the test table decode to the sentinel 0. */
  lemma TopOfRangeArrays()
    ensures RangeDecoding([0xFF, 0xFF, 0xFF, 0xFF, 0xFF, 0xFF, 0xFF, 0xFF, 0x07], 0, 9) == Ok(U64 - 1)
    ensures RangeDecoding([0xFF, 0xFF, 0xFF, 0xFF, 0xFF, 0xFF, 0xFF, 0xFF, 0x08], 0, 9) == Ok(0)
    ensures RangeDecoding([0xFF, 0xFF, 0xFF, 0xFF, 0xFF, 0xFF, 0xFF, 0xFF, 0x80], 0, 9) == Ok(0)
    ensures RangeDecoding([0xFF, 0xFF, 0xFF, 0xFF, 0xFF, 0xFF, 0xFF, 0xFF, 0xFF], 0, 9) == Ok(0)
  {
    TopOfRangeArray([0xFF, 0xFF, 0xFF, 0xFF, 0xFF, 0xFF, 0xFF, 0xFF, 0x07]);
    TopOfRangeArray([0xFF, 0xFF, 0xFF, 0xFF, 0xFF, 0xFF, 0xFF, 0xFF, 0x08]);
    TopOfRangeArray([0xFF, 0xFF, 0xFF, 0xFF, 0xFF, 0xFF, 0xFF, 0xFF, 0x80]);
    TopOfRangeArray([0xFF, 0xFF, 0xFF, 0xFF, 0xFF, 0xFF, 0xFF, 0xFF, 0xFF]);
  }

  lemma TopOfRangeArray(b: seq<byte>)
    requires |b| == 9 && b[0] == 0xFF && forall i :: 1 <= i < 8 ==> b[i] == 0xFF
    ensures RangeDecoding(b, 0, 9) == Ok(if b[8] >= 8 then 0 else U64 - 8 + b[8])
  {
    TopOfRange(b);
    ArrayDecodingIsDecoding(b);
  }

  /** Evaluates the whole-array decoding of a concrete array that holds exactly one
      multi-byte encoding. */
  lemma WholeArrayExample(b: seq<byte>)
    requires |b| > 0 && b[0] >= Base && |b| == 1 + TailLength(b[0])
    ensures var tail := BigEndianRange(b, 1, |b|);
      RangeDecoding(b, 0, |b|) == Ok(if tail > Max then 0 else tail + Base)
  {
    BigEndianRangeIsSlice(b, 1, |b|);
    ArrayDecodingIsDecoding(b);
  }

  /** Short whole arrays from the test table decode to the listed values. */
  lemma ArrayDecodingExamples()
    ensures RangeDecoding([0xF7], 0, 1) == Ok(247)
    ensures RangeDecoding([0xF8, 0x00], 0, 2) == Ok(248)
    ensures RangeDecoding([0xF8, 0x01], 0, 2) == Ok(249)
    ensures RangeDecoding([0xF8, 0xFF], 0, 2) == Ok(503)
    ensures RangeDecoding([0xF9, 0x01, 0x01], 0, 3) == Ok(505)
  {
    assert RangeDecoding([0xF7], 0, 1) == Ok(247) by {
      ArrayDecodingIsDecoding([0xF7]);
    }
    assert RangeDecoding([0xF8, 0x00], 0, 2) == Ok(248) by {
      WholeArrayExample([0xF8, 0x00]);
    }
    assert RangeDecoding([0xF8, 0x01], 0, 2) == Ok(249) by {
      WholeArrayExample([0xF8, 0x01]);
    }
    assert RangeDecoding([0xF8, 0xFF], 0, 2) == Ok(503) by {
      WholeArrayExample([0xF8, 0xFF]);
    }
    assert RangeDecoding([0xF9, 0x01, 0x01], 0, 3) == Ok(505) by {
      WholeArrayExample([0xF9, 0x01, 0x01]);
    }
  }

  /** Arrays shorter than their first byte announces fail with TooFewBytes. */
  lemma TruncatedArraysFail()
    ensures RangeDecoding([0xF8], 0, 1) == Err(TooFewBytes)
    ensures RangeDecoding([0xF9, 0], 0, 2) == Err(TooFewBytes)
    ensures RangeDecoding([0xFA, 0, 0], 0, 3) == Err(TooFewBytes)
    ensures RangeDecoding([0xFB, 0, 0, 0], 0, 4) == Err(TooFewBytes)
    ensures RangeDecoding([0xFC, 0, 0, 0, 0], 0, 5) == Err(TooFewBytes)
    ensures RangeDecoding([0xFD, 0, 0, 0, 0, 0], 0, 6) == Err(TooFewBytes)
    ensures RangeDecoding([0xFE, 0, 0, 0, 0, 0, 0], 0, 7) == Err(TooFewBytes)
    ensures RangeDecoding([0xFF, 0, 0, 0, 0, 0, 0, 0], 0, 8) == Err(TooFewBytes)
  {
  }

  /** ILIntDecode(buffer, index, count): validate the range, then decode from a stream over it. */
  method ILIntDecodeRange(buffer: array<byte>, index: i32, count: i32) returns (r: Result<u64>)
    ensures r == RangeDecoding(buffer[..], index, count)
  {
    var check := CheckBufferAsWritten(buffer.Length, index, count);
    if check.Fail? {
      return Err(check.error);
    }
    // the MemoryStream constructor's own range check
    if buffer.Length - index < count {
      return Err(InvalidRange);
    }
    var stream := new ByteSource(buffer[index..index + count]);
    r := ILIntDecode(stream);
  }

  /** ILIntDecode(buffer): the whole array as the range. */
  method ILIntDecodeArray(buffer: array<byte>) returns (r: Result<u64>)
    requires buffer.Length < 0x8000_0000
    ensures r == RangeDecoding(buffer[..], 0, buffer.Length)
  {
    r := ILIntDecodeRange(buffer, 0, buffer.Length as i32);
  }

  /** Decoding a whole array is decoding its bytes, except that an empty array is an
      out-of-range offset rather than too few bytes. */
  lemma ArrayDecodingIsDecoding(buffer: seq<byte>)
    ensures |buffer| == 0 ==> RangeDecoding(buffer, 0, 0) == Err(OffsetOutOfRange)
    ensures |buffer| > 0 && Decoding(buffer).Ok? ==> RangeDecoding(buffer, 0, |buffer|) == Ok(Decoding(buffer).value.value)
    ensures |buffer| > 0 && Decoding(buffer).Err? ==> RangeDecoding(buffer, 0, |buffer|) == Err(TooFewBytes)
  {
    assert buffer[0..|buffer|] == buffer;
    CheckBufferAsWrittenIsLooser(|buffer|, 0, |buffer|);
    DecodingLength(buffer);
  }
}
