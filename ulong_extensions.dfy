/** Measuring and encoding a `ulong` as an ILInt
    (InterlockLedger.Tags.ILInt/Extensions/UlongExtensions.cs). */
module UlongExtensions {
  import opened Bytes
  import opened ILIntHelpers
  import opened ByteArrayExtensions

  /** ILIntSize: the number of bytes of the encoding, by comparing against the largest value
      each length can hold. */
  function ILIntSize(value: u64): (size: nat)
    ensures 1 <= size <= 9
    ensures size == 1 <==> value < Base
  {
    if value < Base then 1
    else if value <= 0xFF + Base then 2
    else if value <= 0xFFFF + Base then 3
    else if value <= 0xFF_FFFF + Base then 4
    else if value <= 0xFFFF_FFFF + Base then 5
    else if value <= 0xFF_FFFF_FFFF + Base then 6
    else if value <= 0xFFFF_FFFF_FFFF + Base then 7
    else if value <= 0xFF_FFFF_FFFF_FFFF + Base then 8
    else 9
  }

  /** For a value of at least Base, the size is the least N >= 2 whose N-1 tail bytes can hold
      `value - Base`: they can, and N-2 bytes could not. */
  lemma ILIntSizeIsLeast(value: u64)
    requires value >= Base
    ensures var size := ILIntSize(value);
      value - Base < Pow256(size - 1) && (size > 2 ==> value - Base >= Pow256(size - 2))
  {
    assert Pow256(1) == 0x100;
    assert Pow256(2) == 0x1_0000;
    assert Pow256(3) == 0x100_0000;
    assert Pow256(4) == 0x1_0000_0000;
    assert Pow256(5) == 0x100_0000_0000;
    assert Pow256(6) == 0x1_0000_0000_0000;
    assert Pow256(7) == 0x100_0000_0000_0000;
    assert Pow256(8) == 0x1_0000_0000_0000_0000;
  }

  /** The bytes the encoder produces: the value itself below Base, otherwise the header
      `Base + (size - 2)` followed by `value - Base` in `size - 1` big-endian bytes. */
  function Encoding(value: u64): seq<byte>
  {
    var size := ILIntSize(value);
    if size == 1 then [value]
    else [Base + (size - 2)] + BigEndianBytes(value - Base, size - 1)
  }

  /** The encoding is exactly ILIntSize bytes long; a value below Base is its own single byte;
      otherwise the first byte is at least 0xF8 and tells the length, and the remaining bytes
      read big-endian give back `value - Base`. */
  lemma EncodingShape(value: u64)
    ensures |Encoding(value)| == ILIntSize(value)
    ensures value < Base ==> Encoding(value) == [value]
    ensures value >= Base ==>
      Encoding(value)[0] == Base + ILIntSize(value) - 2 >= 0xF8
      && BigEndian(Encoding(value)[1..]) == value - Base
  {
    var size := ILIntSize(value);
    if value >= Base {
      ILIntSizeIsLeast(value);
      var tail := BigEndianBytes(value - Base, size - 1);
      assert Encoding(value) == [Base + (size - 2)] + tail;
      assert Encoding(value)[1..] == tail;
      BigEndianBytesRoundTrip(value - Base, size - 1);
    }
  }

  /** Decoding an encoding, whatever bytes follow it, gives back the value and consumes
      exactly the encoding; no encoding overflows. */
  lemma EncodingRoundTrip(value: u64, rest: seq<byte>)
    ensures Decoding(Encoding(value) + rest) == Ok(Decoded(value, ILIntSize(value)))
    ensures !Overflows(Encoding(value) + rest)
  {
    var e := Encoding(value);
    EncodingShape(value);
    if value >= Base {
      assert (e + rest)[1..|e|] == e[1..];
    }
  }

  /** Every non-overflowing complete decoding of `value` is at least ILIntSize bytes long,
      and the only one of exactly that length is the encoder's: the encoding is minimal and
      canonical. */
  lemma EncodingIsCanonical(bytes: seq<byte>, value: u64)
    requires Decoding(bytes) == Ok(Decoded(value, |bytes|)) && !Overflows(bytes)
    ensures |bytes| >= ILIntSize(value)
    ensures |bytes| == ILIntSize(value) ==> bytes == Encoding(value)
  {
    if bytes[0] >= Base {
      var n := |bytes| - 1;
      var tail := bytes[1..];
      assert bytes[1..1 + TailLength(bytes[0])] == tail;
      assert value == BigEndian(tail) + Base;
      var size := ILIntSize(value);
      ILIntSizeIsLeast(value);
      BigEndianBound(tail);
      if n < size - 1 {
        Pow256Monotone(n, size - 2);
      }
      if |bytes| == size {
        BigEndianBytesOfBigEndian(tail);
        assert bytes == [bytes[0]] + tail;
      }
    }
  }

  /** The fixed encodings of the test table. */
  lemma EncodingExamples()
    ensures Encoding(0) == [0x00]
    ensures Encoding(247) == [0xF7]
    ensures Encoding(248) == [0xF8, 0x00]
    ensures Encoding(503) == [0xF8, 0xFF]
    ensures Encoding(505) == [0xF9, 0x01, 0x01]
    ensures Encoding(U64 - 1) == [0xFF, 0xFF, 0xFF, 0xFF, 0xFF, 0xFF, 0xFF, 0xFF, 0x07]
  {
    TailExample([0x01, 0x01]);
    TailExample([0xFF, 0xFF, 0xFF, 0xFF, 0xFF, 0xFF, 0xFF, 0x07]);
  }

  /** Writing back the value of a concrete tail gives that tail. */
  lemma TailExample(tail: seq<byte>)
    ensures BigEndianBytes(BigEndianRange(tail, 0, |tail|), |tail|) == tail
  {
    BigEndianRangeIsSlice(tail, 0, |tail|);
    assert tail[0..|tail|] == tail;
    BigEndianBytesOfBigEndian(tail);
  }

  /** ILIntEncode(value, writeByte): the bytes handed to `writeByte`, in order. The tail is
      produced by shifting `value - Base` right by `(size-2)*8, ..., 8, 0` bits and masking. */
  method ILIntEncodeAction(value: u64) returns (written: seq<byte>)
    ensures written == Encoding(value)
  {
    var size := ILIntSize(value);
    if size == 1 {
      written := [value % 0x100];
    } else {
      var tail := WriteTail(value - Base, size - 1);
      written := [Base + (size - 2)] + tail;
    }
  }

  /** The tail loop of ILIntEncode: `n` bytes `(v >> i) & 0xFF` for `i = (n-1)*8, ..., 8, 0`. */
  method WriteTail(v: nat, n: nat) returns (written: seq<byte>)
    requires n >= 1
    ensures written == BigEndianBytes(v, n)
  {
    written := [];
    var i: int := (n - 1) * 8;
    ghost var k := 0;
    while i >= 0
      invariant 0 <= k <= n && i == 8 * (n - 1 - k)
      invariant written == BigEndianBytes(v, n)[..k]
    {
      TailByte(v, n, k);
      written := written + [v / Pow2(i) % 0x100];
      i := i - 8;
      k := k + 1;
    }
  }

  /** The next tail byte is the value shifted right by eight bits per byte still to follow. */
  lemma TailByte(v: nat, n: nat, k: nat)
    requires k < n
    ensures BigEndianBytes(v, n)[..k + 1] == BigEndianBytes(v, n)[..k] + [v / Pow2(8 * (n - 1 - k)) % 0x100]
  {
    Pow2Bytes(n - 1 - k);
    BigEndianBytesAt(v, n, k);
  }

  /** How many more bytes `--count < 0` lets through, starting from `count`: none for a
      negative count, except that decrementing int.MinValue wraps to int.MaxValue. */
  function CountRoom(count: i32): nat
  {
    if count == MinInt32 then 0x8000_0000 else if count < 0 then 0 else count
  }

  /** How many bytes `buffer[offset++]` can store before leaving the buffer. */
  function IndexRoom(length: nat, offset: int): nat
  {
    if offset < 0 || offset >= length then 0 else length - offset
  }

  function Min(a: nat, b: nat): nat
  {
    if a <= b then a else b
  }

  /** The number of bytes the write callback stores before it stops. */
  function Stored(n: nat, length: nat, offset: int, count: i32): nat
  {
    Min(n, Min(CountRoom(count), IndexRoom(length, offset)))
  }

  /** How the write callback ends after `n` bytes: normally when all are stored, otherwise
      with the exception of the first check that failed (the count is checked first). */
  function WriteOutcome(n: nat, length: nat, offset: int, count: i32): (r: Outcome)
    ensures r == Pass <==> Stored(n, length, offset, count) == n
    ensures r.Fail? ==> r.error == TooFewBytes || r.error == IndexOutOfRange
    ensures r == Fail(TooFewBytes) <==> Stored(n, length, offset, count) < n && CountRoom(count) < n
                                          && CountRoom(count) <= IndexRoom(length, offset)
  {
    var w := Stored(n, length, offset, count);
    if w == n then Pass else if w == CountRoom(count) then Fail(TooFewBytes) else Fail(IndexOutOfRange)
  }

  /** Inside a range CheckBuffer accepts, the written check passes too and the index never runs
      out first: the callback stores `min(count, n)` bytes and fails only when `count` is
      smaller than `n`. */
  lemma StoredInCheckedRange(n: nat, length: nat, offset: i32, count: i32)
    requires CheckBuffer(length, offset, count) == Pass
    ensures CheckBufferAsWritten(length, offset, count) == Pass
    ensures Stored(n, length, offset, count) == Min(count, n)
    ensures WriteOutcome(n, length, offset, count) == if count >= n then Pass else Fail(TooFewBytes)
  {
    CheckBufferAsWrittenIsLooser(length, offset, count);
  }

  /** On a range that only the wrapped sum lets through, the count never runs out first: the
      callback stores what fits up to the end of the buffer, and fails with an index error
      exactly when the `n` bytes do not fit there. */
  lemma StoredInWrappedRange(n: nat, length: nat, offset: i32, count: i32)
    requires CheckBufferAsWritten(length, offset, count) == Pass && CheckBuffer(length, offset, count) != Pass
    ensures Stored(n, length, offset, count) == Min(n, length - offset)
    ensures WriteOutcome(n, length, offset, count) == if n <= length - offset then Pass else Fail(IndexOutOfRange)
  {
    CheckBufferAsWrittenIsLooser(length, offset, count);
  }

  /** The ten-byte buffer with offset 5 and count int.MaxValue: the one-byte encoding of 0 is
      stored and the encoder returns normally; the nine-byte encoding of 2^64 - 1 has five bytes
      stored and then raises an index error, where the corrected check raises a count error. */
  lemma OverlongRangeEncoding()
    ensures WriteOutcome(|Encoding(0)|, 10, 5, 0x7FFF_FFFF) == Pass
    ensures Stored(|Encoding(U64 - 1)|, 10, 5, 0x7FFF_FFFF) == 5
    ensures WriteOutcome(|Encoding(U64 - 1)|, 10, 5, 0x7FFF_FFFF) == Fail(IndexOutOfRange)
    ensures CheckBuffer(10, 5, 0x7FFF_FFFF) == Fail(CountOutOfRange)
  {
    EncodingShape(0);
    EncodingShape(U64 - 1);
    CheckBufferAsWrittenAdmitsOverlongRange();
    StoredInWrappedRange(1, 10, 5, 0x7FFF_FFFF);
    StoredInWrappedRange(9, 10, 5, 0x7FFF_FFFF);
  }

  /** The write callback the buffer encoders hand to the Action encoder,
      `b => { if (--count < 0) throw new TooFewBytesException(); buffer[offset++] = b; }`,
      applied to the encoded bytes in turn. It stores a prefix of them at `buffer[offset..]`
      and stops at the first byte for which the count, then the index, runs out. */
  method WriteBytes(bytes: seq<byte>, buffer: array<byte>, offset: i32, count: i32) returns (r: Outcome)
    requires |bytes| <= 9
    modifies buffer
    ensures r == WriteOutcome(|bytes|, buffer.Length, offset, count)
    ensures var w := Stored(|bytes|, buffer.Length, offset, count);
      forall i :: 0 <= i < buffer.Length ==>
           buffer[i] == if offset <= i < offset + w then bytes[i - offset] else old(buffer[i])
  {
    var c := count;
    var o: int := offset;
    var j := 0;
    while j < |bytes|
      invariant j <= |bytes| && j <= CountRoom(count) && j <= IndexRoom(buffer.Length, offset)
      invariant o == offset + j
      invariant c == if count == MinInt32 && j > 0 then 0x7FFF_FFFF - (j - 1) else count - j
      invariant forall i :: 0 <= i < buffer.Length ==>
        buffer[i] == if offset <= i < offset + j then bytes[i - offset] else old(buffer[i])
    {
      c := Wrap32(c as int - 1);
      if c < 0 {
        return Fail(TooFewBytes);
      }
      if o < 0 || o >= buffer.Length {
        return Fail(IndexOutOfRange);
      }
      buffer[o] := bytes[j];
      o := o + 1;
      j := j + 1;
    }
    r := Pass;
  }

  /** ILIntEncode(value, buffer, offset, count): validates the range with the written check,
      then stores the encoding at `buffer[offset..]` through the write callback. The bytes that
      fit before the count or the end of the buffer runs out are stored, nothing else changes,
      and the callback's exception, if any, is the result. */
  method ILIntEncodeBuffer(value: u64, buffer: array<byte>, offset: i32, count: i32) returns (r: Outcome)
    modifies buffer
    ensures var check := CheckBufferAsWritten(buffer.Length, offset, count);
      var e := Encoding(value);
      (check.Fail? ==> r == check && buffer[..] == old(buffer[..]))
      && (check.Pass? ==>
            var w := Stored(|e|, buffer.Length, offset, count);
            r == WriteOutcome(|e|, buffer.Length, offset, count)
            && buffer[..] == old(buffer[..])[..offset] + e[..w] + old(buffer[..])[offset + w..])
  {
    var check := CheckBufferAsWritten(buffer.Length, offset, count);
    if check.Fail? {
      return check;
    }
    ghost var before := buffer[..];
    var e := ILIntEncodeAction(value);
    EncodingShape(value);
    r := WriteBytes(e, buffer, offset, count);
    Spliced(buffer[..], before, e, offset, Stored(|e|, buffer.Length, offset, count));
  }

  /** A buffer that holds `e[..w]` from `offset` on and its old bytes elsewhere is the old
      buffer with that stretch replaced. */
  lemma Spliced(now: seq<byte>, before: seq<byte>, e: seq<byte>, offset: nat, w: nat)
    requires |now| == |before| && offset + w <= |now| && w <= |e|
    requires forall i :: 0 <= i < |now| ==> now[i] == if offset <= i < offset + w then e[i - offset] else before[i]
    ensures now == before[..offset] + e[..w] + before[offset + w..]
  {
  }

  /** ILIntEncode(value): a fresh array of ILIntSize bytes holding the encoding; the
      TooFewBytes path cannot be taken. */
  method ILIntEncode(value: u64) returns (bytes: array<byte>)
    ensures fresh(bytes) && bytes[..] == Encoding(value)
  {
    var size := ILIntSize(value);
    EncodingShape(value);
    bytes := new byte[size];
    StoredInCheckedRange(size, size, 0, size);
    var r := ILIntEncodeBuffer(value, bytes, 0, size);
    assert r == Pass;
    assert bytes[..] == bytes[..][..0] + Encoding(value) + bytes[..][size..];
  }

  /** AsILInt: an alias of ILIntEncode(value). */
  method AsILInt(value: u64) returns (bytes: array<byte>)
    ensures fresh(bytes) && bytes[..] == Encoding(value)
  {
    bytes := ILIntEncode(value);
  }

  /** `value.AsILInt().ILIntDecode() == value` for every `ulong`. */
  lemma AsILIntDecodes(value: u64)
    ensures RangeDecoding(Encoding(value), 0, |Encoding(value)|) == Ok(value)
  {
    EncodingRoundTrip(value, []);
    assert Encoding(value) + [] == Encoding(value);
    ArrayDecodingIsDecoding(Encoding(value));
  }
}
