/** The ILInt constants and the one-shot decoder that pulls bytes from a byte source
    (InterlockLedger.Tags.ILInt/Features/ILIntHelpers.cs). */
module ILIntHelpers {
  import opened Bytes

  /** ILINT_BASE: the smallest first byte that announces a multi-byte encoding. */
  const Base: nat := 0xF8
  /** ILINT_MAX = ulong.MaxValue - ILINT_BASE: the largest tail that still fits a `ulong` once Base is added. */
  const Max: nat := U64 - 1 - Base

  /** ILINT_MAX is the largest tail the decoders accept: a tail `t` gets Base added without
      leaving the `ulong` range exactly when `t <= Max`, and Max + Base is ulong.MaxValue. */
  lemma MaxIsLargestTail(t: nat)
    ensures Max + Base == U64 - 1
    ensures t <= Max <==> t + Base < U64
  {
  }

  /** The exceptions the ILInt code raises, one constructor per cause. */
  datatype Error =
    | TooFewBytes        // TooFewBytesException: the source ran dry, or the output range is full
    | TooLarge           // InvalidOperationException "Decoded ILInt value is too large" (reader only)
    | NotReady           // InvalidOperationException "ILInt still not completely read"
    | OffsetOutOfRange   // ArgumentOutOfRangeException(offset / index)
    | CountOutOfRange    // ArgumentOutOfRangeException(count)
    | InvalidRange       // ArgumentException: offset and count do not denote a range of the buffer
    | IndexOutOfRange    // IndexOutOfRangeException from a buffer write
    | ArgumentNull       // ArgumentNullException

  datatype Result<T> = Ok(value: T) | Err(error: Error)

  datatype Outcome = Pass | Fail(error: Error)

  /** What a decode returns, together with how many bytes it took from its source. */
  datatype Decoded = Decoded(value: u64, consumed: nat)

  /** Number of tail bytes announced by a first byte: none below Base, otherwise 1..8. */
  function TailLength(header: byte): (n: nat)
    ensures header < Base <==> n == 0
    ensures n <= 8
  {
    if header < Base then 0 else header - Base + 1
  }

  /** A complete multi-byte encoding whose big-endian tail is above Max. */
  predicate Overflows(bytes: seq<byte>)
  {
    |bytes| > 0 && bytes[0] >= Base && |bytes| > TailLength(bytes[0])
    && BigEndian(bytes[1..1 + TailLength(bytes[0])]) > Max
  }

  /** The value the one-shot decoder returns for the bytes of `bytes`, read from the front,
      and the number of bytes it reads; TooFewBytes when the source runs out first.
      A tail above Max gives the sentinel 0. */
  function Decoding(bytes: seq<byte>): Result<Decoded>
  {
    if |bytes| == 0 then Err(TooFewBytes)
    else if bytes[0] < Base then Ok(Decoded(bytes[0], 1))
    else
      var n := TailLength(bytes[0]);
      if |bytes| < 1 + n then Err(TooFewBytes)
      else
        var tail := BigEndian(bytes[1..1 + n]);
        Ok(Decoded(if tail > Max then 0 else tail + Base, 1 + n))
  }

  /** Decoding reads exactly the bytes the first byte announces: 1 for a byte below Base,
      `header - 246` otherwise, and it fails exactly when fewer are available. */
  lemma DecodingLength(bytes: seq<byte>)
    ensures Decoding(bytes).Ok? <==> |bytes| > 0 && |bytes| >= 1 + TailLength(bytes[0])
    ensures Decoding(bytes).Err? ==> Decoding(bytes).error == TooFewBytes
    ensures Decoding(bytes).Ok? ==>
      Decoding(bytes).value.consumed == (if bytes[0] < Base then 1 else bytes[0] - 246)
      && 1 <= Decoding(bytes).value.consumed <= 9
  {
  }

  /** Bytes after the ones the decoder needs are never read: appending to a decodable
      sequence does not change what it decodes to or how much it consumes. */
  lemma DecodingIgnoresTrailing(bytes: seq<byte>, rest: seq<byte>)
    requires Decoding(bytes).Ok?
    ensures Decoding(bytes + rest) == Decoding(bytes)
  {
    var n := TailLength(bytes[0]);
    assert (bytes + rest)[1..1 + n] == bytes[1..1 + n];
  }

  /** A first byte below Base is itself the value. */
  lemma DecodingShortForm(bytes: seq<byte>)
    requires |bytes| > 0 && bytes[0] < Base
    ensures Decoding(bytes) == Ok(Decoded(bytes[0], 1))
  {
  }

  /** Only a nine-byte encoding (first byte 0xFF) can overflow, and then the result is 0;
      every other complete encoding decodes to Base plus its big-endian tail. */
  lemma {:induction false} DecodingOverflow(bytes: seq<byte>)
    requires |bytes| > 0 && bytes[0] >= Base && |bytes| >= 1 + TailLength(bytes[0])
    ensures Overflows(bytes) ==> bytes[0] == 0xFF && Decoding(bytes) == Ok(Decoded(0, 9))
    ensures !Overflows(bytes) ==>
      Decoding(bytes) == Ok(Decoded(BigEndian(bytes[1..1 + TailLength(bytes[0])]) + Base, 1 + TailLength(bytes[0])))
  {
    var n := TailLength(bytes[0]);
    if n < 8 {
      BigEndianBound(bytes[1..1 + n]);
      Pow256Monotone(n, 7);
      assert Pow256(7) == 0x100_0000_0000_0000;
    }
  }

  /** At the top of the range: a nine-byte encoding whose first seven tail bytes are 0xFF has
      the tail 2^64 - 256 + its last byte, so it decodes to 2^64 - 8 + that byte up to 0x07
      (2^64 - 1 for 0x07) and overflows to 0 from 0x08 on. */
  lemma TopOfRange(bytes: seq<byte>)
    requires |bytes| >= 9 && bytes[0] == 0xFF && forall i :: 1 <= i < 8 ==> bytes[i] == 0xFF
    ensures BigEndian(bytes[1..9]) == U64 - 256 + bytes[8]
    ensures Overflows(bytes) <==> bytes[8] >= 8
    ensures Decoding(bytes) == Ok(Decoded(if bytes[8] >= 8 then 0 else U64 - 8 + bytes[8], 9))
  {
    assert bytes[1..9] == bytes[1..8] + [bytes[8]];
    BigEndianSnoc(bytes[1..8], bytes[8]);
    BigEndianAllOnes(bytes[1..8]);
    assert Pow256(7) == 0x100_0000_0000_0000;
  }

  /** A byte source: the functor `readByte` of the C# code, as a cursor over a sequence.
      Reading past the end fails with TooFewBytes (what ReadSingleByte does once its retries
      are spent) and leaves the cursor where it is. */
  class ByteSource {
    var bytes: seq<byte>
    var position: nat

    ghost predicate Valid()
      reads this
    {
      position <= |bytes|
    }

    /** The bytes not read yet. */
    ghost function Remaining(): seq<byte>
      reads this
      requires Valid()
    {
      bytes[position..]
    }

    constructor (bytes: seq<byte>)
      ensures Valid() && this.bytes == bytes && position == 0
    {
      this.bytes := bytes;
      position := 0;
    }

    method ReadByte() returns (r: Result<byte>)
      requires Valid()
      modifies this
      ensures Valid() && bytes == old(bytes)
      ensures old(position) < |bytes| ==> r == Ok(bytes[old(position)]) && position == old(position) + 1
      ensures old(position) == |bytes| ==> r == Err(TooFewBytes) && position == old(position)
    {
      if position < |bytes| {
        r := Ok(bytes[position]);
        position := position + 1;
      } else {
        r := Err(TooFewBytes);
      }
    }
  }

  /** ILIntDecode(Func<byte> readByte): reads the first byte, then the announced tail bytes,
      and maps a tail above Max to 0. The source advances past exactly the bytes the decoder
      read, or to its end when it runs dry. */
  method ILIntDecode(readByte: ByteSource) returns (r: Result<u64>)
    requires readByte.Valid()
    modifies readByte
    ensures readByte.Valid() && readByte.bytes == old(readByte.bytes)
    ensures match Decoding(old(readByte.Remaining()))
      case Ok(d) => r == Ok(d.value) && readByte.position == old(readByte.position) + d.consumed
      case Err(e) => r == Err(e) && readByte.position == |readByte.bytes|
  {
    ghost var input := readByte.Remaining();
    var first := readByte.ReadByte();
    if first.Err? {
      return Err(first.error);
    }
    var nextByte := first.value;
    if nextByte < Base {
      return Ok(nextByte);
    }
    var size := nextByte - Base + 1;
    assert readByte.Remaining() == input[1..];
    var tail := ReadTail(readByte, size);
    if tail.Err? {
      return Err(tail.error);
    }
    var value := tail.value;
    assert input[1..][..size] == input[1..1 + size];
    r := Ok(if value > Max then 0 else value + Base);
  }

  /** The `while (size-- > 0) value = (value << 8) + readByte();` loop: reads `n` bytes into a
      `ulong` accumulator. With at most eight bytes no bit is shifted out, so the accumulator
      ends as their big-endian value. */
  method ReadTail(readByte: ByteSource, n: nat) returns (r: Result<u64>)
    requires readByte.Valid() && n <= 8
    modifies readByte
    ensures readByte.Valid() && readByte.bytes == old(readByte.bytes)
    ensures var input := old(readByte.Remaining());
      if |input| < n then r == Err(TooFewBytes) && readByte.position == |readByte.bytes|
      else r == Ok(Accumulated(input[..n])) && readByte.position == old(readByte.position) + n
  {
    ghost var input := readByte.Remaining();
    ghost var start := readByte.position;
    var value: u64 := 0;
    var size := n;
    assert input[..0] == [];
    while size > 0
      invariant readByte.Valid() && readByte.bytes == old(readByte.bytes)
      invariant 0 <= size <= n && readByte.position == start + (n - size)
      invariant n - size <= |input| && value == Accumulated(input[..n - size])
    {
      size := size - 1;
      var next := readByte.ReadByte();
      if next.Err? {
        return Err(next.error);
      }
      ghost var read := input[..n - size - 1];
      assert input[..n - size] == read + [next.value];
      ShiftInByte(read, next.value);
      value := ShiftIn(value, next.value);
    }
    r := Ok(value);
  }
}
