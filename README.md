# ILInt in Dafny

This project models the core of InterlockLedger's ILInt library. ILInt is a self-delimiting,
variable-length encoding of 64-bit unsigned integers (`ulong`).

- A value below `ILINT_BASE` (0xF8 = 248) is a single byte.
- Any other value is written as a header byte `0xF8 + (N - 2)`, followed by `value - 248` as
  `N - 1` big-endian bytes. `N` runs from 2 to 9.

The model covers five C# files:

- The size function and the encoders (`UlongExtensions.cs`).
- The one-shot decoder that pulls bytes from a functor (`Features/ILIntHelpers.cs`).
- Its byte-array front ends with the `CheckBuffer` range check (`ByteArrayExtensions.cs`).
- The incremental, resettable `ILIntReader` (`Features/ILIntReader.cs`).
- The older duplicate of size, encode and decode (`ILIntHelpers.cs`). The model proves that it
  agrees with the newer files.

Each C# file has its own module. `Bytes` holds the shared machine arithmetic:

- `byte`, `ulong` (`u64`) and C# `int` (`i32`) are subset types of `int`.
- `ulong` shifts wrap explicitly: `ShiftIn` is `(acc << 8) + b` taken modulo 2^64.
- The decrement of a C# `int` wraps explicitly (`Wrap32`).
- `BigEndian` and `BigEndianBytes` read and write big-endian byte strings.

How the pieces are modelled:

- The specification functions are `ILIntSize`, `Encoding`, `Decoding`, `RangeDecoding`, `Step` and `Feed`.
- Methods that loop or change state are proved against these functions.
- `ILIntDecode(Func<byte>)` reads from a `ByteSource`. This class is a cursor over a byte
  sequence. When it runs dry it fails with TooFewBytes, as `ReadSingleByte` does once its
  retries are spent.
- `ILIntEncode(Action<byte>)` returns the sequence of bytes it hands to the action.
- The buffer encoders feed those bytes to `WriteBytes`. This is the shared callback
  `if (--count < 0) throw ...; buffer[offset++] = b`, acting on a Dafny `array`.
- `ILIntReader` is a class with the two private fields `size` and `value`.
  - `Done`, `Reset` and the `TryDecode` loops update those fields.
  - Each method's new state is the one the pure `Step` or `Feed` gives.
- Exceptions are results: `Result<T>` (`Ok`/`Err`) and `Outcome` (`Pass`/`Fail`). Each has one
  error constructor per exception the C# code raises.

The main properties proved:

- The encoding is exactly `ILIntSize` bytes long.
- `ILIntSize` is the least size that holds the value.
- Decoding the encoding gives back the value, and consumes exactly the encoding, whatever bytes follow.
- The encoding is canonical.
- A tail above `ILINT_MAX` decodes to 0 in the one-shot decoder and throws in the reader.
- The reader agrees with the one-shot decoder on every input.
- `TryDecode` over a segmented sequence is `TryDecode` over the segments laid end to end.
- The older helpers agree with the newer ones wherever the newer range check passes. Where it
  fails, the model states how they differ.
- The newer range check is modelled as written, with its 32-bit sum, and is proved looser than
  the intended check only through the wrap (see Findings).

Two behaviours do not come from the source shown. They follow the documented behaviour of .NET:

- Both range decoders build a `MemoryStream`. The model follows the argument checks of that
  constructor: a negative index, then a negative count, then a range past the end. Behind the
  newer decoder's own check only the last of these can fire, and only on a wrapped range.
- The model assumes the default unchecked `int` arithmetic of C#.

## Model

| member | source | states |
|---|---|---|
| ILIntHelpers.MaxIsLargestTail | InterlockLedger.Tags.ILInt/Features/ILIntHelpers.cs:37-38 | `ILINT_MAX + ILINT_BASE` is `ulong.MaxValue`, and a tail `t` can have `ILINT_BASE` added without leaving the `ulong` range exactly when `t <= ILINT_MAX`. |
| ILIntHelpers.TailLength | InterlockLedger.Tags.ILInt/Features/ILIntHelpers.cs:47-49 | A header below 248 announces no tail bytes; any other header announces `header - 247`, which is at most 8. |
| ILIntHelpers.DecodingLength | InterlockLedger.Tags.ILInt/Features/ILIntHelpers.cs:46-51 | Decoding succeeds exactly when the input holds the bytes the header announces. It consumes 1 byte for a header below 248 and `header - 246` (1..9) otherwise. Its only error is TooFewBytes. |
| ILIntHelpers.DecodingShortForm | InterlockLedger.Tags.ILInt/Features/ILIntHelpers.cs:46-48 | A first byte below 248 is the value, and only that byte is read. |
| ILIntHelpers.DecodingIgnoresTrailing | InterlockLedger.Tags.ILInt/Features/ILIntHelpers.cs:49-52 | Bytes after the announced ones are never read: appending bytes changes neither the result nor the count consumed. |
| ILIntHelpers.DecodingOverflow | InterlockLedger.Tags.ILInt/Features/ILIntHelpers.cs:52 | Only a nine-byte encoding (header 0xFF) can overflow, and it then decodes to 0. Every other complete encoding decodes to its big-endian tail plus 248. |
| ILIntHelpers.TopOfRange | InterlockLedger.Tags.ILInt/Features/ILIntHelpers.cs:50-52 | Consider a nine-byte encoding whose first seven tail bytes are 0xFF. Its tail is 2^64 - 256 plus its last byte. It decodes to 2^64 - 1 for a last byte of 0x07, and overflows to 0 from 0x08 on. |
| ILIntHelpers.ByteSource.ReadByte | InterlockLedger.Tags.ILInt/Extensions/StreamExtensions.cs:60-70 | The byte source returns the next byte and advances. At the end it fails with TooFewBytes and leaves the cursor where it is. |
| ILIntHelpers.ILIntDecode | InterlockLedger.Tags.ILInt/Features/ILIntHelpers.cs:43-53 | The functor decoder returns `Decoding` of the remaining bytes. It leaves the source just past the bytes it read, or at its end on TooFewBytes. |
| ILIntHelpers.ReadTail | InterlockLedger.Tags.ILInt/Features/ILIntHelpers.cs:50-51 | The `while (size-- > 0)` loop leaves the `ulong` accumulator equal to the big-endian value of the `n <= 8` bytes it read, so no bit is shifted out. It fails with TooFewBytes if the source runs dry. |
| Bytes.ShiftInByte | InterlockLedger.Tags.ILInt/Features/ILIntHelpers.cs:51 | On an accumulator holding fewer than eight bytes, `(value << 8) + b` is the big-endian value with `b` appended. |
| Bytes.BigEndianBytesRoundTrip | InterlockLedger.Tags.ILInt/Extensions/UlongExtensions.cs:87-90 | `n` big-endian bytes written from a value below 256^n read back to that value. |
| Bytes.BigEndianBytesAt | InterlockLedger.Tags.ILInt/Extensions/UlongExtensions.cs:89 | Byte `j` of the `n`-byte representation is `(x >> 8*(n-1-j)) & 0xFF`. |
| Bytes.BigEndianBytesOfBigEndian | InterlockLedger.Tags.ILInt/Features/ILIntHelpers.cs:50-51 | Reading bytes as a big-endian number and writing it back in the same width gives the same bytes. |
| Bytes.Wrap32 | InterlockLedger.Tags.ILInt/Extensions/ByteArrayExtensions.cs:57 | C# `int` arithmetic is the identity on results that fit in 32 bits. |
| ByteArrayExtensions.CheckBufferAsWritten | InterlockLedger.Tags.ILInt/Extensions/ByteArrayExtensions.cs:53-59 | The check as written, with a wrapping `offset + count`; the range decoder and the buffer encoder run this one. It only passes a non-negative offset inside the buffer and a positive count. |
| ByteArrayExtensions.CheckBufferAsWrittenAdmitsOverlongRange | InterlockLedger.Tags.ILInt/Extensions/ByteArrayExtensions.cs:57 | The written check passes offset 5 with count `int.MaxValue` on a ten-byte buffer. |
| ByteArrayExtensions.CheckBuffer | InterlockLedger.Tags.ILInt/Extensions/ByteArrayExtensions.cs:53-59 | Passes exactly for a non-empty range `[offset, offset + count)` inside the buffer. The offset error is reported exactly when the offset lies outside the buffer. Any other failure is the count error. |
| ByteArrayExtensions.CheckBufferAgreesWithoutWrap | InterlockLedger.Tags.ILInt/Extensions/ByteArrayExtensions.cs:57 | Whenever `offset + count` fits in an `int`, the corrected check and the written check agree. |
| ByteArrayExtensions.CheckBufferAsWrittenIsLooser | InterlockLedger.Tags.ILInt/Extensions/ByteArrayExtensions.cs:55-58 | The written check passes every range the corrected one passes, and fails with the same error wherever it fails. It passes a range the corrected check rejects only when `offset + count` exceeds `int.MaxValue`, and the corrected check reports that range as a count error. |
| ByteArrayExtensions.CheckBufferRejectsEmpty | InterlockLedger.Tags.ILInt/Extensions/ByteArrayExtensions.cs:55-56 | An empty buffer is always rejected with the offset error. |
| ByteArrayExtensions.RangeDecodingErrors | InterlockLedger.Tags.ILInt/Extensions/ByteArrayExtensions.cs:48-51 | Where the written check fails, the range decoder returns the corrected check's error. It returns `MemoryStream`'s invalid-range error exactly when the written check passes a range the corrected check rejects. |
| ByteArrayExtensions.OverlongRangeDecoding | InterlockLedger.Tags.ILInt/Extensions/ByteArrayExtensions.cs:49-50 | On a ten-byte buffer, index 5 with count `int.MaxValue` passes the check and is then rejected by `new MemoryStream(buffer, 5, int.MaxValue)` with the invalid-range error. |
| ByteArrayExtensions.RangeDecodingReadsOnlyAnnounced | InterlockLedger.Tags.ILInt/Extensions/ByteArrayExtensions.cs:48-51 | For a range the corrected check accepts, `count` is only an upper bound: the result is the decoding of the announced bytes at `index`. A range shorter than announced fails with TooFewBytes. |
| ByteArrayExtensions.ILIntDecodeRange | InterlockLedger.Tags.ILInt/Extensions/ByteArrayExtensions.cs:48-51 | The range decoder validates with the check as written. `MemoryStream` then rejects a range past the end, and otherwise the decoder reads from a stream over `buffer[index..index+count)`. |
| ByteArrayExtensions.ILIntDecodeArray | InterlockLedger.Tags.ILInt/Extensions/ByteArrayExtensions.cs:40-41 | Whole-array decoding is the range decoder applied to the whole array. |
| ByteArrayExtensions.ArrayDecodingIsDecoding | InterlockLedger.Tags.ILInt/Extensions/ByteArrayExtensions.cs:40-59 | A whole non-empty array decodes to `Decoding`'s value, or fails with TooFewBytes. An empty array is an out-of-range offset. |
| ByteArrayExtensions.ArrayDecodingExamples | InterlockLedger.Tags.ILInt.UnitTests/Extensions/ByteArrayExtensionsTests.cs:43-47 | [F7] gives 247, [F8,00] gives 248, [F8,01] gives 249, [F8,FF] gives 503, and [F9,01,01] gives 505. |
| ByteArrayExtensions.TopOfRangeArray | InterlockLedger.Tags.ILInt/Extensions/ByteArrayExtensions.cs:40-41 | A nine-byte array [FF, FF×7, b] decodes to 2^64 - 8 + b up to b = 7, and to 0 from b = 8 on. |
| ByteArrayExtensions.TopOfRangeArrays | InterlockLedger.Tags.ILInt.UnitTests/Extensions/ByteArrayExtensionsTests.cs:55-58 | [FF×8,07] gives 2^64 - 1. [FF×8,08], [FF×8,80] and [FF×9] give 0. |
| ByteArrayExtensions.TruncatedArraysFail | InterlockLedger.Tags.ILInt.UnitTests/Extensions/ByteArrayExtensionsTests.cs:63-70 | [F8], [F9,00], [FA,00,00] … [FF,00×7] fail with TooFewBytes: all eight truncated arrays. |
| UlongExtensions.ILIntSize | InterlockLedger.Tags.ILInt/Extensions/UlongExtensions.cs:97-105 | The size is in 1..9, and it is 1 exactly when the value is below 248. |
| UlongExtensions.ILIntSizeIsLeast | InterlockLedger.Tags.ILInt/Extensions/UlongExtensions.cs:99-105 | For a value of 248 or more, `N - 1` bytes hold `value - 248` and `N - 2` bytes do not. So `N` is the least size that fits. |
| UlongExtensions.EncodingShape | InterlockLedger.Tags.ILInt/Extensions/UlongExtensions.cs:82-91 | The encoding has `ILIntSize` bytes, and a value below 248 is its own byte. Otherwise the header is `248 + size - 2`, so it is at least 0xF8, and the tail reads back as `value - 248`. |
| UlongExtensions.EncodingRoundTrip | InterlockLedger.Tags.ILInt/Features/ILIntHelpers.cs:43-53 | Decoding an encoding, whatever follows it, gives back the value and consumes `ILIntSize` bytes. No encoding overflows. |
| UlongExtensions.EncodingIsCanonical | InterlockLedger.Tags.ILInt/Extensions/UlongExtensions.cs:97-105 | Any non-overflowing byte string that decodes to `v` is at least `ILIntSize(v)` long. The only one of that length is the encoder's output. |
| UlongExtensions.EncodingExamples | InterlockLedger.Tags.ILInt.UnitTests/Extensions/UlongExtensionsTests.cs:40-55 | 0 gives [00], 247 gives [F7], 248 gives [F8,00], 503 gives [F8,FF], 505 gives [F9,01,01], and 2^64 - 1 gives [FF×8,07]. |
| UlongExtensions.ILIntEncodeAction | InterlockLedger.Tags.ILInt/Extensions/UlongExtensions.cs:80-92 | The Action encoder hands exactly the bytes of `Encoding(value)` to the action, in order. |
| UlongExtensions.WriteTail | InterlockLedger.Tags.ILInt/Extensions/UlongExtensions.cs:87-90 | The loop over shifts `(n-1)*8 … 8, 0` emits the `n`-byte big-endian representation. |
| UlongExtensions.WriteOutcome | InterlockLedger.Tags.ILInt/Extensions/UlongExtensions.cs:60-64 | The write callback completes exactly when every byte is stored. Otherwise it fails with TooFewBytes when the count runs out no later than the index, and with IndexOutOfRange when the index runs out first. |
| UlongExtensions.StoredInCheckedRange | InterlockLedger.Tags.ILInt/Extensions/UlongExtensions.cs:59-64 | Inside a range the corrected check accepts, the written check passes too. The callback stores `min(count, n)` bytes and fails only when `count < n`. |
| UlongExtensions.StoredInWrappedRange | InterlockLedger.Tags.ILInt/Extensions/UlongExtensions.cs:59-64 | On a range only the wrapped sum lets through, the callback stores what fits before the end of the buffer. It fails with IndexOutOfRange exactly when the bytes do not fit. |
| UlongExtensions.OverlongRangeEncoding | InterlockLedger.Tags.ILInt/Extensions/UlongExtensions.cs:59-64 | Ten-byte buffer, offset 5, count `int.MaxValue`: the one-byte encoding of 0 is stored normally. The nine-byte encoding of 2^64 - 1 has five bytes stored, then raises IndexOutOfRange. The corrected check reports a count error. |
| UlongExtensions.WriteBytes | InterlockLedger.Tags.ILInt/Extensions/UlongExtensions.cs:60-64 | The callback stores a prefix of the bytes at `buffer[offset..]` and changes nothing else. It ends as `WriteOutcome` says, including the wrap of `--count` at `int.MinValue`. |
| UlongExtensions.ILIntEncodeBuffer | InterlockLedger.Tags.ILInt/Extensions/UlongExtensions.cs:58-66 | A range the written check rejects returns its error with the buffer unchanged. Otherwise the callback's outcome is the result, and the bytes it stored are spliced in at `offset` with the rest of the buffer unchanged. `StoredInCheckedRange` and `StoredInWrappedRange` say what that is for each kind of range. |
| UlongExtensions.ILIntEncode | InterlockLedger.Tags.ILInt/Extensions/UlongExtensions.cs:71-74 | The result is a fresh array holding exactly the encoding: `ILIntSize` bytes. The buffer encode it delegates to ends normally, which is asserted in the body. |
| UlongExtensions.AsILInt | InterlockLedger.Tags.ILInt/Extensions/UlongExtensions.cs:49 | `AsILInt` is the same as `ILIntEncode()`. |
| UlongExtensions.AsILIntDecodes | InterlockLedger.Tags.ILInt.UnitTests/Features/ILIntTests.cs:55 | `value.AsILInt().ILIntDecode() == value` for every `ulong`. |
| ILIntReading.StepReadyIffDone | InterlockLedger.Tags.ILInt/Features/ILIntReader.cs:61-78 | On a reader that is not ready, `Done` returns true exactly when the reader becomes ready. Only a reader reading a tail can throw, and the throw leaves `size` unchanged. |
| ILIntReading.StepOnReadyReader | InterlockLedger.Tags.ILInt/Features/ILIntReader.cs:71-77 | `Done` on a reader that is already ready shifts the byte into the old value. When that does not overflow, it returns true but leaves the reader not ready (`size == -1`). |
| ILIntReading.Feed | InterlockLedger.Tags.ILInt/Features/ILIntReader.cs:86-93 | A run of `Done` calls consumes at most the input. If it runs out it consumed everything. Otherwise it stopped at the byte that returned true or threw, and counts that byte. |
| ILIntReading.Answer | InterlockLedger.Tags.ILInt/Features/ILIntReader.cs:86-93 | `TryDecode` returns true after completion and false on exhaustion. It throws exactly on a too-large value. |
| ILIntReading.FeedAppend | InterlockLedger.Tags.ILInt/Features/ILIntReader.cs:105-115 | Feeding `a + b` is feeding `a`, then `b` only if `a` ran out, with the counts added. |
| ILIntReading.FeedReadyIffCompleted | InterlockLedger.Tags.ILInt.UnitTests/Features/ILIntReaderTests.cs:104-105 | From a reader that is not ready, the run ends ready exactly when `Done` returned true. This is the tests' `ok == reader.Ready`. |
| ILIntReading.StepTail | InterlockLedger.Tags.ILInt/Features/ILIntReader.cs:71-77 | A tail byte is shifted in without loss. Only the last tail byte can overflow, and that byte completes the value by adding 248. |
| ILIntReading.FeedTail | InterlockLedger.Tags.ILInt/Features/ILIntReader.cs:71-77 | With `m` tail bytes to go, the reader finishes after exactly `m` bytes with the tail plus 248, or throws at that byte. With fewer bytes it runs out, holding the partial tail. |
| ILIntReading.FeedMatchesDecoding | InterlockLedger.Tags.ILInt/Features/ILIntReader.cs:61-84 | From a fresh or reset reader, the run exhausts exactly when `Decoding` lacks bytes, and throws exactly when the tail overflows (at byte 9). Otherwise it ends ready with `Decoding`'s value after the same number of bytes. |
| ILIntReading.FeedEncoding | InterlockLedger.Tags.ILInt.UnitTests/Features/ILIntReaderTests.cs:179-194 | A fresh reader fed an encoding returns true exactly at its last byte and is then ready with the value. |
| ILIntReading.TryDecodeExamples | InterlockLedger.Tags.ILInt.UnitTests/Features/ILIntReaderTests.cs:114-118 | [] gives false with 0 consumed. [00] and [00,01] give true with 1 consumed and value 0. [F8,01] and [F8,01,02,03] give true with 2 consumed and value 249. |
| ILIntReading.TopOfRangeRead | InterlockLedger.Tags.ILInt.UnitTests/Features/ILIntReaderTests.cs:91-97 | [FF, FF×7, b] completes with 2^64 - 8 + b up to b = 7, and throws "too large" at the ninth byte from b = 8 on. |
| ILIntReading.ILIntReader.constructor | InterlockLedger.Tags.ILInt/Features/ILIntReader.cs:47 | A new reader is in the reset state and is not ready. |
| ILIntReading.ILIntReader.Ready | InterlockLedger.Tags.ILInt/Features/ILIntReader.cs:50 | `Ready` holds exactly when `Value` returns a value instead of throwing. |
| ILIntReading.ILIntReader.Value | InterlockLedger.Tags.ILInt/Features/ILIntReader.cs:55 | `Value` is available exactly when `size == 0`, and it is then the accumulated value. Otherwise it is the "still not completely read" error. |
| ILIntReading.ILIntReader.Done | InterlockLedger.Tags.ILInt/Features/ILIntReader.cs:61-78 | `Done` leaves the fields in the state `Step` gives, and returns its flag or its exception. |
| ILIntReading.ILIntReader.Reset | InterlockLedger.Tags.ILInt/Features/ILIntReader.cs:81-84 | `Reset` sets `size = -1` and `value = 0`, so the reader is not ready. |
| ILIntReading.ILIntReader.TryDecodeSpan | InterlockLedger.Tags.ILInt/Features/ILIntReader.cs:86-93 | The span overload's result, its `consumed` count and the new fields are those of `Feed` over the bytes. |
| ILIntReading.ILIntReader.TryDecodeEnumerable | InterlockLedger.Tags.ILInt/Features/ILIntReader.cs:95-103 | The enumerable overload behaves the same as the span overload. |
| ILIntReading.ILIntReader.TryDecodeSequence | InterlockLedger.Tags.ILInt/Features/ILIntReader.cs:105-115 | The segmented overload behaves as `Feed` over the segments laid end to end: same result and fields, and `consumed` summed across segments. |
| ILIntReading.FlattenPrefix | InterlockLedger.Tags.ILInt/Features/ILIntReader.cs:108-112 | Once a prefix of the segments stops the run, later segments are never read. |
| LegacyILIntHelpers.LegacySize | InterlockLedger.Tags.ILInt/ILIntHelpers.cs:143-159 | The `if`-chain size equals the newer ternary `ILIntSize` for every `ulong`. |
| LegacyILIntHelpers.LegacySizeBoundaries | InterlockLedger.Tags.ILInt.UnitTests/UnitTestILIntHelpers.cs:108-132 | Each size `N` ends at `248 + 256^(N-1) - 1`: the boundary table of the size tests. |
| LegacyILIntHelpers.ILIntEncodeAction | InterlockLedger.Tags.ILInt/ILIntHelpers.cs:123-138 | With no `writeByte` the encoder fails with ArgumentNullException. Otherwise it hands the newer encoder's bytes to the action. |
| LegacyILIntHelpers.ILIntEncodeBuffer | InterlockLedger.Tags.ILInt/ILIntHelpers.cs:93-100 | There is no `CheckBuffer` pre-check. The callback stores a prefix of the encoding at `offset`, changes nothing else, and ends as `WriteOutcome` says. |
| LegacyILIntHelpers.BufferEncodersAgree | InterlockLedger.Tags.ILInt/ILIntHelpers.cs:93-100 | Where the corrected check passes, the written check passes too, and the older encoder returns normally or fails with TooFewBytes, as the newer one does. A count in `int.MinValue + 1 .. 0` is TooFewBytes with nothing stored, where the newer encoder fails the check. An offset outside the buffer with a positive count, or with `int.MinValue`, is IndexOutOfRange with nothing stored, where the newer encoder reports an offset error. |
| LegacyILIntHelpers.ILIntEncode | InterlockLedger.Tags.ILInt/ILIntHelpers.cs:114-117 | The result is a fresh array holding exactly the encoding. |
| LegacyILIntHelpers.AsILInt | InterlockLedger.Tags.ILInt/ILIntHelpers.cs:53 | `AsILInt` is the same as `ILIntEncode()`. |
| LegacyILIntHelpers.ILIntDecode | InterlockLedger.Tags.ILInt/ILIntHelpers.cs:75-84 | The older functor decoder has the same result and cursor movement as the newer one: `Decoding` of the remaining bytes. |
| LegacyILIntHelpers.LegacyRangeDecoding | InterlockLedger.Tags.ILInt/ILIntHelpers.cs:65 | A negative index is an offset error, then a negative count is a count error. A range past the end is exactly the invalid-range error. |
| LegacyILIntHelpers.ILIntDecodeRange | InterlockLedger.Tags.ILInt/ILIntHelpers.cs:65-70 | The range decoder validates as `MemoryStream` does, then decodes from a stream over the range. |
| LegacyILIntHelpers.ILIntDecodeArray | InterlockLedger.Tags.ILInt/ILIntHelpers.cs:58 | Whole-array decoding is the range decoder applied to the whole array. |
| LegacyILIntHelpers.RangeDecodersAgree | InterlockLedger.Tags.ILInt/ILIntHelpers.cs:58-65 | On every range the newer written check accepts, the corrected check's ranges among them, and on every non-empty whole array, the older range decoder equals the newer one. An empty array is TooFewBytes for the older and an offset error for the newer. |
| LegacyILIntHelpers.TruncatedArraysFail | InterlockLedger.Tags.ILInt.UnitTests/UnitTestILIntHelpers.cs:97-106 | [F8], [F9,00], [FA,00,00] … [FF,00×7] fail with TooFewBytes. |
| LegacyILIntHelpers.AsILIntDecodes | InterlockLedger.Tags.ILInt.UnitTests/UnitTestILIntHelpers.cs:40-55 | `value.AsILInt().ILIntDecode() == value` for every `ulong`, with the older helpers. |

## Left out

- `StreamExtensions.ReadSingleByte` (retries and `Thread.Sleep`) is left out. A stream is a
  cursor over a byte sequence whose exhaustion is TooFewBytes; a stream that delivers bytes
  late is not modelled.
- The `Stream` overloads `ILIntDecode(Stream)` and `ILIntEncode(Stream, value)` are left out.
  Byte-array ranges are decoded from a cursor over the slice, and the bytes an encoder writes
  are returned as a sequence.
- `IBufferWriterOfByteExtensions` is left out. It is an adapter over the .NET
  `IBufferWriter<byte>` interface.
- The signed mapping `AsSignedILInt` / `AsUnsignedILInt` is left out. Its implementation is not
  part of this model.
- The `Required(...)` null guards of the newer files are left out, because every Dafny reference
  is non-null. The older Action encoder's explicit null check is modelled, by the
  `hasWriteByte` flag.
- WriteBytes: requires at most nine bytes, which is all any encoding has. This keeps the 32-bit
  `count` decrement from wrapping twice.
- ILIntReading.ILIntReader.TryDecodeSequence: does not state the value left in `consumed` when
  the too-large exception propagates out of an inner segment. It states `consumed` only for
  normal returns.
- The reader's state after the too-large exception is stated: the value is already shifted and
  `size` is not decremented. No further use of such a reader is modelled beyond what `Step`
  gives.
- `TryDecode`'s `out long consumed` is an unbounded `nat`. No input reaches 2^63 bytes.
- ByteArrayExtensions.ILIntDecodeArray and LegacyILIntHelpers.ILIntDecodeArray: require the
  array length to fit in an `int`, as every .NET byte array's does.

## Findings

| source | as written | input that shows it | evidently intended | confidence | as-written member | corrected member |
|---|---|---|---|---|---|---|
| InterlockLedger.Tags.ILInt/Extensions/ByteArrayExtensions.cs:57 | `offset + count > buffer.Length` is computed in unchecked 32-bit `int`, so a large `count` wraps the sum negative and the range check passes | a 10-byte buffer, `offset = 5`, `count = int.MaxValue`: the sum wraps negative and `CheckBuffer` does not throw. The range decoder then gets `MemoryStream`'s `ArgumentException`. The buffer encoder stores an encoding of up to 5 bytes and returns normally; a longer one has 5 bytes stored, then ends in `IndexOutOfRangeException`. In every case the check was meant to raise `ArgumentOutOfRangeException(count)`. | reject every range with `offset + count > buffer.Length` | medium, not executed; assumes the default unchecked context | ByteArrayExtensions.CheckBufferAsWritten, ByteArrayExtensions.CheckBufferAsWrittenAdmitsOverlongRange, ByteArrayExtensions.OverlongRangeDecoding, UlongExtensions.OverlongRangeEncoding | ByteArrayExtensions.CheckBuffer, ByteArrayExtensions.CheckBufferAsWrittenIsLooser |
