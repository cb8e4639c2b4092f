/** The incremental ILInt decoder that is fed one byte at a time
    (InterlockLedger.Tags.ILInt/Features/ILIntReader.cs). */
module ILIntReading {
  import opened Bytes
  import opened ILIntHelpers
  import opened UlongExtensions

  /** The reader's two fields: `size` is -1 before the first byte, then the number of tail
      bytes still expected, and 0 once a value is ready; `value` is the `ulong` accumulator. */
  datatype ReaderState = ReaderState(size: int, value: u64)

  /** The state Reset (and the constructor) establish. */
  const Initial := ReaderState(-1, 0)

  /** The effect of one call of Done: the new state and the returned flag, or the
      "too large" exception together with the state the fields are left in. */
  datatype StepResult = Advanced(next: ReaderState, done: bool) | Overflowed(after: ReaderState)

  /** Done(nextByte) on a reader in state `s`. The accumulator shifts as a `ulong`
      (`(value << 8) + nextByte`, modulo 2^64); the first byte does not clear it. */
  function Step(s: ReaderState, b: byte): StepResult
  {
    if s.size < 0 then
      if b < Base then Advanced(ReaderState(0, b), true)
      else Advanced(ReaderState(b - Base + 1, s.value), false)
    else
      var acc := ShiftIn(s.value, b);
      if acc > Max then Overflowed(ReaderState(s.size, acc))
      else if s.size - 1 > 0 then Advanced(ReaderState(s.size - 1, acc), false)
      else Advanced(ReaderState(s.size - 1, acc + Base), true)
  }

  /** On a reader that is not ready, Done returns true exactly when the reader becomes ready. */
  lemma StepReadyIffDone(s: ReaderState, b: byte)
    requires s.size != 0
    ensures Step(s, b).Advanced? ==> (Step(s, b).done <==> Step(s, b).next.size == 0)
    ensures Step(s, b).Overflowed? ==> s.size > 0 && Step(s, b).after.size == s.size
  {
  }

  /** Feeding a reader that is already ready does not start a new value: the byte is shifted
      into the old one, and when that does not overflow Done returns true while the reader is
      left not ready, with `size` at -1. */
  lemma StepOnReadyReader(v: u64, b: byte)
    ensures Step(ReaderState(0, v), b).Advanced? ==>
      Step(ReaderState(0, v), b).done && Step(ReaderState(0, v), b).next.size == -1
      && Step(ReaderState(0, v), b).next.value == ShiftIn(v, b) + Base
    ensures Step(ReaderState(0, v), b).Overflowed? <==> ShiftIn(v, b) > Max
  {
  }

  /** Where a run of Done calls over a byte sequence stops: at the call that returned true,
      at the end of the bytes, or at the call that threw. `consumed` counts the calls. */
  datatype Run =
    | Completed(state: ReaderState, consumed: nat)
    | Exhausted(state: ReaderState, consumed: nat)
    | TooLargeAt(state: ReaderState, consumed: nat)

  /** The same run, after `k` earlier calls. */
  function Later(run: Run, k: nat): (r: Run)
    ensures r.state == run.state && r.consumed == run.consumed + k
    ensures r.Completed? == run.Completed? && r.Exhausted? == run.Exhausted?
  {
    match run
    case Completed(s, n) => Completed(s, n + k)
    case Exhausted(s, n) => Exhausted(s, n + k)
    case TooLargeAt(s, n) => TooLargeAt(s, n + k)
  }

  /** Calling Done on each byte of `bytes` in turn until it returns true or throws. */
  function Feed(s: ReaderState, bytes: seq<byte>): (r: Run)
    ensures r.consumed <= |bytes|
    ensures r.Exhausted? ==> r.consumed == |bytes|
    ensures !r.Exhausted? ==> r.consumed >= 1
    decreases |bytes|
  {
    if bytes == [] then Exhausted(s, 0)
    else
      match Step(s, bytes[0])
      case Overflowed(t) => TooLargeAt(t, 1)
      case Advanced(t, done) =>
        if done then Completed(t, 1) else Later(Feed(t, bytes[1..]), 1)
  }

  /** The value a TryDecode call returns for a run: true when Done returned true, false when
      the bytes ran out first, the exception when the value was too large. */
  function Answer(run: Run): (r: Result<bool>)
    ensures r == Ok(true) <==> run.Completed?
    ensures r == Ok(false) <==> run.Exhausted?
    ensures r.Err? <==> run.TooLargeAt?
  {
    match run
    case Completed(_, _) => Ok(true)
    case Exhausted(_, _) => Ok(false)
    case TooLargeAt(_, _) => Err(TooLarge)
  }

  /** Feeding two pieces one after the other is feeding their concatenation: the second piece
      is only looked at when the first one ran out. */
  lemma {:induction false} FeedAppend(s: ReaderState, a: seq<byte>, b: seq<byte>)
    ensures Feed(s, a + b) ==
      if Feed(s, a).Exhausted? then Later(Feed(Feed(s, a).state, b), |a|) else Feed(s, a)
    decreases |a|
  {
    if a == [] {
      assert a + b == b;
    } else {
      assert (a + b)[0] == a[0];
      assert (a + b)[1..] == a[1..] + b;
      match Step(s, a[0])
      case Overflowed(t) =>
      case Advanced(t, done) =>
        if !done {
          FeedAppend(t, a[1..], b);
        }
    }
  }

  /** A reader that is not ready when fed ends up ready exactly when Done returned true, as the
      TryDecode tests check with `ok == reader.Ready`. */
  lemma {:induction false} FeedReadyIffCompleted(s: ReaderState, bytes: seq<byte>)
    requires s.size != 0
    ensures Feed(s, bytes).Completed? <==> Feed(s, bytes).state.size == 0
    decreases |bytes|
  {
    if bytes != [] {
      StepReadyIffDone(s, bytes[0]);
      match Step(s, bytes[0])
      case Overflowed(t) =>
      case Advanced(t, done) =>
        if !done {
          FeedReadyIffCompleted(t, bytes[1..]);
        }
    }
  }

  /** A reader that has taken the header and the tail bytes `p`, with `m` more to come,
      finishes after exactly `m` more bytes, with Base added to the big-endian tail, or throws
      at that last byte when the tail is above Max; with fewer bytes it runs out. */
  lemma {:induction false} FeedTail(p: seq<byte>, m: nat, rest: seq<byte>)
    requires 1 <= m && |p| + m <= 8
    ensures |rest| < m ==>
      Feed(ReaderState(m, Accumulated(p)), rest) == Exhausted(ReaderState(m - |rest|, Accumulated(p + rest)), |rest|)
    ensures |rest| >= m && BigEndian(p + rest[..m]) <= Max ==>
      Feed(ReaderState(m, Accumulated(p)), rest) == Completed(ReaderState(0, BigEndian(p + rest[..m]) + Base), m)
    ensures |rest| >= m && BigEndian(p + rest[..m]) > Max ==>
      Feed(ReaderState(m, Accumulated(p)), rest) == TooLargeAt(ReaderState(1, Accumulated(p + rest[..m])), m)
    decreases m
  {
    if rest == [] {
      assert p + rest == p;
    } else {
      var b := rest[0];
      var q := p + [b];
      StepTail(p, m, b);
      assert rest[..1] == [b];
      if m > 1 {
        FeedTail(q, m - 1, rest[1..]);
        assert q + rest[1..] == p + rest;
        if |rest| >= m {
          assert q + rest[1..][..m - 1] == p + rest[..m];
        }
      }
    }
  }

  /** One tail byte: it is shifted in without loss; only the last tail byte can overflow. */
  lemma StepTail(p: seq<byte>, m: nat, b: byte)
    requires 1 <= m && |p| + m <= 8
    ensures m > 1 ==> BigEndian(p + [b]) <= Max
    ensures Step(ReaderState(m, Accumulated(p)), b) ==
      if BigEndian(p + [b]) > Max then Overflowed(ReaderState(m, Accumulated(p + [b])))
      else if m > 1 then Advanced(ReaderState(m - 1, Accumulated(p + [b])), false)
      else Advanced(ReaderState(0, BigEndian(p + [b]) + Base), true)
  {
    ShiftInByte(p, b);
    if m > 1 {
      BigEndianBound(p + [b]);
      Pow256Monotone(|p| + 1, 7);
      assert Pow256(7) == 0x100_0000_0000_0000;
    }
  }

  /** The reader, fed from a fresh start, agrees with the one-shot decoder: it runs out exactly
      when the decoder lacks bytes, throws exactly where the decoder returns the sentinel 0
      for an overflowing tail, and otherwise ends ready with the decoder's value after the
      same number of bytes. */
  lemma FeedMatchesDecoding(bytes: seq<byte>)
    ensures Feed(Initial, bytes).Exhausted? <==> Decoding(bytes).Err?
    ensures Feed(Initial, bytes).TooLargeAt? <==> Overflows(bytes)
    ensures Feed(Initial, bytes).TooLargeAt? ==> Feed(Initial, bytes).consumed == 9
    ensures Decoding(bytes).Ok? && !Overflows(bytes) ==>
      Feed(Initial, bytes) == Completed(ReaderState(0, Decoding(bytes).value.value), Decoding(bytes).value.consumed)
  {
    if bytes != [] && bytes[0] >= Base {
      var n := TailLength(bytes[0]);
      var rest := bytes[1..];
      assert Accumulated([]) == 0;
      FeedTail([], n, rest);
      assert [] + rest == rest;
      if |rest| >= n {
        assert [] + rest[..n] == bytes[1..1 + n];
        DecodingOverflow(bytes);
      }
    }
  }

  /** A fresh reader fed an encoding, whatever follows it, returns true at its last byte and
      is then ready with the encoded value. */
  lemma FeedEncoding(value: u64, rest: seq<byte>)
    ensures Feed(Initial, Encoding(value) + rest) == Completed(ReaderState(0, value), |Encoding(value)|)
  {
    EncodingRoundTrip(value, rest);
    EncodingShape(value);
    FeedMatchesDecoding(Encoding(value) + rest);
  }

  /** The TryDecode examples of the tests: nothing, a one-byte value with and without a
      following byte, and a two-byte value with and without following bytes. */
  lemma TryDecodeExamples()
    ensures Feed(Initial, []) == Exhausted(Initial, 0)
    ensures Feed(Initial, [0]) == Completed(ReaderState(0, 0), 1)
    ensures Feed(Initial, [0, 1]) == Completed(ReaderState(0, 0), 1)
    ensures Feed(Initial, [0xF8, 1]) == Completed(ReaderState(0, 249), 2)
    ensures Feed(Initial, [0xF8, 1, 2, 3]) == Completed(ReaderState(0, 249), 2)
  {
    assert Feed(Initial, [0xF8, 1]) == Completed(ReaderState(0, 249), 2) by {
      var t := Step(Initial, 0xF8).next;
      assert [0xF8, 1][1..] == [1];
      assert Feed(t, [1]) == Completed(ReaderState(0, 249), 1);
    }
    assert Feed(Initial, [0xF8, 1, 2, 3]) == Completed(ReaderState(0, 249), 2) by {
      FeedAppend(Initial, [0xF8, 1], [2, 3]);
      assert [0xF8, 1] + [2, 3] == [0xF8, 1, 2, 3];
    }
  }

  /** At the top of the range: a nine-byte encoding whose first seven tail bytes are 0xFF
      completes with 2^64 - 8 + its last byte up to 0x07 (2^64 - 1 for 0x07), and makes Done
      throw at the ninth byte from 0x08 on, as for the tails 0x08, 0x80 and 0xFF of the tests. */
  lemma TopOfRangeRead(b: seq<byte>)
    requires |b| == 9 && b[0] == 0xFF && forall i :: 1 <= i < 8 ==> b[i] == 0xFF
    ensures b[8] >= 8 ==> Feed(Initial, b).TooLargeAt?
    ensures b[8] < 8 ==> Feed(Initial, b) == Completed(ReaderState(0, U64 - 8 + b[8]), 9)
  {
    TopOfRange(b);
    FeedMatchesDecoding(b);
  }

  /** ILIntReader: the two private fields and the members that read and update them. */
  class ILIntReader {
    var size: int
    var value: u64

    function State(): ReaderState
      reads this
    {
      ReaderState(size, value)
    }

    /** Ready: a completely decoded value is available, so Value does not throw. */
    predicate Ready()
      reads this
      ensures Ready() <==> Value().Ok?
    {
      size == 0
    }

    /** new ILIntReader(): starts out reset. */
    constructor ()
      ensures State() == Initial && !Ready()
    {
      size := -1;
      value := 0;
    }

    /** Value: the decoded value once ready, InvalidOperationException before. */
    function Value(): (r: Result<u64>)
      reads this
      ensures r.Ok? <==> size == 0
      ensures r.Ok? ==> r.value == value
      ensures r.Err? ==> r.error == NotReady
    {
      if size == 0 then Ok(value) else Err(NotReady)
    }

    /** Done(nextByte): processes one byte; true when no more bytes are needed. */
    method Done(nextByte: byte) returns (r: Result<bool>)
      modifies this
      ensures match Step(old(State()), nextByte)
        case Advanced(t, d) => r == Ok(d) && State() == t
        case Overflowed(t) => r == Err(TooLarge) && State() == t
    {
      if size < 0 {
        if nextByte < Base {
          value := nextByte;
          size := 0;
          return Ok(true);
        }
        size := nextByte - Base + 1;
        return Ok(false);
      }
      value := ShiftIn(value, nextByte);
      if value > Max {
        return Err(TooLarge);
      }
      size := size - 1;
      if size > 0 {
        return Ok(false);
      }
      value := value + Base;
      r := Ok(true);
    }

    /** Reset: back to the initial state, to decode a new value. */
    method Reset()
      modifies this
      ensures State() == Initial && !Ready()
    {
      size := -1;
      value := 0;
    }

    /** TryDecode(ReadOnlySpan<byte>, out consumed): calls Done on each byte until it returns
        true; `consumed` counts the bytes handed to Done, the one that threw included. */
    method TryDecodeSpan(bytes: seq<byte>) returns (r: Result<bool>, consumed: nat)
      modifies this
      ensures var run := Feed(old(State()), bytes);
        r == Answer(run) && consumed == run.consumed && State() == run.state
    {
      consumed := 0;
      while consumed < |bytes|
        invariant consumed <= |bytes|
        invariant Feed(old(State()), bytes) == Later(Feed(State(), bytes[consumed..]), consumed)
      {
        var b := bytes[consumed];
        assert bytes[consumed..][1..] == bytes[consumed + 1..];
        consumed := consumed + 1;
        r := Done(b);
        if r != Ok(false) {
          return;
        }
      }
      r := Ok(false);
    }

    /** TryDecode(IEnumerable<byte>, out consumed): the same loop over an enumerable. */
    method TryDecodeEnumerable(bytes: seq<byte>) returns (r: Result<bool>, consumed: nat)
      modifies this
      ensures var run := Feed(old(State()), bytes);
        r == Answer(run) && consumed == run.consumed && State() == run.state
    {
      r, consumed := TryDecodeSpan(bytes);
    }

    /** TryDecode(in ReadOnlySequence<byte>, out consumed): the span loop over each segment
        in turn, adding up what each consumed, until one returns true. It behaves as one run
        over the segments laid end to end. */
    method TryDecodeSequence(segments: seq<seq<byte>>) returns (r: Result<bool>, consumed: nat)
      modifies this
      ensures var run := Feed(old(State()), Flatten(segments));
        r == Answer(run) && State() == run.state && (r.Ok? ==> consumed == run.consumed)
    {
      consumed := 0;
      var i := 0;
      while i < |segments|
        invariant i <= |segments|
        invariant Feed(old(State()), Flatten(segments[..i])) == Exhausted(State(), consumed)
      {
        ghost var before := State();
        assert segments[..i + 1][..i] == segments[..i];
        FeedAppend(old(State()), Flatten(segments[..i]), segments[i]);
        var here: nat;
        r, here := TryDecodeSpan(segments[i]);
        if r.Err? {
          FlattenPrefix(old(State()), segments, i + 1);
          return;
        }
        consumed := consumed + here;
        if r == Ok(true) {
          FlattenPrefix(old(State()), segments, i + 1);
          return;
        }
        i := i + 1;
      }
      assert segments[..i] == segments;
      r := Ok(false);
    }
  }

  /** The segments of a ReadOnlySequence laid end to end. */
  function Flatten(segments: seq<seq<byte>>): seq<byte>
    decreases |segments|
  {
    if segments == [] then [] else Flatten(segments[..|segments| - 1]) + segments[|segments| - 1]
  }

  /** Once a prefix of the segments stops the run, the segments after it are never read. */
  lemma {:induction false} FlattenPrefix(s: ReaderState, segments: seq<seq<byte>>, k: nat)
    requires k <= |segments| && !Feed(s, Flatten(segments[..k])).Exhausted?
    ensures Feed(s, Flatten(segments)) == Feed(s, Flatten(segments[..k]))
    decreases |segments| - k
  {
    if k < |segments| {
      assert segments[..k + 1][..k] == segments[..k];
      FeedAppend(s, Flatten(segments[..k]), segments[k]);
      FlattenPrefix(s, segments, k + 1);
    } else {
      assert segments[..k] == segments;
    }
  }
}
