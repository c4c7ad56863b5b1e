/** The early draft's codec (package `otr4jechoserver`, class `EchoProtocol`):
    one value per frame, a 4-byte unsigned big-endian length followed by the
    bytes. Reading is the same single-read scheme as the `protocol` module,
    except that end-of-stream on the very first read is a clean end (`null`)
    instead of an error. */
module DraftProtocol {
  import opened Bytes
  import opened Wrappers
  import opened Failures
  import opened Streams
  import EchoProtocol

  /** The bytes `writeMessage` emits for one value: its length as four
      unsigned big-endian bytes, then the value. */
  function DraftFrame(message: seq<byte>): (r: seq<byte>)
    requires |message| <= INT_MAX
    ensures |r| == 4 + |message| && r[4..] == message
    ensures Value(r[..4]) == |message|
  {
    var r := Encode(|message|, 4) + message;
    assert r[..4] == Encode(|message|, 4);
    r
  }

  /** Four bytes whose value is the length of `m` are the prefix of `m`'s frame. */
  lemma HeaderFrame(header: seq<byte>, m: seq<byte>)
    requires |header| == 4 && |m| <= INT_MAX && EchoProtocol.ParseLength(header) == |m|
    ensures DraftFrame(m) == header + m
  {
    EncodeValue(header);
  }

  /** `readMessage`: `None` for end-of-stream before the length, otherwise
      one read of four length bytes and one read of the payload. A negative
      length fails allocating the array (a RuntimeException). */
  function ReadMessage(s: Stream): (r: Result<(Option<seq<byte>>, Stream), Failure>)
    ensures r.Err? ==> r.error == ProtocolException || r.error == NegativeArraySize
    ensures r.Ok? && r.value.0.None? <==> s == []
    ensures r.Ok? && r.value.0.None? ==> r.value.1 == []
    ensures r.Ok? && r.value.0.Some? ==>
      |r.value.0.value| <= INT_MAX &&
      |Content(s)| == 4 + |r.value.0.value| + |Content(r.value.1)|
  {
    match Read(s, 4)
    case Eof => Ok((None, s))
    case Got(length, s1) =>
      if |length| != 4 then Err(ProtocolException)
      else
        var n := EchoProtocol.ParseLength(length);
        if n < 0 then Err(NegativeArraySize)
        else
          match Read(s1, n)
          case Eof => Err(ProtocolException)
          case Got(message, s2) =>
            if |message| != n then Err(ProtocolException)
            else Ok((Some(message), s2))
  }

  /** `writeMessage`: the 4-byte length, the payload, then a flush. The
      length is an array length, so it is never negative. */
  function WriteMessage(out: Sink, message: seq<byte>): (r: Result<Sink, Failure>)
    requires |message| <= INT_MAX
    ensures r.Ok? <==> out.open
    ensures r.Err? ==> r.error == IOException
    ensures r.Ok? ==> r.value.data == out.data + DraftFrame(message)
    ensures r.Ok? ==> r.value.flushed == |r.value.data| && r.value.open
  {
    match Write(out, Encode(|message|, 4))
    case Err(e) => Err(e)
    case Ok(out1) =>
      match Write(out1, message)
      case Err(e) => Err(e)
      case Ok(out2) =>
        assert out2.data == out.data + DraftFrame(message);
        Ok(Flush(out2))
  }

  /** `readMessage` with a negative length reported as a ProtocolException
      instead of failing the array allocation. */
  function ReadMessageChecked(s: Stream): (r: Result<(Option<seq<byte>>, Stream), Failure>)
    ensures r.Err? ==> r.error == ProtocolException
    ensures r.Err? <==> ReadMessage(s).Err?
    ensures r.Ok? ==> r == ReadMessage(s)
  {
    match ReadMessage(s)
    case Err(_) => Err(ProtocolException)
    case Ok(v) => Ok(v)
  }

  // ---------------------------------------------------------------------
  // Properties

  /** The draft's frames are byte for byte the frames of the `protocol` module. */
  lemma SameFrame(message: seq<byte>)
    requires |message| <= INT_MAX
    ensures DraftFrame(message) == EchoProtocol.Frame(message)
  {
    EchoProtocol.EncodeLengthIsBigEndian(|message|);
  }

  /** Apart from the clean end, reading a draft message is reading a value of
      the `protocol` module: same result, same failure, same bytes consumed. */
  lemma SameAsReadValue(s: Stream)
    requires s != []
    ensures ReadMessage(s).Ok? <==> EchoProtocol.ReadValue(s).Ok?
    ensures ReadMessage(s).Ok? ==>
      ReadMessage(s).value == (Some(EchoProtocol.ReadValue(s).value.0), EchoProtocol.ReadValue(s).value.1)
    ensures ReadMessage(s).Err? ==> ReadMessage(s).error == EchoProtocol.ReadValue(s).error
  {
  }

  /** The bytes a successful `readMessage` consumed are the frame of the
      message it returns. */
  lemma ReadMessageFrame(s: Stream)
    requires ReadMessage(s).Ok? && ReadMessage(s).value.0.Some?
    ensures Content(s) == DraftFrame(ReadMessage(s).value.0.value) + Content(ReadMessage(s).value.1)
  {
    SameAsReadValue(s);
    SameFrame(ReadMessage(s).value.0.value);
  }

  /** End-of-stream before a frame is the graceful end. */
  lemma EofIsNone()
    ensures ReadMessage([]) == Ok((None, []))
  {
  }

  /** A frame that arrives at the start of a chunk, whole, is read back; the
      bytes behind it stay unread. */
  lemma {:induction false} ReadWholeFrame(m: seq<byte>, tail: seq<byte>, rest: Stream)
    requires |m| <= INT_MAX
    ensures ReadMessage(Push(DraftFrame(m) + tail, rest)) == Ok((Some(m), Push(tail, rest)))
  {
    SameFrame(m);
    EchoProtocol.ReadValueWholeFrame(m, tail, rest);
    SameAsReadValue(Push(DraftFrame(m) + tail, rest));
  }

  /** A zero-length frame is an empty message, distinct from the clean end. */
  lemma EmptyFrameIsNotEnd(rest: Stream)
    ensures DraftFrame([]) == [0, 0, 0, 0]
    ensures ReadMessage(Push([0, 0, 0, 0], rest)) == Ok((Some([]), rest))
  {
    assert DraftFrame([]) + [] == [0, 0, 0, 0];
    ReadWholeFrame([], [], rest);
  }

  /** A first chunk of one to three bytes is a short length read. */
  lemma ShortLengthRead(s: Stream)
    requires |s| > 0 && |s[0]| < 4
    ensures ReadMessage(s) == Err(ProtocolException)
  {
  }

  /** A payload that the first chunk does not hold whole is a short read,
      even when the rest of it follows in the next chunk. */
  lemma {:induction false} SplitPayloadFails(m: seq<byte>, k: nat, rest: Stream)
    requires |m| <= INT_MAX && 0 < k < |m|
    ensures ReadMessage([DraftFrame(m)[..4 + k]] + Push(m[k..], rest)) == Err(ProtocolException)
  {
    SameFrame(m);
    var s := [EchoProtocol.Frame(m)[..4 + k]] + Push(m[k..], rest);
    EchoProtocol.SplitPayloadFails(m, k, rest);
    SameAsReadValue(s);
    assert ReadMessage(s) == Err(ProtocolException);
  }

  /** A length prefix with its top bit set cannot be allocated. */
  lemma {:induction false} TopBitFails(header: seq<byte>, tail: seq<byte>, rest: Stream)
    requires |header| == 4 && header[0] >= 128
    ensures ReadMessage(Push(header + tail, rest)) == Err(NegativeArraySize)
  {
    EchoProtocol.TopBitUnreadable(header, tail, rest);
    SameAsReadValue(Push(header + tail, rest));
  }
}
