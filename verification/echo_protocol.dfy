/** The Java `protocol` module's length-value codec (class `EchoProtocol`).
    A value travels as a 4-byte big-endian length followed by the bytes;
    a message is an address value followed by a content value. Reading
    issues exactly one `read` for the length and one for the payload, so a
    short read of either is a ProtocolException, even at a frame boundary. */
module EchoProtocol {
  import opened Bytes
  import opened Wrappers
  import opened Failures
  import opened Streams
  import opened Numerals

  const DEFAULT_PORT: nat := 8080

  /** Text on the wire: its UTF-8 bytes. */
  type Text = seq<byte>

  datatype Message = Message(address: Text, content: Text)

  /** The two endpoints of a connected socket. */
  datatype Connection = Connection(localHost: Text, localPort: nat, remoteHost: Text, remotePort: nat)

  const COLON: byte := 58  // ':'

  function Zeros(k: nat): (r: seq<byte>)
    ensures |r| == k && forall i :: 0 <= i < k ==> r[i] == 0
  {
    seq(k, i => 0)
  }

  /** `encodeLength`: the two's-complement bytes of the length, right-aligned
      in a 4-byte array; a negative length is an IllegalArgumentException. */
  function EncodeLength(length: int32): (r: Result<seq<byte>, Failure>)
    ensures r.Ok? <==> length >= 0
    ensures r.Err? ==> r.error.IllegalArgument?
    ensures r.Ok? ==> |r.value| == 4 && Value(r.value) == length
  {
    if length < 0 then Err(IllegalArgument("Illegal value for length. Length must be zero or positive."))
    else
      var bytes := ToByteArray(length);
      var offset := if 4 - |bytes| > 0 then 4 - |bytes| else 0;
      ToByteArrayLength(length, 4);
      LeadingZeros(Zeros(offset), bytes);
      assert bytes[..4 - offset] == bytes;
      Ok(Zeros(offset) + bytes[..4 - offset])
  }

  /** `parseLength`: the four bytes read as an unsigned number, then cut to
      a signed `int`, so a prefix with its top bit set gives a negative length. */
  function ParseLength(lengthBytes: seq<byte>): (r: int32)
    requires |lengthBytes| == 4
    ensures r < 0 <==> lengthBytes[0] >= 128
    ensures r >= 0 ==> r == Value(lengthBytes)
    ensures r < 0 ==> r == Value(lengthBytes) - TWO_32
  {
    ValueFirst(lengthBytes);
    assert Value(lengthBytes[1..]) < 0x100_0000;
    IntValue(Value(lengthBytes))
  }

  /** The bytes `writeValue` emits for one value: length prefix, then the value. */
  function Frame(value: Text): (r: seq<byte>)
    requires |value| <= INT_MAX
    ensures |r| == 4 + |value| && r[4..] == value
    ensures ParseLength(r[..4]) == |value|
  {
    var prefix := EncodeLength(|value|).value;
    assert (prefix + value)[..4] == prefix;
    prefix + value
  }

  /** `readValue`: one read of four length bytes, one read of the payload. */
  function ReadValue(s: Stream): (r: Result<(Text, Stream), Failure>)
    ensures r.Err? ==> r.error == ProtocolException || r.error == NegativeArraySize
    ensures r.Ok? ==> |r.value.0| <= INT_MAX
    ensures r.Ok? ==> Content(s) == Frame(r.value.0) + Content(r.value.1)
  {
    match Read(s, 4)
    case Eof => Err(ProtocolException)
    case Got(header, s1) =>
      if |header| != 4 then Err(ProtocolException)
      else
        var length := ParseLength(header);
        if length < 0 then Err(NegativeArraySize)
        else
          match Read(s1, length)
          case Eof => Err(ProtocolException)
          case Got(entry, s2) =>
            if |entry| != length then Err(ProtocolException)
            else
              EncodeValueLength(header, length);
              Ok((entry, s2))
  }

  /** The length prefix of a non-negative length is the one `encodeLength` writes. */
  lemma EncodeValueLength(header: seq<byte>, length: int32)
    requires |header| == 4 && length >= 0 && ParseLength(header) == length
    ensures EncodeLength(length).value == header
  {
    ValueInjective(EncodeLength(length).value, header);
  }

  /** `receiveMessage`: an address value, then a content value. */
  function ReceiveMessage(s: Stream): (r: Result<(Message, Stream), Failure>)
    ensures r.Err? ==> r.error == ProtocolException || r.error == NegativeArraySize
    ensures r.Ok? ==> |r.value.0.address| <= INT_MAX && |r.value.0.content| <= INT_MAX
    ensures r.Ok? ==>
      Content(s) == Frame(r.value.0.address) + Frame(r.value.0.content) + Content(r.value.1)
    ensures r.Ok? ==> |Content(r.value.1)| + 8 <= |Content(s)|
  {
    var (address, s1) :- ReadValue(s);
    var (content, s2) :- ReadValue(s1);
    Ok((Message(address, content), s2))
  }

  predicate ValidValues(values: seq<Text>) {
    forall i :: 0 <= i < |values| ==> |values[i]| <= INT_MAX
  }

  /** Reference definition: one (address, part) pair of frames per part, in order. */
  function Pairs(address: Text, parts: seq<Text>): seq<byte>
    requires |address| <= INT_MAX && ValidValues(parts)
  {
    if |parts| == 0 then [] else Frame(address) + Frame(parts[0]) + Pairs(address, parts[1..])
  }

  lemma ValidTail(values: seq<Text>)
    requires |values| > 0 && ValidValues(values)
    ensures ValidValues(values[1..])
  {
    assert forall i :: 0 <= i < |values[1..]| ==> values[1..][i] == values[i + 1];
  }

  /** Writing the first pair and then the rest writes all the pairs. */
  lemma PairsCons(written: seq<byte>, address: Text, parts: seq<Text>)
    requires |address| <= INT_MAX && |parts| > 0 && ValidValues(parts)
    ensures ValidValues(parts[1..])
    ensures written + Frame(address) + Frame(parts[0]) + Pairs(address, parts[1..]) == written + Pairs(address, parts)
  {
    ValidTail(parts);
  }

  /** The body of `sendMessage`'s loop: append each pair to what was written so far. */
  function WriteParts(written: seq<byte>, address: Text, parts: seq<Text>): (r: seq<byte>)
    requires |address| <= INT_MAX && ValidValues(parts)
    ensures r == written + Pairs(address, parts)
    decreases |parts|
  {
    if |parts| == 0 then written
    else
      var rest := parts[1..];
      assert forall i :: 0 <= i < |rest| ==> rest[i] == parts[i + 1];
      var pair := Frame(address) + Frame(parts[0]);
      assert written + pair + Pairs(address, rest) == written + Pairs(address, parts);
      WriteParts(written + pair, address, rest)
  }

  /** `sendMessage(out, address, messages...)`: the address is repeated before
      every part, and the stream is flushed even when there are no parts. On
      a closed socket the first write is an IOException; with no parts there
      is no write, and the flush alone does not fail. */
  function SendMessage(out: Sink, address: Text, parts: seq<Text>): (r: Result<Sink, Failure>)
    requires |address| <= INT_MAX && ValidValues(parts)
    ensures r.Ok? <==> out.open || |parts| == 0
    ensures r.Err? ==> r.error == IOException
    ensures r.Ok? ==> r.value.data == out.data + Pairs(address, parts) && r.value.open == out.open
    ensures r.Ok? ==> r.value.flushed == |r.value.data|
  {
    if !out.open && |parts| > 0 then Err(IOException)
    else Ok(Flush(out.(data := WriteParts(out.data, address, parts))))
  }

  /** `sendMessage(out, message)`. */
  function SendOne(out: Sink, m: Message): (r: Result<Sink, Failure>)
    requires |m.address| <= INT_MAX && |m.content| <= INT_MAX
    ensures r.Ok? <==> out.open
    ensures r.Ok? ==> r.value.data == out.data + Frame(m.address) + Frame(m.content)
  {
    assert Pairs(m.address, [m.content]) == Frame(m.address) + Frame(m.content) + Pairs(m.address, []);
    SendMessage(out, m.address, [m.content])
  }

  /** "host:port" for an endpoint. */
  function EndpointID(host: Text, port: nat): (r: Text)
    ensures |r| >= |host| + 2 && r[..|host|] == host && r[|host|] == COLON
    ensures AllDigits(r[|host| + 1..]) && DecimalValue(r[|host| + 1..]) == port
  {
    var r := host + [COLON] + DecimalBytes(port);
    assert r[|host| + 1..] == DecimalBytes(port);
    r
  }

  /** `generateLocalID`: the local address and port of the socket. */
  function GenerateLocalID(c: Connection): (r: Text)
    ensures |r| >= |c.localHost| + 2 && r[..|c.localHost|] == c.localHost && r[|c.localHost|] == COLON
    ensures AllDigits(r[|c.localHost| + 1..]) && DecimalValue(r[|c.localHost| + 1..]) == c.localPort
  {
    EndpointID(c.localHost, c.localPort)
  }

  /** `generateRemoteID`: the peer's address and port. */
  function GenerateRemoteID(c: Connection): (r: Text)
    ensures |r| >= |c.remoteHost| + 2 && r[..|c.remoteHost|] == c.remoteHost && r[|c.remoteHost|] == COLON
    ensures AllDigits(r[|c.remoteHost| + 1..]) && DecimalValue(r[|c.remoteHost| + 1..]) == c.remotePort
  {
    EndpointID(c.remoteHost, c.remotePort)
  }

  // ---------------------------------------------------------------------
  // Properties

  /** `parseLength` undoes `encodeLength` for every non-negative `int`. */
  lemma ParseEncodeLength(n: int32)
    requires n >= 0
    ensures ParseLength(EncodeLength(n).value) == n
  {
  }

  /** The Java encoding is plain 4-byte big-endian, the format the Rust
      client and the early draft write. */
  lemma EncodeLengthIsBigEndian(n: int32)
    requires n >= 0
    ensures EncodeLength(n).value == Encode(n, 4)
  {
    ValueInjective(EncodeLength(n).value, Encode(n, 4));
  }

  /** A value that arrives at the start of a chunk, with its payload in that
      same chunk, is read back whole; the bytes after it stay unread. */
  lemma {:induction false} ReadValueWholeFrame(v: Text, tail: seq<byte>, rest: Stream)
    requires |v| <= INT_MAX
    ensures ReadValue(Push(Frame(v) + tail, rest)) == Ok((v, Push(tail, rest)))
  {
    var f := Frame(v) + tail;
    var s := Push(f, rest);
    assert f[..4] == Frame(v)[..4];
    assert f[4..] == v + tail;
    var s1 := Push(f[4..], rest);
    assert Read(s, 4) == Got(f[..4], s1);
    assert (v + tail)[..|v|] == v;
    assert (v + tail)[|v|..] == tail;
    if |v| > 0 {
      assert Read(s1, |v|) == Got(v, Push(tail, rest));
    }
  }

  /** The empty value is the prefix 00 00 00 00 and reads back as empty. */
  lemma EmptyValue(rest: Stream)
    ensures Frame([]) == [0, 0, 0, 0]
    ensures ReadValue(Push(Frame([]), rest)) == Ok(([], rest))
  {
    EncodeLengthIsBigEndian(0);
    assert Frame([]) + [] == Frame([]);
    ReadValueWholeFrame([], [], rest);
  }

  /** End of stream at a frame boundary is a ProtocolException, not a clean end. */
  lemma EofIsProtocolError()
    ensures ReadValue([]) == Err(ProtocolException)
    ensures ReceiveMessage([]) == Err(ProtocolException)
  {
  }

  /** A first chunk of one to three bytes is a short length read. */
  lemma ShortLengthRead(s: Stream)
    requires |s| > 0 && |s[0]| < 4
    ensures ReadValue(s) == Err(ProtocolException)
  {
  }

  /** A frame whose payload is split over two chunks is rejected even though
      every byte of it arrives: there is no retry loop. */
  lemma {:induction false} SplitPayloadFails(v: Text, k: nat, rest: Stream)
    requires |v| <= INT_MAX && 0 < k < |v|
    ensures ReadValue([Frame(v)[..4 + k]] + Push(v[k..], rest)) == Err(ProtocolException)
  {
    var f := Frame(v);
    var s := [f[..4 + k]] + Push(v[k..], rest);
    assert s[1..] == Push(v[k..], rest);
    assert f[..4 + k][..4] == f[..4];
    assert f[..4 + k][4..] == v[..k];
    var s1 := Push(v[..k], Push(v[k..], rest));
    assert Read(s, 4) == Got(f[..4], s1);
    assert Read(s1, |v|) == Got(v[..k], Push(v[k..], rest));
  }

  /** A length prefix with its top bit set would need a negative-size array:
      such lengths (2^31 and above) can never be read. */
  lemma {:induction false} TopBitUnreadable(header: seq<byte>, tail: seq<byte>, rest: Stream)
    requires |header| == 4 && header[0] >= 128
    ensures ReadValue(Push(header + tail, rest)) == Err(NegativeArraySize)
  {
    var f := header + tail;
    assert f[..4] == header;
    assert Read(Push(f, rest), 4).data == header;
  }

  /** What `sendMessage(out, a, c)` writes is received as `Message(a, c)`
      when it arrives in one chunk; bytes behind it are left unread. */
  lemma {:induction false} ReceiveSentMessage(m: Message, tail: seq<byte>, rest: Stream)
    requires |m.address| <= INT_MAX && |m.content| <= INT_MAX
    ensures var written := SendOne(NewSink(), m).value.data;
      ReceiveMessage(Push(written + tail, rest)) == Ok((m, Push(tail, rest)))
  {
    var sent := SendOne(NewSink(), m);
    assert sent.Ok? && sent.value.data == [] + Frame(m.address) + Frame(m.content);
    var written := sent.value.data;
    assert written == Frame(m.address) + Frame(m.content);
    assert written + tail == Frame(m.address) + (Frame(m.content) + tail);
    ReadValueWholeFrame(m.address, Frame(m.content) + tail, rest);
    ReadValueWholeFrame(m.content, tail, rest);
  }

  /** What `sendMessage(out, m)` writes is received as `m` also when each
      frame arrives as a chunk of its own. */
  lemma {:induction false} ReceiveFramePerChunk(m: Message, rest: Stream)
    requires |m.address| <= INT_MAX && |m.content| <= INT_MAX
    ensures ReceiveMessage([Frame(m.address), Frame(m.content)] + rest) == Ok((m, rest))
  {
    var s := [Frame(m.address), Frame(m.content)] + rest;
    assert Frame(m.address) + [] == Frame(m.address);
    assert Frame(m.content) + [] == Frame(m.content);
    assert s == [Frame(m.address)] + ([Frame(m.content)] + rest);
    assert s == Push(Frame(m.address) + [], Push(Frame(m.content) + [], rest));
    ReadValueWholeFrame(m.address, [], Push(Frame(m.content) + [], rest));
    ReadValueWholeFrame(m.content, [], rest);
  }

  /** A multi-part send is read back part by part, each under the same address. */
  lemma {:induction false} ReceiveFirstPart(address: Text, parts: seq<Text>, tail: seq<byte>, rest: Stream)
    requires |address| <= INT_MAX && ValidValues(parts) && |parts| > 0
    ensures ReceiveMessage(Push(Pairs(address, parts) + tail, rest))
      == Ok((Message(address, parts[0]), Push(Pairs(address, parts[1..]) + tail, rest)))
  {
    var more := Pairs(address, parts[1..]) + tail;
    assert Pairs(address, parts) + tail == Frame(address) + (Frame(parts[0]) + more);
    ReadValueWholeFrame(address, Frame(parts[0]) + more, rest);
    ReadValueWholeFrame(parts[0], more, rest);
  }
}
