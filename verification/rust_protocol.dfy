/** The Rust client's codec (`client-otrr/src/protocol.rs`). The length is
    `value.len() as u32` (a cast that keeps the low 32 bits) in big-endian
    order; a message is built in one buffer and handed to a single `write`;
    values are read with `read_exact`, so how the bytes are chunked does not
    matter. */
module RustProtocol {
  import opened Bytes
  import opened Wrappers
  import opened Failures
  import opened Streams

  /** `write_value`: appends `(len as u32).to_be_bytes()` and the value. */
  function WriteValue(buffer: seq<byte>, value: seq<byte>): (r: seq<byte>)
    ensures |r| == |buffer| + 4 + |value|
    ensures r[..|buffer|] == buffer && r[|buffer| + 4..] == value
    ensures Value(r[|buffer|..|buffer| + 4]) == Low32(|value|)
  {
    Pow256Four();
    var header := Encode(Low32(|value|), 4);
    var r := buffer + header + value;
    assert r[|buffer|..|buffer| + 4] == header;
    r
  }

  /** Appending a value to a buffer is appending its frame. */
  lemma WriteValueAppends(buffer: seq<byte>, value: seq<byte>)
    ensures WriteValue(buffer, value) == buffer + WriteValue([], value)
  {
    Pow256Four();
    var header := Encode(Low32(|value|), 4);
    assert buffer + header + value == buffer + ([] + header + value);
  }

  /** The single buffer `write_message` builds: address value, content value. */
  function MessageBuffer(address: seq<byte>, content: seq<byte>): (r: seq<byte>)
    ensures |r| == 8 + |address| + |content|
    ensures r == WriteValue([], address) + WriteValue([], content)
  {
    WriteValueAppends(WriteValue([], address), content);
    WriteValue(WriteValue([], address), content)
  }

  /** The layout of that buffer: each length header holds the exact length. */
  lemma MessageBufferLayout(address: seq<byte>, content: seq<byte>)
    requires |address| < TWO_32 && |content| < TWO_32
    ensures var r := MessageBuffer(address, content);
      Value(r[..4]) == |address| && r[4..4 + |address|] == address
      && Value(r[4 + |address|..8 + |address|]) == |content| && r[8 + |address|..] == content
  {
    var first := WriteValue([], address);
    var r := WriteValue(first, content);
    assert r[..4] == first[..4];
    assert r[4..4 + |address|] == first[4..];
  }

  /** `write_message` on a connection that takes `accepted` bytes from this
      one `write`: the whole buffer when there is room, otherwise only its
      first `accepted` bytes, and the count is returned for the caller to
      check. A closed connection is a BrokenPipe error and nothing is written. */
  function WriteMessage(dest: Sink, accepted: nat, address: seq<byte>, content: seq<byte>)
    : (r: (Result<nat, Failure>, Sink))
    ensures r.0.Ok? <==> dest.open
    ensures r.0.Err? ==> r.0.error == BrokenPipe && r.1 == dest
    ensures r.0.Ok? ==> r.0.value <= 8 + |address| + |content| && r.0.value <= accepted && r.1.open
    ensures r.0.Ok? ==> (r.0.value == 8 + |address| + |content| <==> accepted >= 8 + |address| + |content|)
    ensures r.0.Ok? ==> r.1.data == dest.data + MessageBuffer(address, content)[..r.0.value]
  {
    var buffer := MessageBuffer(address, content);
    if !dest.open then (Err(BrokenPipe), dest)
    else
      var n := if accepted < |buffer| then accepted else |buffer|;
      (Ok(n), dest.(data := dest.data + buffer[..n]))
  }

  /** `read_value`: `read_exact` of four bytes, then of the length they give. */
  function ReadValue(s: Stream): (r: (Result<seq<byte>, Failure>, Stream))
    ensures r.0.Err? ==> r.0.error == UnexpectedEof && r.1 == []
    ensures r.0.Ok? ==> Content(s) == WriteValue([], r.0.value) + Content(r.1)
  {
    var first := ReadExact(s, 4);
    if first.0.Err? then (Err(first.0.error), first.1)
    else
      var header := first.0.value;
      var second := ReadPayload(first.1, header);
      if second.0.Err? then second
      else
        HeaderFrame(header, second.0.value);
        second
  }

  /** The second `read_exact` of `read_value`: as many bytes as the header says. */
  function ReadPayload(s: Stream, header: seq<byte>): (r: (Result<seq<byte>, Failure>, Stream))
    ensures r.0.Err? ==> r.0.error == UnexpectedEof && r.1 == []
    ensures r.0.Ok? ==> |r.0.value| == Value(header) && Content(s) == r.0.value + Content(r.1)
    ensures Value(header) <= |Content(s)| ==> r.0.Ok?
  {
    ReadExact(s, Value(header))
  }

  /** Four bytes whose value is the length of `v` are the prefix `write_value` puts before `v`. */
  lemma HeaderFrame(header: seq<byte>, v: seq<byte>)
    requires |header| == 4 && Value(header) == |v|
    ensures WriteValue([], v) == header + v
  {
    EncodeValue(header);
    Pow256Four();
    assert WriteValue([], v) == [] + Encode(|v|, 4) + v;
  }

  /** `read_message`: address value, then content value; the first error ends it. */
  function ReadMessage(s: Stream): (r: (Result<(seq<byte>, seq<byte>), Failure>, Stream))
    ensures r.0.Err? ==> r.0.error == UnexpectedEof && r.1 == []
    ensures r.0.Ok? ==>
      Content(s) == WriteValue([], r.0.value.0) + WriteValue([], r.0.value.1) + Content(r.1)
  {
    var (address, s1) := ReadValue(s);
    match address
    case Err(e) => (Err(e), s1)
    case Ok(a) =>
      var (content, s2) := ReadValue(s1);
      match content
      case Err(e) => (Err(e), s2)
      case Ok(c) => (Ok((a, c)), s2)
  }

  // ---------------------------------------------------------------------
  // Properties

  /** A value is read back from its bytes however they are chunked, and the
      bytes after it stay unconsumed. */
  lemma ReadValueRoundTrip(v: seq<byte>, s: Stream, more: seq<byte>)
    requires |v| < TWO_32
    requires Content(s) == WriteValue([], v) + more
    ensures ReadValue(s).0 == Ok(v) && Content(ReadValue(s).1) == more
  {
    var header := Encode(|v|, 4);
    WriteValueHeader(v);
    assert Content(s) == header + (v + more);
    ReadValueSplit(s, header, v + more);
    assert (v + more)[..|v|] == v;
    assert (v + more)[|v|..] == more;
  }

  /** The frame `write_value` builds for a value shorter than 2^32: its
      exact length header, then the value. */
  lemma WriteValueHeader(v: seq<byte>)
    requires |v| < TWO_32
    ensures Pow256(4) == TWO_32
    ensures WriteValue([], v) == Encode(|v|, 4) + v && Value(Encode(|v|, 4)) == |v|
  {
    Pow256Four();
    assert WriteValue([], v) == [] + Encode(|v|, 4) + v;
  }

  /** Reading a value from bytes that start with a four-byte header and hold
      at least as many bytes after it as the header announces. */
  lemma ReadValueSplit(s: Stream, header: seq<byte>, rest: seq<byte>)
    requires |header| == 4 && Content(s) == header + rest && Value(header) <= |rest|
    ensures ReadValue(s).0 == Ok(rest[..Value(header)])
    ensures Content(ReadValue(s).1) == rest[Value(header)..]
  {
    FirstRead(s, header, rest);
    var first := ReadExact(s, 4);
    var second := ReadPayload(first.1, header);
    assert second.0.value + Content(second.1) == rest;
    assert rest[..Value(header)] == second.0.value;
  }

  lemma FirstRead(s: Stream, header: seq<byte>, rest: seq<byte>)
    requires |header| == 4 && Content(s) == header + rest
    ensures ReadExact(s, 4).0 == Ok(header) && Content(ReadExact(s, 4).1) == rest
  {
    assert Content(s)[..4] == header;
    assert Content(s)[4..] == rest;
  }

  /** Round trip: `read_message` over the bytes `write_message(a, c)` builds
      gives back `(a, c)` for any chunking of those bytes. */
  lemma ReadMessageRoundTrip(a: seq<byte>, c: seq<byte>, s: Stream, more: seq<byte>)
    requires |a| < TWO_32 && |c| < TWO_32
    requires Content(s) == MessageBuffer(a, c) + more
    ensures ReadMessage(s).0 == Ok((a, c)) && Content(ReadMessage(s).1) == more
  {
    assert MessageBuffer(a, c) + more == WriteValue([], a) + (WriteValue([], c) + more);
    ReadValueRoundTrip(a, s, WriteValue([], c) + more);
    ReadValueRoundTrip(c, ReadValue(s).1, more);
  }

  /** What one `write_message` put on an open connection: the first
      `accepted` bytes of the buffer, or all of it. */
  lemma Written(dest: Sink, accepted: nat, a: seq<byte>, c: seq<byte>)
    requires dest.open
    ensures var n := if accepted < 8 + |a| + |c| then accepted else 8 + |a| + |c|;
      WriteMessage(dest, accepted, a, c).0 == Ok(n)
      && WriteMessage(dest, accepted, a, c).1.data[|dest.data|..] == MessageBuffer(a, c)[..n]
  {
  }

  /** A `write_message` that the connection takes whole is read back by
      `read_message` as the same address and content, whatever follows. */
  lemma FullWriteRoundTrip(dest: Sink, accepted: nat, a: seq<byte>, c: seq<byte>, s: Stream, more: seq<byte>)
    requires dest.open && accepted >= 8 + |a| + |c| && |a| < TWO_32 && |c| < TWO_32
    requires Content(s) == WriteMessage(dest, accepted, a, c).1.data[|dest.data|..] + more
    ensures WriteMessage(dest, accepted, a, c).0 == Ok(8 + |a| + |c|)
    ensures ReadMessage(s).0 == Ok((a, c)) && Content(ReadMessage(s).1) == more
  {
    Written(dest, accepted, a, c);
    var buffer := MessageBuffer(a, c);
    assert buffer[..|buffer|] == buffer;
    ReadMessageRoundTrip(a, c, s, more);
  }

  /** A short `write_message`, whose count the caller ignores, leaves a
      truncated message: a reader that gets only those bytes fails with
      UnexpectedEof instead of receiving the message. */
  lemma ShortWriteFails(dest: Sink, accepted: nat, a: seq<byte>, c: seq<byte>, s: Stream)
    requires dest.open && accepted < 8 + |a| + |c| && |a| < TWO_32 && |c| < TWO_32
    requires Content(s) == WriteMessage(dest, accepted, a, c).1.data[|dest.data|..]
    ensures WriteMessage(dest, accepted, a, c).0 == Ok(accepted)
    ensures ReadMessage(s).0 == Err(UnexpectedEof)
  {
    Written(dest, accepted, a, c);
    PrefixFails(a, c, accepted, s);
  }

  /** `read_message` over a strict prefix of a message's buffer fails. */
  lemma PrefixFails(a: seq<byte>, c: seq<byte>, k: nat, s: Stream)
    requires k < 8 + |a| + |c| && |a| < TWO_32 && |c| < TWO_32
    requires Content(s) == MessageBuffer(a, c)[..k]
    ensures ReadMessage(s).0 == Err(UnexpectedEof)
  {
    if k >= 4 + |a| {
      FirstValueWhole(a, c, k, s);
      SecondValueShort(a, c, k, ReadValue(s).1);
    } else {
      FirstValueShort(a, c, k, s);
    }
  }

  lemma FirstValueShort(a: seq<byte>, c: seq<byte>, k: nat, s: Stream)
    requires k < 4 + |a| && |a| < TWO_32 && |c| < TWO_32
    requires Content(s) == MessageBuffer(a, c)[..k]
    ensures ReadValue(s).0.Err?
  {
    MessageBufferLayout(a, c);
    ReadValueFailsIffShort(s);
    if k >= 4 {
      assert Content(s)[..4] == MessageBuffer(a, c)[..4];
    }
  }

  lemma FirstValueWhole(a: seq<byte>, c: seq<byte>, k: nat, s: Stream)
    requires 4 + |a| <= k <= 8 + |a| + |c| && |a| < TWO_32
    requires Content(s) == MessageBuffer(a, c)[..k]
    ensures ReadValue(s).0 == Ok(a) && Content(ReadValue(s).1) == MessageBuffer(a, c)[..k][4 + |a|..]
  {
    var p := MessageBuffer(a, c)[..k];
    var first := WriteValue([], a);
    assert p == first + p[4 + |a|..];
    ReadValueRoundTrip(a, s, p[4 + |a|..]);
  }

  lemma SecondValueShort(a: seq<byte>, c: seq<byte>, k: nat, s1: Stream)
    requires 4 + |a| <= k < 8 + |a| + |c| && |a| < TWO_32 && |c| < TWO_32
    requires Content(s1) == MessageBuffer(a, c)[..k][4 + |a|..]
    ensures ReadValue(s1).0.Err?
  {
    var buffer := MessageBuffer(a, c);
    MessageBufferLayout(a, c);
    ReadValueFailsIffShort(s1);
    if k >= 8 + |a| {
      assert Content(s1)[..4] == buffer[4 + |a|..8 + |a|];
    }
  }

  /** `read_value` succeeds exactly when a whole frame is available. */
  lemma ReadValueFailsIffShort(s: Stream)
    ensures ReadValue(s).0.Err? <==>
      |Content(s)| < 4 || |Content(s)| < 4 + Value(Content(s)[..4])
  {
    var bytes := Content(s);
    if |bytes| >= 4 {
      var s1 := ReadExact(s, 4).1;
      assert Content(s1) == bytes[4..];
    }
  }

  /** A payload of 2^32 bytes or more is announced with a truncated length:
      the reader then takes only the first `len mod 2^32` bytes as the value. */
  lemma TruncatedLength(v: seq<byte>, s: Stream)
    requires |v| >= TWO_32
    requires Content(s) == WriteValue([], v)
    ensures ReadValue(s).0 == Ok(v[..Low32(|v|)])
  {
    var s1 := ReadExact(s, 4).1;
    assert Content(s)[..4] == WriteValue([], v)[0..4];
    assert Content(s1) == v;
  }
}
