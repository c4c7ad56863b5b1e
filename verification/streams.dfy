/** Byte streams as the socket code sees them. An input stream is the
    sequence of chunks the peer's bytes arrive in (TCP segments); a single
    read returns at most the rest of the current chunk, so both "a read came
    back short" and "the frame arrived whole" can be stated. An output
    stream accumulates what was written and how much of it was flushed. */
module Streams {
  import opened Bytes
  import opened Wrappers
  import opened Failures

  type Chunk = c: seq<byte> | |c| > 0 witness [0]
  type Stream = seq<Chunk>

  /** All bytes still to come on the stream, in order. */
  function Content(s: Stream): seq<byte> {
    if |s| == 0 then [] else s[0] + Content(s[1..])
  }

  /** Puts unread bytes back in front of a stream, as the start of its next chunk. */
  function Push(prefix: seq<byte>, s: Stream): (r: Stream)
    ensures Content(r) == prefix + Content(s)
    ensures |prefix| > 0 ==> |r| > 0 && r[0] == prefix && r[1..] == s
    ensures |prefix| == 0 ==> r == s
  {
    if |prefix| == 0 then s
    else
      var r := [prefix] + s;
      assert r[1..] == s;
      r
  }

  datatype ReadResult = Eof | Got(data: seq<byte>, rest: Stream)

  /** One `InputStream.read(buf, 0, n)` (one `Read::read` in Rust): zero
      bytes when `n` is zero, end-of-stream (-1) when nothing is left,
      otherwise the first `n` bytes of the current chunk, or all of it. */
  function Read(s: Stream, n: nat): (r: ReadResult)
    ensures r.Eof? <==> n > 0 && |s| == 0
    ensures r.Got? ==> |r.data| <= n && Content(s) == r.data + Content(r.rest)
    ensures r.Got? && n > 0 ==> |r.data| > 0
    ensures r.Got? && |r.data| < n ==> r.data == s[0] && r.rest == s[1..]
  {
    if n == 0 then Got([], s)
    else if |s| == 0 then Eof
    else if n < |s[0]| then Got(s[0][..n], Push(s[0][n..], s[1..]))
    else Got(s[0], s[1..])
  }

  /** The `int` Java's `read` returns. */
  function ReadCount(r: ReadResult): int {
    match r
    case Eof => -1
    case Got(data, _) => |data|
  }

  /** Rust `Read::read_exact`: reads until `n` bytes are in hand, whatever
      the chunking; if the stream ends first it is an `UnexpectedEof` and
      everything that was left has been consumed. */
  function ReadExact(s: Stream, n: nat): (r: (Result<seq<byte>, Failure>, Stream))
    ensures n <= |Content(s)| ==> r.0 == Ok(Content(s)[..n]) && Content(r.1) == Content(s)[n..]
    ensures n > |Content(s)| ==> r.0 == Err(UnexpectedEof) && r.1 == []
    decreases n
  {
    if n == 0 then (Ok([]), s)
    else
      match Read(s, n)
      case Eof => (Err(UnexpectedEof), s)
      case Got(d, rest) =>
        var (tail, s') := ReadExact(rest, n - |d|);
        match tail
        case Ok(t) =>
          SplitAfter(d, Content(rest), n);
          (Ok(d + t), s')
        case Err(e) => (Err(e), s')
  }

  /** Cutting `d + y` at a point past `d`. */
  lemma SplitAfter(d: seq<byte>, y: seq<byte>, n: nat)
    requires |d| <= n <= |d| + |y|
    ensures (d + y)[..n] == d + y[..n - |d|] && (d + y)[n..] == y[n - |d|..]
  {
  }

  /** A Java `OutputStream`: the bytes written so far, how many of them were
      flushed, and whether the socket behind it still accepts writes. */
  datatype Sink = Sink(data: seq<byte>, flushed: nat, open: bool)

  function NewSink(): Sink {
    Sink([], 0, true)
  }

  /** `out.write(bytes)`: fails with an IOException once the socket is closed. */
  function Write(out: Sink, bytes: seq<byte>): (r: Result<Sink, Failure>)
    ensures r.Ok? <==> out.open
    ensures r.Ok? ==> r.value == out.(data := out.data + bytes)
    ensures r.Err? ==> r.error == IOException
  {
    if out.open then Ok(out.(data := out.data + bytes)) else Err(IOException)
  }

  /** `out.flush()` on a socket's stream: `OutputStream`'s own flush, which
      does nothing and so cannot fail, even on a closed socket. It marks
      everything written so far as handed to the network. */
  function Flush(out: Sink): (r: Sink)
    ensures r.data == out.data && r.open == out.open
    ensures r.flushed == |out.data|
  {
    out.(flushed := |out.data|)
  }
}
