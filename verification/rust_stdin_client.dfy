/** The otrr command-line client (`client-otrr/src/stdinclient.rs`): the
    input thread turns each line `address[#tag] message` into a command
    and skips lines it cannot parse; the network thread reads messages and
    skips reads that fail; `handle` maps what the engine made of a
    received message to an instance tag and content, a value `main`
    discards. Separators are ASCII, so cutting the
    UTF-8 bytes at them cuts the text at the same characters. */
module RustStdinClient {
  import opened Bytes
  import opened Wrappers
  import opened Failures
  import opened Streams
  import opened Numerals
  import opened Strings
  import opened RustProtocol
  import opened Utf8
  import JavaStdinClient

  const SPACE: byte := 32    // ' '
  const HASH: byte := 35     // '#'
  const NEWLINE: byte := 10  // '\n'

  /** `read_line`: up to and including the first newline, or all that is
      left when there is none; the rest stays in the input. */
  function ReadLine(input: seq<byte>): (r: (seq<byte>, seq<byte>))
    ensures r.0 + r.1 == input
    ensures |input| > 0 ==> |r.0| > 0
    ensures NEWLINE !in r.0[..Max0(|r.0| - 1)]
    ensures |r.1| > 0 ==> r.0[|r.0| - 1] == NEWLINE
  {
    var i := IndexOf(input, NEWLINE, 0);
    if i == -1 then (input, [])
    else
      assert input == input[..i + 1] + input[i + 1..];
      assert input[..i + 1][..i] == input[..i];
      (input[..i + 1], input[i + 1..])
  }

  /** `str::split_once`: the parts before and after the first `x`. */
  function SplitOnce(text: seq<byte>, x: byte): (r: Option<(seq<byte>, seq<byte>)>)
    ensures r.None? <==> x !in text
    ensures r.Some? ==> r.value.0 + [x] + r.value.1 == text && x !in r.value.0
  {
    var i := IndexOf(text, x, 0);
    if i == -1 then
      assert x !in text by {
        forall j | 0 <= j < |text| ensures text[j] != x {
        }
      }
      None
    else
      assert text == text[..i] + [x] + text[i + 1..];
      assert x !in text[..i] by {
        forall j | 0 <= j < i ensures text[..i][j] != x {
        }
      }
      assert text[i] == x;
      Some((text[..i], text[i + 1..]))
  }

  /** A parsed command: address, instance tag (`u32`), message. */
  datatype Command = Command(address: seq<byte>, tag: u32, message: seq<byte>)

  /** `read_command` on one line: split at the first space (none is an
      InvalidInput error), then split the address cell at the first '#';
      without one the tag is 0, with one the rest must be a decimal `u32`.
      The message keeps the line's newline. */
  function ParseCommand(line: seq<byte>): (r: Result<Command, Failure>)
    ensures r.Err? ==> r.error == InvalidInput
    ensures SPACE !in line ==> r.Err?
    ensures r.Ok? ==> exists cell :: cell + [SPACE] + r.value.message == line && SPACE !in cell
    ensures r.Ok? ==> SPACE !in r.value.address && HASH !in r.value.address
  {
    match SplitOnce(line, SPACE)
    case None => Err(InvalidInput)
    case Some((cell, message)) =>
      match SplitOnce(cell, HASH)
      case None => Ok(Command(cell, 0, message))
      case Some((address, tagValue)) =>
        match RustParseU32(tagValue)
        case Err(_) => Err(InvalidInput)
        case Ok(tag) => Ok(Command(address, tag, message))
  }

  /** `read_command`: one line from the input, parsed. `read_line` into a
      `String` consumes the line even when it is not well-formed UTF-8, and
      then fails with InvalidData instead of returning it. */
  function ReadCommand(input: seq<byte>): (r: (Result<Command, Failure>, seq<byte>))
    ensures |input| > 0 ==> |r.1| < |input|
    ensures exists line :: line + r.1 == input && (r.0 == Err(InvalidData) <==> !ValidUtf8(line))
    ensures r.0.Err? ==> r.0.error == InvalidInput || r.0.error == InvalidData
    ensures r.0.Ok? ==> SPACE !in r.0.value.address && HASH !in r.0.value.address
  {
    var (line, rest) := ReadLine(input);
    var valid := ValidUtf8(line);
    var r := if valid then (ParseCommand(line), rest) else (Err(InvalidData), rest);
    assert line + r.1 == input && (r.0 == Err(InvalidData) <==> !valid);
    r
  }

  /** The input thread: every command read is passed on, in order; a line
      that does not parse is skipped. At the end of the input `read_line`
      keeps returning empty lines, which never parse; the model stops there. */
  function Commands(input: seq<byte>): (r: seq<Command>)
    ensures |r| <= |input|
    ensures PlainAddresses(r)
    decreases |input|
  {
    if |input| == 0 then []
    else
      var (cmd, rest) := ReadCommand(input);
      assert |rest| < |input|;
      var tail := Commands(rest);
      if cmd.Err? then tail
      else
        var r := [cmd.value] + tail;
        assert r[1..] == tail;
        r
  }

  /** No address holds a space or a '#', the separators of a command line. */
  predicate PlainAddresses(cs: seq<Command>) {
    forall i :: 0 <= i < |cs| ==> SPACE !in cs[i].address && HASH !in cs[i].address
  }

  /** What the engine made of a received message. `handle` maps it to an
      instance tag and content, or to nothing; `main` calls `handle` and
      discards that value, so nothing is sent back. */
  datatype UserMessage =
    | NoResult  // `UserMessage::None`
    | Error(error: seq<byte>)
    | Plaintext(content: seq<byte>)
    | WarningUnencrypted(content: seq<byte>)
    | Confidential(tag: u32, content: seq<byte>, tlvs: seq<seq<byte>>)
    | ConfidentialSessionStarted(tag: u32)
    | ConfidentialSessionFinished(tag: u32, content: seq<byte>)
    | Reset(tag: u32)
    | SMPSucceeded(tag: u32)
    | SMPFailed(tag: u32)

  /** `handle`: the plain, unencrypted and confidential messages give their
      instance tag (0 outside a confidential session) and content; every
      other result gives nothing. */
  function Handle(msg: UserMessage): (r: Option<(u32, seq<byte>)>)
    ensures r.Some? <==> msg.Plaintext? || msg.WarningUnencrypted? || msg.Confidential?
    ensures r.Some? ==> r.value.1 == msg.content
    ensures r.Some? && msg.Confidential? ==> r.value.0 == msg.tag
    ensures r.Some? && !msg.Confidential? ==> r.value.0 == 0
  {
    match msg
    case NoResult => None
    case Error(_) => None
    case Plaintext(content) => Some((0, content))
    case WarningUnencrypted(content) => Some((0, content))
    case Confidential(tag, content, _) => Some((tag, content))
    case ConfidentialSessionStarted(_) => None
    case ConfidentialSessionFinished(_, _) => None
    case Reset(_) => None
    case SMPSucceeded(_) => None
    case SMPFailed(_) => None
  }

  /** The network thread: every message read is passed on, in order; a
      failed read is skipped. A failed `read_exact` has used up the
      stream, so every later read fails too and nothing more arrives. */
  function Received(s: Stream): (r: seq<(seq<byte>, seq<byte>)>)
    decreases |Content(s)|
  {
    if |s| == 0 then []
    else
      match ReadMessage(s)
      case (Err(_), _) => []
      case (Ok(m), s1) =>
        assert |Content(s1)| < |Content(s)|;
        [m] + Received(s1)
  }

  // ---------------------------------------------------------------------
  // Properties

  /** The bytes several messages take on the wire, back to back. */
  predicate ShortMessages(ms: seq<(seq<byte>, seq<byte>)>) {
    forall i :: 0 <= i < |ms| ==> |ms[i].0| < TWO_32 && |ms[i].1| < TWO_32
  }

  function Buffers(ms: seq<(seq<byte>, seq<byte>)>): seq<byte>
    requires ShortMessages(ms)
  {
    if |ms| == 0 then [] else MessageBuffer(ms[0].0, ms[0].1) + Buffers(ms[1..])
  }

  /** One step of the network thread: a message read is passed on, then
      the thread goes on with what follows it. */
  lemma ReceivedStep(s: Stream)
    requires ReadMessage(s).0.Ok?
    ensures Received(s) == [ReadMessage(s).0.value] + Received(ReadMessage(s).1)
  {
    assert |Content(s)| > 0;
  }

  /** Every message takes at least its two 4-byte length headers, so the
      network thread passes on at most one message per 8 bytes. */
  lemma {:induction false} ReceivedBound(s: Stream)
    ensures 8 * |Received(s)| <= |Content(s)|
    decreases |Content(s)|
  {
    if |s| > 0 && ReadMessage(s).0.Ok? {
      var (m, s1) := (ReadMessage(s).0.value, ReadMessage(s).1);
      ReceivedStep(s);
      ReceivedBound(s1);
      assert |Content(s)| == 8 + |m.0| + |m.1| + |Content(s1)|;
    }
  }

  /** Nothing is received from a stream with nothing left on it. */
  lemma ReceivedNothing(s: Stream)
    requires Content(s) == []
    ensures Received(s) == []
  {
  }

  /** The messages after the first are short too. */
  lemma ShortTail(ms: seq<(seq<byte>, seq<byte>)>)
    requires |ms| > 0 && ShortMessages(ms)
    ensures ShortMessages(ms[1..])
    ensures Buffers(ms) == MessageBuffer(ms[0].0, ms[0].1) + Buffers(ms[1..])
  {
    forall i | 0 <= i < |ms[1..]| ensures |ms[1..][i].0| < TWO_32 && |ms[1..][i].1| < TWO_32 {
      assert ms[1..][i] == ms[i + 1];
    }
  }

  /** The first message comes off a stream holding the messages' buffers,
      and the rest of the stream holds the others' buffers. */
  lemma ReceivesFirst(ms: seq<(seq<byte>, seq<byte>)>, s: Stream)
    requires |ms| > 0 && ShortMessages(ms)
    requires Content(s) == Buffers(ms)
    ensures ShortMessages(ms[1..])
    ensures Content(ReadMessage(s).1) == Buffers(ms[1..])
    ensures Received(s) == ms <==> Received(ReadMessage(s).1) == ms[1..]
  {
    ShortTail(ms);
    ReadMessageRoundTrip(ms[0].0, ms[0].1, s, Buffers(ms[1..]));
    ReceivedStep(s);
    ConsEquals(ms, Received(s), Received(ReadMessage(s).1));
  }

  /** A sequence that starts with the head of `ms` equals `ms` exactly
      when what follows that head equals the tail of `ms`. */
  lemma ConsEquals<T>(ms: seq<T>, whole: seq<T>, rest: seq<T>)
    requires |ms| > 0 && whole == [ms[0]] + rest
    ensures whole == ms <==> rest == ms[1..]
  {
    assert ms == [ms[0]] + ms[1..];
    if whole == ms {
      assert rest == whole[1..];
    }
  }

  /** Whatever the chunking, the network thread receives exactly the
      messages whose buffers make up the stream, in order. */
  lemma {:induction false} ReceivesAll(ms: seq<(seq<byte>, seq<byte>)>, s: Stream)
    requires ShortMessages(ms)
    requires Content(s) == Buffers(ms)
    ensures Received(s) == ms
    decreases |ms|
  {
    if |ms| == 0 {
      ReceivedNothing(s);
    } else {
      ReceivesFirst(ms, s);
      ReceivesAll(ms[1..], ReadMessage(s).1);
    }
  }

  /** A rendered command line followed by a newline. */
  function CommandLine(address: seq<byte>, tag: Option<nat>, message: seq<byte>): (r: seq<byte>)
  {
    JavaStdinClient.RenderLine(address, tag, message) + [NEWLINE]
  }

  /** Round trip: a rendered line parses back to its address, tag (0 when
      absent) and message, whatever the message holds. */
  lemma ParseRendered(address: seq<byte>, tag: Option<nat>, message: seq<byte>)
    requires SPACE !in address && HASH !in address
    requires tag.Some? ==> tag.value < TWO_32
    ensures ParseCommand(JavaStdinClient.RenderLine(address, tag, message))
      == Ok(Command(address, if tag.Some? then tag.value else 0, message))
  {
    if tag.Some? {
      var digits := DecimalBytes(tag.value);
      var head := address + [HASH] + digits;
      assert JavaStdinClient.RenderLine(address, tag, message) == head + [SPACE] + message;
      JavaStdinClient.DigitsHaveNoSeparator(digits);
      assert SPACE !in head;
      SplitOnceAt(head, message, SPACE);
      SplitOnceAt(address, digits, HASH);
      assert RustParseU32(digits) == Ok(tag.value);
    } else {
      assert JavaStdinClient.RenderLine(address, tag, message) == address + [SPACE] + message;
      SplitOnceAt(address, message, SPACE);
      assert SplitOnce(address, HASH) == None;
    }
  }

  /** `split_once` cuts at the first occurrence, whatever follows it. */
  lemma SplitOnceAt(a: seq<byte>, b: seq<byte>, x: byte)
    requires x !in a
    ensures SplitOnce(a + [x] + b, x) == Some((a, b))
  {
    var r := SplitOnce(a + [x] + b, x);
    JavaStdinClient.SplitUnique(r.value.0, r.value.1, a, b, x);
  }

  /** `read_command` on a command line: the message keeps the newline and
      the next line is left in the input. */
  lemma ReadRenderedCommand(address: seq<byte>, tag: Option<nat>, message: seq<byte>, rest: seq<byte>)
    requires SPACE !in address && HASH !in address && NEWLINE !in address && NEWLINE !in message
    requires ValidUtf8(address) && ValidUtf8(message)
    requires tag.Some? ==> tag.value < TWO_32
    ensures ReadCommand(CommandLine(address, tag, message) + rest)
      == (Ok(Command(address, if tag.Some? then tag.value else 0, message + [NEWLINE])), rest)
  {
    var line := CommandLine(address, tag, message);
    var head := address + (if tag.Some? then [HASH] + DecimalBytes(tag.value) else []);
    assert line == head + [SPACE] + message + [NEWLINE];
    assert line == JavaStdinClient.RenderLine(address, tag, message + [NEWLINE]);
    if tag.Some? {
      DigitsNoNewline(DecimalBytes(tag.value));
    }
    assert NEWLINE !in line[..|line| - 1] by {
      assert line[..|line| - 1] == head + [SPACE] + message;
    }
    LineEnd(line, rest, ReadLine(line + rest).0, ReadLine(line + rest).1);
    RenderedIsValid(address, tag, message);
    ParseRendered(address, tag, message + [NEWLINE]);
  }

  /** A command line built from well-formed address and message text is
      well-formed: everything else in it is ASCII. */
  lemma RenderedIsValid(address: seq<byte>, tag: Option<nat>, message: seq<byte>)
    requires ValidUtf8(address) && ValidUtf8(message)
    ensures ValidUtf8(CommandLine(address, tag, message))
  {
    var mark := if tag.Some? then [HASH] + DecimalBytes(tag.value) else [];
    var head := JavaStdinClient.RenderHead(address, tag);
    assert head == address + mark;
    AsciiValid(mark);
    AsciiValid([SPACE]);
    AsciiValid([NEWLINE]);
    ValidAppend(address, mark);
    ValidAppend(head, [SPACE]);
    ValidAppend(head + [SPACE], message);
    ValidAppend(head + [SPACE] + message, [NEWLINE]);
  }

  lemma DigitsNoNewline(s: seq<byte>)
    requires AllDigits(s)
    ensures NEWLINE !in s
  {
  }

  /** The first line of `line + rest`, when `line` ends at its only newline. */
  lemma LineEnd(line: seq<byte>, rest: seq<byte>, l: seq<byte>, r: seq<byte>)
    requires |line| > 0 && line[|line| - 1] == NEWLINE && NEWLINE !in line[..|line| - 1]
    requires (l, r) == ReadLine(line + rest)
    ensures l == line && r == rest
  {
    var input := line + rest;
    var i := IndexOf(input, NEWLINE, 0);
    assert input[|line| - 1] == NEWLINE;
    assert forall j :: 0 <= j < |line| - 1 ==> input[j] == line[..|line| - 1][j];
  }

  /** A line without a space is skipped: the commands are those of the
      lines after it. */
  lemma SkipBadLine(line: seq<byte>, rest: seq<byte>)
    requires SPACE !in line && NEWLINE !in line
    ensures Commands(line + [NEWLINE] + rest) == Commands(rest)
  {
    var full := line + [NEWLINE];
    assert full[..|full| - 1] == line;
    LineEnd(full, rest, ReadLine(full + rest).0, ReadLine(full + rest).1);
    assert full + rest == line + [NEWLINE] + rest;
  }

  /** A line that is not well-formed UTF-8 is skipped, whatever it holds. */
  lemma SkipInvalidLine(line: seq<byte>, rest: seq<byte>)
    requires NEWLINE !in line && !ValidUtf8(line + [NEWLINE])
    ensures ReadCommand(line + [NEWLINE] + rest) == (Err(InvalidData), rest)
    ensures Commands(line + [NEWLINE] + rest) == Commands(rest)
  {
    var full := line + [NEWLINE];
    assert full[..|full| - 1] == line;
    LineEnd(full, rest, ReadLine(full + rest).0, ReadLine(full + rest).1);
    assert full + rest == line + [NEWLINE] + rest;
  }

  /** The two clients read a well-formed line alike: the Java client
      (whose `readLine` strips the newline) and the Rust client (which
      keeps it) find the same address and tag, and the same message up to
      that newline. */
  lemma ParsersAgree(address: seq<byte>, tag: Option<nat>, message: seq<byte>)
    requires SPACE !in address && HASH !in address && NEWLINE !in address && NEWLINE !in message
    requires ValidUtf8(address) && ValidUtf8(message)
    requires tag.Some? ==> tag.value <= INT_MAX
    requires |JavaStdinClient.RenderLine(address, tag, message)| <= INT_MAX
    ensures var java := JavaStdinClient.ParseLine(JavaStdinClient.RenderLine(address, tag, message));
      var rust := ReadCommand(CommandLine(address, tag, message)).0;
      java.Ok? && rust.Ok? && java.value.address == rust.value.address
      && java.value.tag == rust.value.tag && java.value.content + [NEWLINE] == rust.value.message
  {
    JavaStdinClient.ParseRenderedLine(address, tag, message);
    ReadRenderedCommand(address, tag, message, []);
    assert CommandLine(address, tag, message) + [] == CommandLine(address, tag, message);
  }

  /** Where they differ: `Integer.parseInt` takes a signed tag, `u32`
      parsing does not, so "a#-5 x" has tag -5 for Java and is skipped by Rust. */
  lemma NegativeTag()
    ensures JavaStdinClient.ParseLine([97, HASH, MINUS, 53, SPACE, 120])
      == Ok(JavaStdinClient.LineMessage([97], -5, [120]))
    ensures ParseCommand([97, HASH, MINUS, 53, SPACE, 120]) == Err(InvalidInput)
  {
    var line: seq<byte> := [97, HASH, MINUS, 53, SPACE, 120];
    assert line == [97, HASH, MINUS, 53] + [SPACE] + [120];
    var parts := Cut(line, SPACE).value;
    JavaStdinClient.SplitUnique(parts.0, parts.1.value, [97, HASH, MINUS, 53], [120], SPACE);
    assert [97, HASH, MINUS, 53] == [97] + [HASH] + [MINUS, 53];
    var addr := Cut(parts.0, HASH).value;
    JavaStdinClient.SplitUnique(addr.0, addr.1.value, [97], [MINUS, 53], HASH);
    assert [MINUS, 53][1..] == [53];
    assert DecimalValue([53]) == 5 by {
      assert [53][..0] == [];
    }
    var (cell, msg) := SplitOnce(line, SPACE).value;
    JavaStdinClient.SplitUnique(cell, msg, [97, HASH, MINUS, 53], [120], SPACE);
    var (a, tagValue) := SplitOnce(cell, HASH).value;
    JavaStdinClient.SplitUnique(a, tagValue, [97], [MINUS, 53], HASH);
  }
}
