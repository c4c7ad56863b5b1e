/** The otr4j command-line client (`client-otr4j`, class `StdinClient`):
    each input line is `address[#tag] content`, parsed by `parseLine`, and
    the transformed content is sent to the address through the session
    instance the tag names. The OTR engine (sessions, instances, their
    transformations) is left abstract and passed in as functions. */
module JavaStdinClient {
  import opened Bytes
  import opened Wrappers
  import opened Failures
  import opened Streams
  import opened Numerals
  import opened Strings
  import opened EchoProtocol
  import opened Sessions

  const SPACE: byte := 32          // ' '
  const TAG_SEPARATOR: byte := 35  // '#'

  /** The parsed input line (`StdinClient.Message`). */
  datatype LineMessage = LineMessage(address: Text, tag: int32, content: Text)

  const INVALID_LINE: string := "Invalid message line."

  /** `parseLine`: cut at the first space (there must be one), then cut the
      address part at the first '#'; without a '#' the tag is 0, with one
      the rest is parsed by `Integer.parseInt`. */
  function ParseLine(line: Text): (r: Result<LineMessage, Failure>)
    requires |line| <= INT_MAX
    ensures r == Err(IllegalArgument(INVALID_LINE)) <==> SPACE !in line
    ensures r.Err? && SPACE in line ==> r.error == NumberFormat
    ensures r.Ok? ==> |r.value.address| < |line| && |r.value.content| < |line|
  {
    var parts := Cut(line, SPACE).value;
    if parts.1.None? then Err(IllegalArgument(INVALID_LINE))
    else
      var addr := Cut(parts.0, TAG_SEPARATOR).value;
      if addr.1.None? then Ok(LineMessage(parts.0, 0, parts.1.value))
      else
        match JavaParseInt(addr.1.value)
        case Err(e) => Err(e)
        case Ok(tag) => Ok(LineMessage(addr.0, tag, parts.1.value))
  }

  /** The content of a parsed line is everything after the first space:
      it may hold spaces, and is empty after a trailing space. */
  lemma ParsedContent(line: Text)
    requires |line| <= INT_MAX && ParseLine(line).Ok?
    ensures var m := ParseLine(line).value;
      var n := |line| - |m.content| - 1;
      0 <= n && line == line[..n] + [SPACE] + m.content && SPACE !in line[..n]
  {
    var parts := Cut(line, SPACE).value;
    assert line[..|parts.0|] == parts.0;
  }

  /** The address of a parsed line is a prefix of the line holding neither
      a space nor a '#'; an address directly followed by the space has
      tag 0. */
  lemma ParsedAddress(line: Text)
    requires |line| <= INT_MAX && ParseLine(line).Ok?
    ensures var m := ParseLine(line).value;
      |m.address| < |line| && line[..|m.address|] == m.address
      && SPACE !in m.address && TAG_SEPARATOR !in m.address
      && (line[|m.address|] == SPACE ==> m.tag == 0)
  {
    var parts := Cut(line, SPACE).value;
    assert line[..|parts.0|] == parts.0 && line[|parts.0|] == SPACE;
    var addr := Cut(parts.0, TAG_SEPARATOR).value;
    if addr.1.Some? {
      assert parts.0[..|addr.0|] == addr.0 && parts.0[|addr.0|] == TAG_SEPARATOR;
      assert line[..|addr.0|] == addr.0 && line[|addr.0|] == TAG_SEPARATOR;
    }
  }

  /** The line a user types for a message: the address, optionally '#' and
      a decimal tag, a space, the content. */
  function RenderLine(address: Text, tag: Option<nat>, content: Text): (r: Text)
    ensures |r| == |address| + (if tag.Some? then 1 + |DecimalBytes(tag.value)| else 0) + 1 + |content|
  {
    RenderHead(address, tag) + [SPACE] + content
  }

  /** The part before a separator is determined by the separator's first
      occurrence. */
  lemma SplitUnique(a: Text, b: Text, c: Text, d: Text, x: byte)
    requires a + [x] + b == c + [x] + d && x !in a && x !in c
    ensures a == c && b == d
  {
    var whole := a + [x] + b;
    assert whole[|a|] == x && whole[|c|] == x;
    assert a == whole[..|a|] && c == whole[..|c|];
    assert b == whole[|a| + 1..] && d == whole[|c| + 1..];
  }

  lemma DigitsHaveNoSeparator(s: seq<byte>)
    requires AllDigits(s)
    ensures SPACE !in s && TAG_SEPARATOR !in s
  {
  }

  /** The part of a rendered line before the space: the address, then
      the tag behind a '#' when there is one. */
  function RenderHead(address: Text, tag: Option<nat>): Text {
    address + (if tag.Some? then [TAG_SEPARATOR] + DecimalBytes(tag.value) else [])
  }

  lemma HeadHasNoSpace(address: Text, tag: Option<nat>)
    requires SPACE !in address
    ensures SPACE !in RenderHead(address, tag)
  {
    if tag.Some? {
      DigitsHaveNoSeparator(DecimalBytes(tag.value));
    }
  }

  /** The head of a rendered line is cut at the tag's '#' and its tag
      parses back. */
  lemma CutHead(address: Text, tag: Option<nat>)
    requires TAG_SEPARATOR !in address && |RenderHead(address, tag)| <= INT_MAX
    requires tag.Some? ==> tag.value <= INT_MAX
    ensures var addr := Cut(RenderHead(address, tag), TAG_SEPARATOR).value;
      addr.0 == address && (addr.1.Some? <==> tag.Some?)
      && (tag.Some? ==> JavaParseInt(addr.1.value) == Ok(tag.value))
  {
    var head := RenderHead(address, tag);
    var addr := Cut(head, TAG_SEPARATOR).value;
    if tag.Some? {
      var digits := DecimalBytes(tag.value);
      DigitsHaveNoSeparator(digits);
      assert TAG_SEPARATOR in head by {
        assert head[|address|] == TAG_SEPARATOR;
      }
      SplitUnique(addr.0, addr.1.value, address, digits, TAG_SEPARATOR);
      assert SignedDecimal(digits) && SignedDecimalValue(digits) == tag.value;
    } else {
      assert head == address;
    }
  }

  /** Round trip: a rendered line parses back to its address, tag (0 when
      absent) and content, whatever the content holds. */
  lemma ParseRenderedLine(address: Text, tag: Option<nat>, content: Text)
    requires SPACE !in address && TAG_SEPARATOR !in address
    requires tag.Some? ==> tag.value <= INT_MAX
    requires |RenderLine(address, tag, content)| <= INT_MAX
    ensures ParseLine(RenderLine(address, tag, content))
      == Ok(LineMessage(address, if tag.Some? then tag.value else 0, content))
  {
    var line := RenderLine(address, tag, content);
    var head := RenderHead(address, tag);
    assert line == head + [SPACE] + content;
    HeadHasNoSpace(address, tag);
    assert SPACE in line by {
      assert line[|head|] == SPACE;
    }
    var parts := Cut(line, SPACE).value;
    SplitUnique(parts.0, parts.1.value, head, content, SPACE);
    CutHead(address, tag);
  }

  /** A line with a space but without '#' keeps the whole first part as the
      address, with tag 0. */
  lemma NoTagMeansZero(line: Text)
    requires |line| <= INT_MAX && SPACE in line
    requires TAG_SEPARATOR !in Cut(line, SPACE).value.0
    ensures ParseLine(line).Ok? && ParseLine(line).value.tag == 0
    ensures ParseLine(line).value.address == Cut(line, SPACE).value.0
  {
  }

  /** A tag that is not a numeral fails the whole line. */
  lemma EmptyTagFails(address: Text, content: Text)
    requires SPACE !in address && TAG_SEPARATOR !in address
    requires |address| + 2 + |content| <= INT_MAX
    ensures ParseLine(address + [TAG_SEPARATOR] + [SPACE] + content) == Err(NumberFormat)
  {
    var line := address + [TAG_SEPARATOR] + [SPACE] + content;
    assert line == (address + [TAG_SEPARATOR]) + [SPACE] + content;
    assert SPACE !in address + [TAG_SEPARATOR];
    var parts := Cut(line, SPACE).value;
    SplitUnique(parts.0, parts.1.value, address + [TAG_SEPARATOR], content, SPACE);
    var addr := Cut(parts.0, TAG_SEPARATOR).value;
    SplitUnique(addr.0, addr.1.value, address, [], TAG_SEPARATOR);
  }

  // ---------------------------------------------------------------------
  // The input loop

  /** A session instance of the engine. */
  type Instance = nat

  /** `session.getInstance(new InstanceTag(tag))`: the instance, `null`, or
      the exception `InstanceTag` raises for a tag it does not accept. */
  type Instances = (Session, int32) -> Result<Option<Instance>, Failure>

  /** `instance.transformSending(content)`: the parts to send, or an OtrException. */
  type InstanceSending = (Instance, Text) -> Result<seq<Text>, Failure>

  ghost predicate ShortSending(transform: InstanceSending) {
    forall i, t :: transform(i, t).Ok? ==> ValidValues(transform(i, t).value)
  }

  /** The user input loop. It only ends by an exception leaving `main`; the
      end of the input is `parseLine(null)`, a NullPointerException. */
  function InputLoop(d: Directory, localID: Text, lines: seq<Text>, out: Sink,
                     instances: Instances, transform: InstanceSending): (r: (Directory, Sink, Failure))
    requires Valid(d) && ShortLines(lines) && ShortSending(transform)
    ensures Valid(r.0)
    ensures |lines| == 0 ==> r.2 == NullPointer
    ensures r.1.open == out.open
    decreases |lines|
  {
    if |lines| == 0 then (d, out, NullPointer)
    else
      match ParseLine(lines[0])
      case Err(e) => (d, out, e)
      case Ok(m) =>
        var (d1, session) := SendSession(d, localID, m.address);
        match instances(session, m.tag)
        case Err(e) => (d1, out, e)
        case Ok(None) => InputLoop(d1, localID, lines[1..], out, instances, transform)
        case Ok(Some(instance)) =>
          match transform(instance, m.content)
          case Err(e) => (d1, out, e)
          case Ok(parts) =>
            match SendMessage(out, m.address, parts)
            case Err(e) => (d1, out, e)
            case Ok(out1) => InputLoop(d1, localID, lines[1..], out1, instances, transform)
  }

  /** A line without a space stops the client before anything is sent. */
  lemma InvalidLineStops(d: Directory, localID: Text, lines: seq<Text>, out: Sink,
                         instances: Instances, transform: InstanceSending)
    requires Valid(d) && ShortLines(lines) && ShortSending(transform)
    requires |lines| > 0 && SPACE !in lines[0]
    ensures InputLoop(d, localID, lines, out, instances, transform) == (d, out, IllegalArgument(INVALID_LINE))
  {
  }

  /** A tag the session has no instance for: the line is ignored, nothing
      is sent for it, and the loop goes on with the next line. */
  lemma UnknownInstanceSkipped(d: Directory, localID: Text, lines: seq<Text>, out: Sink,
                               instances: Instances, transform: InstanceSending)
    requires Valid(d) && ShortLines(lines) && ShortSending(transform)
    requires |lines| > 0 && ParseLine(lines[0]).Ok?
    requires var m := ParseLine(lines[0]).value;
      instances(SendSession(d, localID, m.address).1, m.tag) == Ok(None)
    ensures var m := ParseLine(lines[0]).value;
      InputLoop(d, localID, lines, out, instances, transform)
      == InputLoop(SendSession(d, localID, m.address).0, localID, lines[1..], out, instances, transform)
  {
  }

  /** One line for a known instance: its parts go to the typed address,
      then the input ends. */
  lemma OneLineSent(d: Directory, localID: Text, line: Text, out: Sink,
                    instances: Instances, transform: InstanceSending)
    requires Valid(d) && |line| <= INT_MAX && ShortSending(transform) && out.open
    requires ParseLine(line).Ok?
    requires var m := ParseLine(line).value;
      var i := instances(SendSession(d, localID, m.address).1, m.tag);
      i.Ok? && i.value.Some? && transform(i.value.value, m.content).Ok?
    ensures var m := ParseLine(line).value;
      var instance := instances(SendSession(d, localID, m.address).1, m.tag).value.value;
      var r := InputLoop(d, localID, [line], out, instances, transform);
      r.1.data == out.data + Pairs(m.address, transform(instance, m.content).value) && r.2 == NullPointer
  {
    assert [line][1..] == [];
  }

  /** The input loop never drops or replaces a session. */
  lemma {:induction false} InputKeepsSessions(d: Directory, localID: Text, lines: seq<Text>, out: Sink,
                                              instances: Instances, transform: InstanceSending)
    requires Valid(d) && ShortLines(lines) && ShortSending(transform)
    ensures Keeps(d, InputLoop(d, localID, lines, out, instances, transform).0)
    decreases |lines|
  {
    if |lines| > 0 && ParseLine(lines[0]).Ok? {
      var m := ParseLine(lines[0]).value;
      var (d1, session) := SendSession(d, localID, m.address);
      LinesTail(lines);
      var out1 := InputLoopNext(d, localID, lines, out, instances, transform);
      if out1.Some? {
        InputKeepsSessions(d1, localID, lines[1..], out1.value, instances, transform);
      }
    }
  }

  lemma LinesTail(lines: seq<Text>)
    requires |lines| > 0 && ShortLines(lines)
    ensures ShortLines(lines[1..])
  {
    assert forall i :: 0 <= i < |lines[1..]| ==> lines[1..][i] == lines[i + 1];
  }

  /** Whether the loop goes on after the first line, and with what
      connection: `None` when the first line ends it. */
  function InputLoopNext(d: Directory, localID: Text, lines: seq<Text>, out: Sink,
                         instances: Instances, transform: InstanceSending): (r: Option<Sink>)
    requires Valid(d) && ShortLines(lines) && ShortSending(transform) && |lines| > 0
    ensures r.Some? ==> ParseLine(lines[0]).Ok?
    ensures r.Some? ==>
      var m := ParseLine(lines[0]).value;
      var d1 := SendSession(d, localID, m.address).0;
      ShortLines(lines[1..])
      && InputLoop(d, localID, lines, out, instances, transform)
        == InputLoop(d1, localID, lines[1..], r.value, instances, transform)
    ensures r.Some? ==>
      r.value.open == out.open
      && r.value.data == out.data + LineSent(SendSession(d, localID, ParseLine(lines[0]).value.address).0,
                                             localID, lines[0], instances, transform)
    ensures r.None? ==>
      InputLoop(d, localID, lines, out, instances, transform).0
        == (if ParseLine(lines[0]).Ok? then SendSession(d, localID, ParseLine(lines[0]).value.address).0 else d)
  {
    LinesTail(lines);
    match ParseLine(lines[0])
    case Err(_) => None
    case Ok(m) =>
      var session := SendSession(d, localID, m.address).1;
      match instances(session, m.tag)
      case Err(_) => None
      case Ok(None) => Some(out)
      case Ok(Some(instance)) =>
        match transform(instance, m.content)
        case Err(_) => None
        case Ok(parts) =>
          match SendMessage(out, m.address, parts)
          case Err(_) => None
          case Ok(out1) => Some(out1)
  }

  /** Reference definition: what one parsed line sends when the session
      kept for its address is looked up in `d`: nothing when the session
      has no instance for its tag, else the transformed parts. */
  ghost function LineSent(d: Directory, localID: Text, line: Text, instances: Instances,
                          transform: InstanceSending): seq<byte>
    requires |line| <= INT_MAX && ParseLine(line).Ok? && ShortSending(transform)
  {
    var m := ParseLine(line).value;
    var id := EchoSessionID(localID, m.address);
    if id !in d.sessions then []
    else
      match instances(d.sessions[id], m.tag)
      case Ok(Some(instance)) =>
        if transform(instance, m.content).Ok? then Pairs(m.address, transform(instance, m.content).value) else []
      case _ => []
  }

  /** What a line sends depends only on the session kept for its address. */
  lemma LineSentKept(d: Directory, later: Directory, localID: Text, line: Text, instances: Instances,
                     transform: InstanceSending)
    requires |line| <= INT_MAX && ParseLine(line).Ok? && ShortSending(transform) && Keeps(d, later)
    requires EchoSessionID(localID, ParseLine(line).value.address) in d.sessions
    ensures LineSent(later, localID, line, instances, transform) == LineSent(d, localID, line, instances, transform)
  {
  }

  /** Every line is a well-formed message line. */
  predicate AllParse(lines: seq<Text>)
    requires ShortLines(lines)
  {
    forall i :: 0 <= i < |lines| ==> ParseLine(lines[i]).Ok?
  }

  /** Reference definition: what the lines send, one after the other. */
  ghost function LinesSent(d: Directory, localID: Text, lines: seq<Text>, instances: Instances,
                           transform: InstanceSending): seq<byte>
    requires ShortLines(lines) && AllParse(lines) && ShortSending(transform)
  {
    if |lines| == 0 then []
    else
      LinesTail(lines);
      assert AllParse(lines[1..]) by {
        assert forall i :: 0 <= i < |lines[1..]| ==> lines[1..][i] == lines[i + 1];
      }
      LineSent(d, localID, lines[0], instances, transform) + LinesSent(d, localID, lines[1..], instances, transform)
  }

  /** Every tag is accepted, whether or not it names an instance. */
  ghost predicate NoTagRefused(instances: Instances) {
    forall session, tag :: instances(session, tag).Ok?
  }

  /** The engine transforms every content. */
  ghost predicate NeverFails(transform: InstanceSending) {
    forall instance, content :: transform(instance, content).Ok?
  }

  /** Under those conditions a well-formed first line never ends the loop. */
  lemma FirstLineGoesOn(d: Directory, localID: Text, lines: seq<Text>, out: Sink,
                        instances: Instances, transform: InstanceSending)
    requires Valid(d) && ShortLines(lines) && ShortSending(transform) && out.open && |lines| > 0
    requires ParseLine(lines[0]).Ok? && NoTagRefused(instances) && NeverFails(transform)
    ensures InputLoopNext(d, localID, lines, out, instances, transform).Some?
  {
    var m := ParseLine(lines[0]).value;
    var session := SendSession(d, localID, m.address).1;
    assert instances(session, m.tag).Ok?;
    var instance := instances(session, m.tag).value;
    if instance.Some? {
      assert transform(instance.value, m.content).Ok?;
    }
  }

  /** When every line is well formed, no tag is refused and the engine
      never fails, the loop reads the input to its end and sends, in
      input order, the parts of every line whose tag names an instance of
      its session, through the session the directory keeps for its
      address; the lines without an instance send nothing. */
  lemma {:induction false} AllLinesSent(d: Directory, localID: Text, lines: seq<Text>, out: Sink,
                                        instances: Instances, transform: InstanceSending)
    requires Valid(d) && ShortLines(lines) && ShortSending(transform) && out.open
    requires AllParse(lines)
    requires NoTagRefused(instances) && NeverFails(transform)
    ensures var r := InputLoop(d, localID, lines, out, instances, transform);
      r.2 == NullPointer && r.1.data == out.data + LinesSent(r.0, localID, lines, instances, transform)
    decreases |lines|
  {
    if |lines| > 0 {
      var m := ParseLine(lines[0]).value;
      var (d1, session) := SendSession(d, localID, m.address);
      LinesTail(lines);
      assert AllParse(lines[1..]) by {
        assert forall i :: 0 <= i < |lines[1..]| ==> lines[1..][i] == lines[i + 1];
      }
      var out1 := InputLoopNext(d, localID, lines, out, instances, transform);
      FirstLineGoesOn(d, localID, lines, out, instances, transform);
      AllLinesSent(d1, localID, lines[1..], out1.value, instances, transform);
      InputKeepsSessions(d1, localID, lines[1..], out1.value, instances, transform);
      var r := InputLoop(d1, localID, lines[1..], out1.value, instances, transform);
      LineSentKept(d1, r.0, localID, lines[0], instances, transform);
      var first := LineSent(r.0, localID, lines[0], instances, transform);
      assert LinesSent(r.0, localID, lines, instances, transform)
        == first + LinesSent(r.0, localID, lines[1..], instances, transform);
      AppendAssoc(out.data, first, LinesSent(r.0, localID, lines[1..], instances, transform));
    }
  }
}
