/** OTR session ids and the early draft client's session directory
    (package `otr4jechoserver`, class `StdinClient`): one map from session
    id to session, shared by the thread that reads from the network and the
    loop that reads the user's input, filled by `computeIfAbsent`. The
    sessions themselves belong to the OTR engine and are left abstract: a
    session is known by the order in which `createSession` made it. */
module Sessions {
  import opened Bytes
  import opened Wrappers
  import opened Failures
  import opened Streams
  import opened EchoProtocol

  /** The protocol name every session id carries. */
  const ECHO: Text := [101, 99, 104, 111]  // "echo"

  datatype SessionID = SessionID(accountID: Text, userID: Text, protocolName: Text)

  /** `new SessionID(localID, address, "echo")`. */
  function EchoSessionID(localID: Text, address: Text): (r: SessionID)
    ensures r.accountID == localID && r.userID == address && r.protocolName == ECHO
  {
    SessionID(localID, address, ECHO)
  }

  /** A session made by `createSession`: the n-th one made. */
  type Session = nat

  /** `SESSIONS`, together with the log of the ids `createSession` was
      called for, in order. */
  datatype Directory = Directory(sessions: map<SessionID, Session>, created: seq<SessionID>)

  /** Every session in the map was created for its own key, and every
      creation is in the map. */
  predicate Valid(d: Directory) {
    (forall i :: 0 <= i < |d.created| ==> d.created[i] in d.sessions && d.sessions[d.created[i]] == i)
    && (forall k :: k in d.sessions ==> d.sessions[k] < |d.created| && d.created[d.sessions[k]] == k)
  }

  function EmptyDirectory(): (d: Directory)
    ensures Valid(d) && |d.created| == 0
  {
    Directory(map[], [])
  }

  /** `later` still holds every session `earlier` held, unchanged. */
  ghost predicate Keeps(earlier: Directory, later: Directory) {
    forall id :: id in earlier.sessions ==> id in later.sessions && later.sessions[id] == earlier.sessions[id]
  }

  /** `SESSIONS.computeIfAbsent(id, id -> createSession(id, host))`. */
  function GetOrCreate(d: Directory, id: SessionID): (r: (Directory, Session))
    requires Valid(d)
    ensures Valid(r.0)
    ensures id in d.sessions ==> r == (d, d.sessions[id])
    ensures id !in d.sessions ==> r.0.created == d.created + [id] && r.1 == |d.created|
    ensures r.0.sessions == d.sessions[id := r.1]
  {
    if id in d.sessions then (d, d.sessions[id])
    else (Directory(d.sessions[id := |d.created|], d.created + [id]), |d.created|)
  }

  /** The reader thread's lookup for a message from `address`. */
  function ReceiveSession(d: Directory, localID: Text, m: Message): (r: (Directory, Session))
    requires Valid(d)
    ensures Valid(r.0) && EchoSessionID(localID, m.address) in r.0.sessions
    ensures r.0.sessions[EchoSessionID(localID, m.address)] == r.1
  {
    GetOrCreate(d, EchoSessionID(localID, m.address))
  }

  /** The input loop's lookup for a message typed to `address`. */
  function SendSession(d: Directory, localID: Text, address: Text): (r: (Directory, Session))
    requires Valid(d)
    ensures Valid(r.0) && EchoSessionID(localID, address) in r.0.sessions
    ensures r.0.sessions[EchoSessionID(localID, address)] == r.1
  {
    GetOrCreate(d, EchoSessionID(localID, address))
  }

  /** `transformReceiving` of the engine: the plain text of a message, or an
      OtrException. */
  type TransformReceiving = (Session, Text) -> Result<Text, Failure>

  /** The reader thread: receive, look up the session, let the engine
      process the content; an engine failure is logged and reading goes
      on, a failed receive ends the thread. The result is the directory,
      the session each message went to, and the failure that ended it. */
  function ReaderLoop(d: Directory, localID: Text, s: Stream, transform: TransformReceiving)
    : (r: (Directory, seq<Session>, Failure))
    requires Valid(d)
    ensures Valid(r.0)
    ensures r.2 == ProtocolException || r.2 == NegativeArraySize
    ensures d.sessions.Keys <= r.0.sessions.Keys
    decreases |Content(s)|
  {
    match ReceiveMessage(s)
    case Err(e) => (d, [], e)
    case Ok((m, s1)) =>
      var (d1, session) := ReceiveSession(d, localID, m);
      var _ := transform(session, m.content);  // only logged, failure or not
      var (d2, used, e) := ReaderLoop(d1, localID, s1, transform);
      (d2, [session] + used, e)
  }

  /** How the user input loop ended. */
  datatype InputEnd =
    | Stopped                // an empty address line
    | EndOfInput             // `readLine` returned null (what the engine does with it is not modelled)
    | Failed(error: Failure) // an exception leaving `main`

  /** `transformSending` of the engine: the parts to send for a text. */
  type TransformSending = (Session, Text) -> Result<seq<Text>, Failure>

  ghost predicate ShortParts(transform: TransformSending) {
    forall s, t :: transform(s, t).Ok? ==> ValidValues(transform(s, t).value)
  }

  predicate ShortLines(lines: seq<Text>) {
    forall i :: 0 <= i < |lines| ==> |lines[i]| <= INT_MAX
  }

  /** The user input loop: an address line, a content line, then the
      transformed parts are sent to that address. */
  function InputLoop(d: Directory, localID: Text, lines: seq<Text>, out: Sink, transform: TransformSending)
    : (r: (Directory, Sink, InputEnd))
    requires Valid(d) && ShortLines(lines) && ShortParts(transform)
    ensures Valid(r.0)
    decreases |lines|
  {
    if |lines| == 0 then (d, out, EndOfInput)
    else if lines[0] == [] then (d, out, Stopped)
    else if |lines| == 1 then (d, out, EndOfInput)
    else
      var (address, content) := (lines[0], lines[1]);
      var (d1, session) := SendSession(d, localID, address);
      match transform(session, content)
      case Err(e) => (d1, out, Failed(e))
      case Ok(parts) =>
        match SendMessage(out, address, parts)
        case Err(e) => (d1, out, Failed(e))
        case Ok(out1) => InputLoop(d1, localID, lines[2..], out1, transform)
  }

  // ---------------------------------------------------------------------
  // Properties

  /** `createSession` is called at most once per id. */
  lemma CreatedOnce(d: Directory, i: nat, j: nat)
    requires Valid(d) && i < |d.created| && j < |d.created| && d.created[i] == d.created[j]
    ensures i == j
  {
  }

  /** A second lookup of the same id returns the stored session and creates nothing. */
  lemma LookupAgain(d: Directory, id: SessionID)
    requires Valid(d)
    ensures var (d1, s1) := GetOrCreate(d, id);
      GetOrCreate(d1, id) == (d1, s1)
  {
  }

  /** The session the reader thread opened for a peer is the one the input
      loop uses to send to that peer, and the other way round. */
  lemma SharedBetweenPaths(d: Directory, localID: Text, m: Message)
    requires Valid(d)
    ensures var (d1, s1) := ReceiveSession(d, localID, m);
      SendSession(d1, localID, m.address) == (d1, s1)
    ensures var (d1, s1) := SendSession(d, localID, m.address);
      ReceiveSession(d1, localID, m) == (d1, s1)
  {
  }

  /** Whether the engine fails on a message does not change what the reader
      does next: the failure is only logged. */
  lemma {:induction false} EngineFailureIgnored(d: Directory, localID: Text, s: Stream, t1: TransformReceiving, t2: TransformReceiving)
    requires Valid(d)
    ensures ReaderLoop(d, localID, s, t1) == ReaderLoop(d, localID, s, t2)
    decreases |Content(s)|
  {
    match ReceiveMessage(s)
    case Err(e) =>
    case Ok((m, s1)) =>
      var (d1, session) := ReceiveSession(d, localID, m);
      EngineFailureIgnored(d1, localID, s1, t1, t2);
  }

  /** The input loop never drops a session: every id it found in the
      directory is still there, with the same session, when it ends. */
  lemma {:induction false} InputKeepsSessions(d: Directory, localID: Text, lines: seq<Text>, out: Sink, transform: TransformSending)
    requires Valid(d) && ShortLines(lines) && ShortParts(transform)
    ensures Keeps(d, InputLoop(d, localID, lines, out, transform).0)
    decreases |lines|
  {
    if |lines| >= 2 && lines[0] != [] {
      var (address, content) := (lines[0], lines[1]);
      var (d1, session) := SendSession(d, localID, address);
      match transform(session, content)
      case Err(e) =>
      case Ok(parts) =>
        match SendMessage(out, address, parts)
        case Err(e) =>
        case Ok(out1) =>
          assert ShortLines(lines[2..]) by {
            forall i | 0 <= i < |lines[2..]| ensures |lines[2..][i]| <= INT_MAX {
              assert lines[2..][i] == lines[i + 2];
            }
          }
          InputKeepsSessions(d1, localID, lines[2..], out1, transform);
    }
  }

  /** Reference definition: the messages a reader receives from `s`, in
      order, up to the first receive that fails. */
  function Inbox(s: Stream): seq<Message>
    decreases |Content(s)|
  {
    match ReceiveMessage(s)
    case Err(_) => []
    case Ok((m, s1)) => [m] + Inbox(s1)
  }

  /** The reader never drops or replaces a session. */
  lemma {:induction false} ReaderKeepsSessions(d: Directory, localID: Text, s: Stream, transform: TransformReceiving)
    requires Valid(d)
    ensures Keeps(d, ReaderLoop(d, localID, s, transform).0)
    decreases |Content(s)|
  {
    var received := ReceiveMessage(s);
    if received.Ok? {
      var (m, s1) := received.value;
      var (d1, session) := ReceiveSession(d, localID, m);
      ReaderKeepsSessions(d1, localID, s1, transform);
      assert ReaderLoop(d, localID, s, transform).0 == ReaderLoop(d1, localID, s1, transform).0;
    }
  }

  /** Each of `messages` was processed on the session `d` keeps for its sender. */
  ghost predicate FiledUnder(messages: seq<Message>, used: seq<Session>, d: Directory, localID: Text) {
    |used| == |messages|
    && forall i :: 0 <= i < |messages| ==>
      EchoSessionID(localID, messages[i].address) in d.sessions
      && d.sessions[EchoSessionID(localID, messages[i].address)] == used[i]
  }

  /** Every message the reader receives, in order, is processed on the
      session of its sender, the one the directory holds for it when the
      reader stops. */
  lemma {:induction false} ReaderFilesAll(d: Directory, localID: Text, s: Stream, transform: TransformReceiving)
    requires Valid(d)
    ensures var r := ReaderLoop(d, localID, s, transform);
      FiledUnder(Inbox(s), r.1, r.0, localID)
    decreases |Content(s)|
  {
    var received := ReceiveMessage(s);
    if received.Err? {
      assert Inbox(s) == [] && ReaderLoop(d, localID, s, transform).1 == [];
    } else {
      var (m, s1) := received.value;
      var (d1, session) := ReceiveSession(d, localID, m);
      ReaderFilesAll(d1, localID, s1, transform);
      ReaderKeepsSessions(d1, localID, s1, transform);
      var r1 := ReaderLoop(d1, localID, s1, transform);
      assert ReaderLoop(d, localID, s, transform) == (r1.0, [session] + r1.1, r1.2);
      assert Inbox(s) == [m] + Inbox(s1);
      FiledCons(m, session, Inbox(s1), r1.1, r1.0, localID);
    }
  }

  lemma FiledCons(m: Message, session: Session, messages: seq<Message>, used: seq<Session>, d: Directory, localID: Text)
    requires FiledUnder(messages, used, d, localID)
    requires EchoSessionID(localID, m.address) in d.sessions && d.sessions[EchoSessionID(localID, m.address)] == session
    ensures FiledUnder([m] + messages, [session] + used, d, localID)
  {
    forall i | 0 < i < |messages| + 1
      ensures ([m] + messages)[i] == messages[i - 1] && ([session] + used)[i] == used[i - 1]
    {
    }
  }

  /** The reader files the first message under the session of its sender. */
  lemma ReaderFirstSession(d: Directory, localID: Text, s: Stream, transform: TransformReceiving)
    requires Valid(d) && ReceiveMessage(s).Ok?
    ensures var m := ReceiveMessage(s).value.0;
      var r := ReaderLoop(d, localID, s, transform);
      |r.1| > 0 && r.1[0] == ReceiveSession(d, localID, m).1 && EchoSessionID(localID, m.address) in r.0.sessions
  {
  }

  /** One address line, one content line and an empty line: the parts go
      out under that address, through the session kept for it. */
  lemma OneMessage(d: Directory, localID: Text, address: Text, content: Text, out: Sink, transform: TransformSending)
    requires Valid(d) && ShortParts(transform) && out.open
    requires 0 < |address| <= INT_MAX && |content| <= INT_MAX
    requires transform(SendSession(d, localID, address).1, content).Ok?
    ensures var r := InputLoop(d, localID, [address, content, []], out, transform);
      var parts := transform(SendSession(d, localID, address).1, content).value;
      r.0 == SendSession(d, localID, address).0 && r.1.data == out.data + Pairs(address, parts) && r.2 == Stopped
  {
    var lines := [address, content, []];
    assert lines[2..] == [[]];
  }
}
