/** The otr4j echo client (`client-otr4j`, class `EchoClient`): before
    every receive it drains the host's action queue, answering each
    request for the SMP secret with the fixed test secret; then it reads a
    message, lets the engine decrypt it, and sends the engine's reply to
    the sender. The engine is left abstract: what it makes of a message is
    passed in, as the calls it made into the host while doing so (events
    and injected messages, in order) and its result. */
module EchoClient {
  import opened Bytes
  import opened Wrappers
  import opened Failures
  import opened Streams
  import opened EchoProtocol
  import opened Sessions
  import opened Host

  /** `DEFAULT_SMP_SECRET`, "Password!". */
  const SMP_SECRET: Text := [80, 97, 115, 115, 119, 111, 114, 100, 33]

  /** What one `session.respondSmp(question, secret)` did: the messages the
      engine injected on the session meanwhile, in order, and whether it
      threw an OtrException, which is only logged. */
  datatype Responded = Responded(injected: seq<Text>, result: Result<(), Failure>)

  type Responding = (Session, Text, Text) -> Responded

  ghost predicate ShortResponses(respond: Responding) {
    forall session, question, secret :: ValidValues(respond(session, question, secret).injected)
  }

  /** One `respondSmp` call: the session, the question and the secret. */
  datatype Response = Response(session: Session, question: Text, secret: Text)

  /** What draining the queue did: the sessions and the host afterwards
      (what is left of the queue, what was written), the calls made in
      order, and the exception that stopped it, if any. */
  datatype Drained = Drained(directory: Directory, host: HostState, calls: seq<Response>, failure: Option<Failure>)

  predicate AllRequests(queue: seq<Action>) {
    forall i :: 0 <= i < |queue| ==> queue[i].event.SmpRequestSecret?
  }

  /** `poll`: the head of the queue is taken off. */
  function Poll(h: HostState): (r: HostState)
    requires Host.Valid(h) && |h.actions| > 0
    ensures Host.Valid(r) && r.out == h.out && r.actions == h.actions[1..]
  {
    assert forall i :: 0 <= i < |h.actions[1..]| ==> h.actions[1..][i] == h.actions[i + 1];
    h.(actions := h.actions[1..])
  }

  /** What one polled action led to: the sessions and the host after it,
      the `respondSmp` call made for it, if any, and the exception it
      threw, if any. */
  datatype Handled = Handled(directory: Directory, host: HostState, call: Option<Response>, failure: Option<Failure>)

  /** The body of `processActions`' loop on the polled head of the queue. A
      request for the secret is answered on the action's own session with
      the action's payload as question, and the messages the engine
      injects meanwhile are written; an OtrException from `respondSmp` is
      only logged, while the IllegalStateException of an injection into a
      closed connection is not caught. Any other action throws
      UnsupportedOperationException. */
  function HandleAction(d: Directory, h: HostState, respond: Responding): (r: Handled)
    requires Sessions.Valid(d) && Host.Valid(h) && ShortResponses(respond) && |h.actions| > 0
    ensures Sessions.Valid(r.directory) && Host.Valid(r.host) && r.host.out.open == h.out.open
    ensures r.host.actions == h.actions[1..]
    ensures r.call.Some? <==> h.actions[0].event.SmpRequestSecret?
    ensures r.call.None? ==> r.directory == d && r.failure == Some(UnsupportedOperation)
    ensures r.call.Some? ==>
      var id := h.actions[0].sessionID;
      r.directory.sessions == d.sessions[id := r.call.value.session]
      && (id in d.sessions ==> r.directory == d && r.call.value.session == d.sessions[id])
      && r.call.value.question == h.actions[0].payload && r.call.value.secret == SMP_SECRET
    ensures r.call.Some? ==>
      var injected := respond(r.call.value.session, r.call.value.question, r.call.value.secret).injected;
      (r.failure.None? <==> h.out.open || |injected| == 0)
      && (r.failure.Some? ==> r.failure.value == IllegalState)
      && (r.failure.None? ==> r.host.out.data == h.out.data + Pairs(h.actions[0].sessionID.userID, injected))
  {
    var a := h.actions[0];
    var polled := Poll(h);
    if a.event.SmpRequestSecret? then
      var (d1, session) := GetOrCreate(d, a.sessionID);
      var call := Response(session, a.payload, SMP_SECRET);
      var answer := respond(session, a.payload, SMP_SECRET);
      match InjectAll(polled, a.sessionID, answer.injected)
      case Err(e) => Handled(d1, polled, Some(call), Some(e))
      case Ok(h1) => Handled(d1, h1, Some(call), None)
    else Handled(d, polled, None, Some(UnsupportedOperation))
  }

  /** `processActions`: poll until the queue is empty or an action throws;
      the actions after one that throws stay queued. */
  function ProcessActions(d: Directory, h: HostState, respond: Responding): (r: Drained)
    requires Sessions.Valid(d) && Host.Valid(h) && ShortResponses(respond)
    ensures Sessions.Valid(r.directory) && Host.Valid(r.host) && r.host.out.open == h.out.open
    ensures r.failure.None? ==> r.host.actions == []
    ensures r.failure.Some? ==>
      (r.failure.value == UnsupportedOperation || r.failure.value == IllegalState) && |r.host.actions| < |h.actions|
    ensures |r.calls| <= |h.actions|
    decreases |h.actions|
  {
    if |h.actions| == 0 then Drained(d, h, [], None)
    else
      var step := HandleAction(d, h, respond);
      var calls := if step.call.Some? then [step.call.value] else [];
      if step.failure.Some? then Drained(step.directory, step.host, calls, step.failure)
      else
        var r := ProcessActions(step.directory, step.host, respond);
        Drained(r.directory, r.host, calls + r.calls, r.failure)
  }

  /** `calls` answer `queue` one for one: each with its action's payload
      as question and the test secret, on the session `directory` keeps
      under the action's session ID. */
  ghost predicate AnsweredIn(queue: seq<Action>, calls: seq<Response>, directory: Directory)
  {
    |calls| == |queue|
    && forall i :: 0 <= i < |queue| ==>
      calls[i].question == queue[i].payload && calls[i].secret == SMP_SECRET
      && queue[i].sessionID in directory.sessions
      && directory.sessions[queue[i].sessionID] == calls[i].session
  }

  lemma AnsweredCons(a: Action, call: Response, queue: seq<Action>, calls: seq<Response>, directory: Directory)
    requires AnsweredIn(queue, calls, directory)
    requires call.question == a.payload && call.secret == SMP_SECRET
    requires a.sessionID in directory.sessions && directory.sessions[a.sessionID] == call.session
    ensures AnsweredIn([a] + queue, [call] + calls, directory)
  {
    forall i | 0 < i < |queue| + 1
      ensures ([call] + calls)[i] == calls[i - 1] && ([a] + queue)[i] == queue[i - 1]
    {
    }
  }

  /** A request at the head of the queue on an open connection is
      answered on its own session and the rest of the queue is drained
      after it. */
  lemma AnswerHead(d: Directory, h: HostState, respond: Responding)
    requires Sessions.Valid(d) && Host.Valid(h) && ShortResponses(respond)
    requires |h.actions| > 0 && AllRequests(h.actions) && h.out.open
    ensures var step := HandleAction(d, h, respond);
      step.failure.None? && step.call.Some? && step.host.actions == h.actions[1..]
      && AllRequests(step.host.actions) && step.host.out.open
      && step.call.value.question == h.actions[0].payload && step.call.value.secret == SMP_SECRET
      && h.actions[0].sessionID in step.directory.sessions
      && step.directory.sessions[h.actions[0].sessionID] == step.call.value.session
      && var r1 := ProcessActions(step.directory, step.host, respond);
      ProcessActions(d, h, respond) == Drained(r1.directory, r1.host, [step.call.value] + r1.calls, r1.failure)
  {
    var queue := h.actions;
    var h1 := HandleAction(d, h, respond).host;
    assert AllRequests(h1.actions) by {
      forall i | 0 <= i < |h1.actions| ensures h1.actions[i].event.SmpRequestSecret? {
        assert h1.actions[i] == queue[i + 1];
      }
    }
  }

  /** A queue of requests on an open connection is answered completely,
      first in first out, each with its payload as question and the test
      secret, on the session its action names. */
  lemma {:induction false} AnswersInOrder(d: Directory, h: HostState, respond: Responding)
    requires Sessions.Valid(d) && Host.Valid(h) && ShortResponses(respond)
    requires AllRequests(h.actions) && h.out.open
    ensures var r := ProcessActions(d, h, respond);
      r.failure.None? && AnsweredIn(h.actions, r.calls, r.directory)
    decreases |h.actions|
  {
    if |h.actions| > 0 {
      var queue := h.actions;
      AnswerHead(d, h, respond);
      var step := HandleAction(d, h, respond);
      var h1 := step.host;
      AnswersInOrder(step.directory, h1, respond);
      DirectoryKeeps(step.directory, h1, respond);
      var r1 := ProcessActions(step.directory, h1, respond);
      assert Keeps(step.directory, r1.directory);
      assert queue == [queue[0]] + h1.actions;
      AnsweredCons(queue[0], step.call.value, h1.actions, r1.calls, r1.directory);
    }
  }

  lemma AnswersAll(d: Directory, h: HostState, respond: Responding)
    requires Sessions.Valid(d) && Host.Valid(h) && ShortResponses(respond)
    requires AllRequests(h.actions) && h.out.open
    ensures |ProcessActions(d, h, respond).calls| == |h.actions|
  {
    AnswersInOrder(d, h, respond);
  }

  /** Reference definition: the frames the answers to a queue of requests
      inject, one batch per request, each addressed to its session's user. */
  function AnswerFrames(queue: seq<Action>, calls: seq<Response>, respond: Responding): seq<byte>
    requires |calls| == |queue| && ShortIDs(queue) && ShortResponses(respond)
  {
    if |queue| == 0 then []
    else
      assert ShortIDs(queue[1..]) by {
        assert forall i :: 0 <= i < |queue[1..]| ==> queue[1..][i] == queue[i + 1];
      }
      Pairs(queue[0].sessionID.userID, respond(calls[0].session, calls[0].question, calls[0].secret).injected)
      + AnswerFrames(queue[1..], calls[1..], respond)
  }

  /** Draining a queue of requests on an open connection writes exactly
      the messages the engine injects while answering them, in the order
      of the queue. */
  lemma {:induction false} DrainWrites(d: Directory, h: HostState, respond: Responding)
    requires Sessions.Valid(d) && Host.Valid(h) && ShortResponses(respond)
    requires AllRequests(h.actions) && h.out.open
    ensures var r := ProcessActions(d, h, respond);
      |r.calls| == |h.actions| && r.host.out.data == h.out.data + AnswerFrames(h.actions, r.calls, respond)
    decreases |h.actions|
  {
    AnswersAll(d, h, respond);
    if |h.actions| > 0 {
      var queue := h.actions;
      AnswerHead(d, h, respond);
      var step := HandleAction(d, h, respond);
      var h1 := step.host;
      DrainWrites(step.directory, h1, respond);
      var r1 := ProcessActions(step.directory, h1, respond);
      var r := ProcessActions(d, h, respond);
      var call := step.call.value;
      assert r.calls == [call] + r1.calls;
      assert r.calls[1..] == r1.calls && h1.actions == queue[1..] && r.calls[0] == call;
      var first := Pairs(queue[0].sessionID.userID, respond(call.session, call.question, call.secret).injected);
      assert AnswerFrames(queue, r.calls, respond) == first + AnswerFrames(h1.actions, r1.calls, respond);
      assert h1.out.data == h.out.data + first;
      assert r.host == r1.host;
      var rest := AnswerFrames(h1.actions, r1.calls, respond);
      assert r.host.out.data == h1.out.data + rest;
      AppendAssoc(h.out.data, first, rest);
    } else {
      assert h.out.data + AnswerFrames(h.actions, [], respond) == h.out.data;
    }
  }

  /** Draining never drops or changes a session. */
  lemma {:induction false} DirectoryKeeps(d: Directory, h: HostState, respond: Responding)
    requires Sessions.Valid(d) && Host.Valid(h) && ShortResponses(respond)
    ensures Keeps(d, ProcessActions(d, h, respond).directory)
    decreases |h.actions|
  {
    if |h.actions| > 0 {
      var step := HandleAction(d, h, respond);
      assert Keeps(d, step.directory);
      if step.failure.None? {
        DirectoryKeeps(step.directory, step.host, respond);
        assert ProcessActions(d, h, respond).directory == ProcessActions(step.directory, step.host, respond).directory;
      }
    }
  }

  /** Whether `respondSmp` throws changes nothing about the draining: only
      the messages it injects count. */
  lemma {:induction false} RespondFailureIgnored(d: Directory, h: HostState, r1: Responding, r2: Responding)
    requires Sessions.Valid(d) && Host.Valid(h) && ShortResponses(r1) && ShortResponses(r2)
    requires forall session, question, secret ::
      r1(session, question, secret).injected == r2(session, question, secret).injected
    ensures ProcessActions(d, h, r1) == ProcessActions(d, h, r2)
    decreases |h.actions|
  {
    if |h.actions| > 0 {
      var step := HandleAction(d, h, r1);
      assert step == HandleAction(d, h, r2);
      if step.failure.None? {
        RespondFailureIgnored(step.directory, step.host, r1, r2);
      }
    }
  }

  /** An action of another kind at the head of the queue stops the client
      before anything is answered. */
  lemma OtherActionStops(d: Directory, h: HostState, respond: Responding)
    requires Sessions.Valid(d) && Host.Valid(h) && ShortResponses(respond)
    requires |h.actions| > 0 && !h.actions[0].event.SmpRequestSecret?
    ensures ProcessActions(d, h, respond) == Drained(d, Poll(h), [], Some(UnsupportedOperation))
  {
    assert HandleAction(d, h, respond) == Handled(d, Poll(h), None, Some(UnsupportedOperation));
  }

  /** Whatever callbacks the host has been given, draining its queue never
      throws while the connection is open: `handleEvent` queues nothing but
      requests for the secret. */
  lemma HostQueueDrains(d: Directory, h: HostState, cs: seq<Callback>, respond: Responding)
    requires Sessions.Valid(d) && Host.Valid(h) && ShortCallbacks(cs) && ShortResponses(respond)
    requires h.actions == [] && h.out.open && Dispatch(h, cs).Ok?
    ensures ProcessActions(d, Dispatch(h, cs).value, respond).failure.None?
  {
    QueueHoldsRequests(h, cs);
    assert Dispatch(h, cs).value.actions == Requests(cs);
    AnswersInOrder(d, Dispatch(h, cs).value, respond);
  }

  /** `processMessage`, given what `transformReceiving` produced: nothing
      is sent for an OtrException or for a message without content for the
      user; otherwise the engine's parts for that content go back to the
      sender. Only an IOException from sending leaves it. */
  function ProcessMessage(raw: Message, out: Sink, session: Session,
                          received: Result<Option<Text>, Failure>, sending: TransformSending): (r: Result<Sink, Failure>)
    requires |raw.address| <= INT_MAX && ShortParts(sending)
    ensures r.Err? ==> r.error == IOException && !out.open
    ensures received.Err? || received == Ok(None) ==> r == Ok(out)
    ensures received.Ok? && received.value.Some? && sending(session, received.value.value).Err? ==> r == Ok(out)
    ensures received.Ok? && received.value.Some? && sending(session, received.value.value).Ok? ==>
      (r.Ok? <==> out.open || |sending(session, received.value.value).value| == 0)
      && (r.Ok? ==> r.value.data == out.data + Pairs(raw.address, sending(session, received.value.value).value))
  {
    match received
    case Err(_) => Ok(out)
    case Ok(None) => Ok(out)
    case Ok(Some(content)) =>
      match sending(session, content)
      case Err(_) => Ok(out)
      case Ok(parts) => SendMessage(out, raw.address, parts)
  }

  /** The reply reaches the sender: the first message the relay reads
      from what was written is the first part, addressed to the sender. */
  lemma ReplyAddressedToSender(raw: Message, out: Sink, session: Session, content: Text,
                               sending: TransformSending, rest: Stream)
    requires |raw.address| <= INT_MAX && ShortParts(sending) && out.open
    requires sending(session, content).Ok? && |sending(session, content).value| > 0
    ensures var parts := sending(session, content).value;
      var written := ProcessMessage(raw, out, session, Ok(Some(content)), sending).value.data[|out.data|..];
      ReceiveMessage(Push(written, rest)).Ok?
      && ReceiveMessage(Push(written, rest)).value.0 == Message(raw.address, parts[0])
  {
    var parts := sending(session, content).value;
    var written := ProcessMessage(raw, out, session, Ok(Some(content)), sending).value.data[|out.data|..];
    assert written == Pairs(raw.address, parts) + [];
    ReceiveFirstPart(raw.address, parts, [], rest);
  }

  /** What the engine made of one received message: the calls it made
      into the host while processing it, in order, and its result. */
  datatype Reaction = Reaction(callbacks: seq<Callback>, result: Result<Option<Text>, Failure>)

  type Receiving = (Session, Text) -> Reaction

  ghost predicate ShortReactions(receiving: Receiving) {
    forall session, content :: ShortCallbacks(receiving(session, content).callbacks)
  }

  /** The client's state between two messages. */
  datatype Client = Client(directory: Directory, host: HostState, answered: seq<Response>)

  predicate ValidClient(c: Client) {
    Sessions.Valid(c.directory) && Host.Valid(c.host)
  }

  /** One turn of the main loop ends with the client and the rest of the
      stream, or with the client and the exception that leaves `main`. */
  datatype Turn = Next(client: Client, rest: Stream) | Stop(client: Client, failure: Failure)

  /** One turn: drain the queue, receive, find the sender's session, let
      the engine process the message (its calls into the host handled in
      order), reply. */
  function Step(c: Client, localID: Text, s: Stream, receiving: Receiving, respond: Responding,
                sending: TransformSending): (r: Turn)
    requires ValidClient(c) && ShortReactions(receiving) && ShortResponses(respond) && ShortParts(sending)
    ensures ValidClient(r.client)
    ensures r.client.answered == c.answered + ProcessActions(c.directory, c.host, respond).calls
    ensures r.Next? ==> |Content(r.rest)| < |Content(s)|
  {
    var drained := ProcessActions(c.directory, c.host, respond);
    var answered := c.answered + drained.calls;
    if drained.failure.Some? then Stop(Client(drained.directory, drained.host, answered), drained.failure.value)
    else
      match ReceiveMessage(s)
      case Err(e) => Stop(Client(drained.directory, drained.host, answered), e)
      case Ok((raw, s1)) =>
        var (d1, session) := ReceiveSession(drained.directory, localID, raw);
        var reaction := receiving(session, raw.content);
        match Dispatch(drained.host, reaction.callbacks)
        case Err(e) => Stop(Client(d1, drained.host, answered), e)
        case Ok(host1) =>
          match ProcessMessage(raw, host1.out, session, reaction.result, sending)
          case Err(e) => Stop(Client(d1, host1, answered), e)
          case Ok(out) => Next(Client(d1, host1.(out := out), answered), s1)
  }

  /** The main loop: turn after turn until an exception leaves `main`. */
  function Run(c: Client, localID: Text, s: Stream, receiving: Receiving, respond: Responding,
               sending: TransformSending): (r: (Client, Failure))
    requires ValidClient(c) && ShortReactions(receiving) && ShortResponses(respond) && ShortParts(sending)
    ensures ValidClient(r.0)
    ensures |c.answered| <= |r.0.answered| && r.0.answered[..|c.answered|] == c.answered
    decreases |Content(s)|
  {
    match Step(c, localID, s, receiving, respond, sending)
    case Stop(c1, f) => (c1, f)
    case Next(c1, s1) =>
      var r := Run(c1, localID, s1, receiving, respond, sending);
      PrefixOfPrefix(c.answered, ProcessActions(c.directory, c.host, respond).calls, r.0.answered);
      r
  }

  lemma PrefixOfPrefix(a: seq<Response>, b: seq<Response>, c: seq<Response>)
    requires |a + b| <= |c| && c[..|a + b|] == a + b
    ensures |a| <= |c| && c[..|a|] == a
  {
    assert c[..|a|] == (a + b)[..|a|];
  }

  /** What `processMessage` writes for the engine's result: the reply parts
      for the content, addressed to the sender, or nothing. */
  function Reply(raw: Message, session: Session, received: Result<Option<Text>, Failure>,
                 sending: TransformSending): seq<byte>
    requires |raw.address| <= INT_MAX && ShortParts(sending)
  {
    if received.Ok? && received.value.Some? && sending(session, received.value.value).Ok?
    then Pairs(raw.address, sending(session, received.value.value).value)
    else []
  }

  /** In a turn with nothing to answer and an open connection, the
      connection gets, in order, the messages the engine injected while
      processing the received message and then the reply to it. */
  lemma StepWrites(c: Client, localID: Text, s: Stream, receiving: Receiving, respond: Responding,
                   sending: TransformSending)
    requires ValidClient(c) && ShortReactions(receiving) && ShortResponses(respond) && ShortParts(sending)
    requires c.host.actions == [] && c.host.out.open && ReceiveMessage(s).Ok?
    ensures var raw := ReceiveMessage(s).value.0;
      var session := ReceiveSession(c.directory, localID, raw).1;
      var reaction := receiving(session, raw.content);
      var r := Step(c, localID, s, receiving, respond, sending);
      Dispatch(c.host, reaction.callbacks).Ok? ==>
        r.Next? && r.client.host.out.data
          == c.host.out.data + Injected(reaction.callbacks) + Reply(raw, session, reaction.result, sending)
  {
    var raw := ReceiveMessage(s).value.0;
    var session := ReceiveSession(c.directory, localID, raw).1;
    var reaction := receiving(session, raw.content);
    assert ShortCallbacks(reaction.callbacks);
    assert ProcessActions(c.directory, c.host, respond) == Drained(c.directory, c.host, [], None);
    if Dispatch(c.host, reaction.callbacks).Ok? {
      var host1 := Dispatch(c.host, reaction.callbacks).value;
      DispatchWrites(c.host, reaction.callbacks);
      var replied := ProcessMessage(raw, host1.out, session, reaction.result, sending);
      assert replied.Ok? && replied.value.data == host1.out.data + Reply(raw, session, reaction.result, sending);
    }
  }

  /** Whatever follows, the answers given in the first turn are recorded
      right after the earlier ones. */
  lemma RunStartsWithDrain(c: Client, localID: Text, s: Stream, receiving: Receiving, respond: Responding,
                           sending: TransformSending)
    requires ValidClient(c) && ShortReactions(receiving) && ShortResponses(respond) && ShortParts(sending)
    ensures var r := Run(c, localID, s, receiving, respond, sending);
      var answered := c.answered + ProcessActions(c.directory, c.host, respond).calls;
      |r.0.answered| >= |answered| && r.0.answered[..|answered|] == answered
  {
    var step := Step(c, localID, s, receiving, respond, sending);
    if step.Next? {
      var _ := Run(step.client, localID, step.rest, receiving, respond, sending);
    }
  }

  /** The queue is drained before the next message is read: on an open
      connection every action queued before it has been answered, in
      order, first. */
  lemma DrainsBeforeReceiving(c: Client, localID: Text, s: Stream, receiving: Receiving, respond: Responding,
                              sending: TransformSending)
    requires ValidClient(c) && ShortReactions(receiving) && ShortResponses(respond) && ShortParts(sending)
    requires AllRequests(c.host.actions) && c.host.out.open
    ensures var r := Run(c, localID, s, receiving, respond, sending);
      var calls := ProcessActions(c.directory, c.host, respond).calls;
      |r.0.answered| >= |c.answered| + |c.host.actions|
      && r.0.answered[|c.answered|..|c.answered| + |c.host.actions|] == calls
  {
    var calls := ProcessActions(c.directory, c.host, respond).calls;
    AnswersAll(c.directory, c.host, respond);
    RunStartsWithDrain(c, localID, s, receiving, respond, sending);
    SliceOfPrefix(c.answered, calls, Run(c, localID, s, receiving, respond, sending).0.answered);
  }

  lemma SliceOfPrefix(a: seq<Response>, b: seq<Response>, c: seq<Response>)
    requires |a + b| <= |c| && c[..|a + b|] == a + b
    ensures c[|a|..|a| + |b|] == b
  {
    assert c[|a|..|a| + |b|] == (a + b)[|a|..];
  }
}
