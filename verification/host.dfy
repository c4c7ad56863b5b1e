/** The otr4j client's engine host (`client-otr4j`, class `Host`): the
    callbacks the OTR engine makes into the client. Only two of them hold
    logic of the client's own: `handleEvent`, which queues the one event
    the client must answer later (a request for the SMP secret) in a
    bounded queue, and `injectMessage`, which frames an engine message for
    the network. Keys, policy and client profiles are engine data and are
    left out. */
module Host {
  import opened Bytes
  import opened Wrappers
  import opened Failures
  import opened Streams
  import opened EchoProtocol
  import opened Sessions

  /** An OTR instance tag. */
  type InstanceTag = u32

  /** Why the engine aborted an SMP exchange: the three reasons the host
      knows, or any value it does not. */
  datatype AbortReason = User | Interruption | Violation | Unrecognized

  /** The events the engine reports, each with its payload. */
  datatype Event =
    | UnreadableMessageReceived
    | UnencryptedMessageReceived(message: Text)
    | Error(error: Text)
    | SessionFinished
    | EncryptedMessagesRequired(message: Text)
    | SmpRequestSecret(question: Text)
    | SmpAborted(reason: AbortReason)
    | MessageForAnotherInstanceReceived
    | MultipleInstancesDetected
    | ExtraSymmetricKeyDiscovered
    | SmpCompleted(success: bool)
    | Unlisted  // an event none of the host's branches names

  /** A queued follow-up (`Host.Action`): session, receiving instance, the
      event and its payload. */
  datatype Action = Action(sessionID: SessionID, tag: InstanceTag, event: Event, payload: Text)

  /** `new Action(sessionID, tag, event, payload)`: every argument must be
      non-null; `None` stands for `null`. */
  function NewAction(sessionID: Option<SessionID>, tag: Option<InstanceTag>, event: Option<Event>,
                     payload: Option<Text>): (r: Result<Action, Failure>)
    ensures r.Ok? <==> sessionID.Some? && tag.Some? && event.Some? && payload.Some?
    ensures r.Err? ==> r.error == NullPointer
    ensures r.Ok? ==> r.value == Action(sessionID.value, tag.value, event.value, payload.value)
  {
    match (sessionID, tag, event, payload)
    case (Some(s), Some(t), Some(e), Some(p)) => Ok(Action(s, t, e, p))
    case _ => Err(NullPointer)
  }

  /** The capacity of the `actions` queue. */
  const CAPACITY: nat := 9

  /** The host's state: the connection it writes to and the queued actions,
      oldest first. */
  datatype HostState = HostState(out: Sink, actions: seq<Action>)

  /** Every queued session's user is short enough to be framed. */
  predicate ShortIDs(actions: seq<Action>) {
    forall i :: 0 <= i < |actions| ==> |actions[i].sessionID.userID| <= INT_MAX
  }

  /** The queue is within its capacity and its sessions can be written to. */
  predicate Valid(h: HostState) {
    |h.actions| <= CAPACITY && ShortIDs(h.actions)
  }

  const INVALID_REASON: string := "Invalid abort reason."

  /** `ArrayBlockingQueue.add`: appends, or throws IllegalStateException
      when the queue is full; it never waits. */
  function Enqueue(actions: seq<Action>, a: Action): (r: Result<seq<Action>, Failure>)
    requires |actions| <= CAPACITY
    ensures r.Ok? <==> |actions| < CAPACITY
    ensures r.Ok? ==> r.value == actions + [a]
    ensures r.Err? ==> r.error == IllegalState
  {
    if |actions| < CAPACITY then Ok(actions + [a]) else Err(IllegalState)
  }

  /** The action a request for the secret queues: the question is its payload. */
  function RequestAction(sessionID: SessionID, receiver: InstanceTag, event: Event): Action
    requires event.SmpRequestSecret?
  {
    Action(sessionID, receiver, event, event.question)
  }

  /** `handleEvent`: a request for the SMP secret is queued, with the
      question as the action's payload; an SMP abort for a reason the host
      does not know throws; every other event is only logged. The payload
      is declared non-null, so the action's checks pass. */
  function HandleEvent(h: HostState, sessionID: SessionID, receiver: InstanceTag, event: Event)
    : (r: Result<HostState, Failure>)
    requires Valid(h) && |sessionID.userID| <= INT_MAX
    ensures r.Ok? ==> Valid(r.value) && r.value.out == h.out
    ensures r.Ok? && !event.SmpRequestSecret? ==> r.value == h
    ensures r.Ok? && event.SmpRequestSecret? ==>
      r.value.actions == h.actions + [Action(sessionID, receiver, event, event.question)]
    ensures r.Err? <==>
      (event.SmpRequestSecret? && |h.actions| == CAPACITY) || (event.SmpAborted? && event.reason.Unrecognized?)
    ensures r.Err? && event.SmpRequestSecret? ==> r.error == IllegalState
    ensures r.Err? && event.SmpAborted? ==> r.error == IllegalArgument(INVALID_REASON)
  {
    match event
    case SmpRequestSecret(question) =>
      var a := NewAction(Some(sessionID), Some(receiver), Some(event), Some(question)).value;
      var actions :- Enqueue(h.actions, a);
      Ok(h.(actions := actions))
    case SmpAborted(reason) =>
      if reason.Unrecognized? then Err(IllegalArgument(INVALID_REASON)) else Ok(h)
    case _ => Ok(h)
  }

  /** `injectMessage`: the engine's message goes to the session's user as
      one framed (address, content) pair; an IOException becomes an
      IllegalStateException. */
  function InjectMessage(h: HostState, sessionID: SessionID, msg: Text): (r: Result<HostState, Failure>)
    requires |sessionID.userID| <= INT_MAX && |msg| <= INT_MAX
    ensures r.Ok? <==> h.out.open
    ensures r.Err? ==> r.error == IllegalState
    ensures r.Ok? ==> r.value.actions == h.actions && r.value.out.open
    ensures r.Ok? ==> r.value.out.data == h.out.data + Frame(sessionID.userID) + Frame(msg)
  {
    match SendMessage(h.out, sessionID.userID, [msg])
    case Err(_) => Err(IllegalState)
    case Ok(out) =>
      assert Pairs(sessionID.userID, [msg]) == Frame(sessionID.userID) + Frame(msg) + Pairs(sessionID.userID, []);
      Ok(h.(out := out))
  }

  /** The peer reads an injected message back whole: addressed to the
      session's user, with the engine's text as content. */
  lemma InjectedIsReceived(h: HostState, sessionID: SessionID, msg: Text, rest: Stream)
    requires |sessionID.userID| <= INT_MAX && |msg| <= INT_MAX && h.out.open
    ensures var written := InjectMessage(h, sessionID, msg).value.out.data[|h.out.data|..];
      ReceiveMessage(Push(written, rest)) == Ok((Message(sessionID.userID, msg), rest))
  {
    var m := Message(sessionID.userID, msg);
    var written := InjectMessage(h, sessionID, msg).value.out.data[|h.out.data|..];
    assert written == SendOne(NewSink(), m).value.data + [];
    ReceiveSentMessage(m, [], rest);
  }

  /** Several messages injected on one session, in order; the first
      failure ends the run. */
  function InjectAll(h: HostState, sessionID: SessionID, msgs: seq<Text>): (r: Result<HostState, Failure>)
    requires |sessionID.userID| <= INT_MAX && ValidValues(msgs)
    ensures r.Ok? <==> h.out.open || |msgs| == 0
    ensures r.Err? ==> r.error == IllegalState
    ensures r.Ok? ==> r.value.actions == h.actions && r.value.out.open == h.out.open
    ensures r.Ok? ==> r.value.out.data == h.out.data + Pairs(sessionID.userID, msgs)
    decreases |msgs|
  {
    if |msgs| == 0 then Ok(h)
    else
      var h1 :- InjectMessage(h, sessionID, msgs[0]);
      PairsCons(h.out.data, sessionID.userID, msgs);
      InjectAll(h1, sessionID, msgs[1..])
  }

  /** One call the engine makes into the host while it works: an event for
      `handleEvent`, or a message for `injectMessage`. */
  datatype Callback =
    | Notify(sessionID: SessionID, receiver: InstanceTag, event: Event)
    | Inject(sessionID: SessionID, message: Text)

  /** The session's user, and an injected message, are short enough to be framed. */
  predicate ShortCallbacks(cs: seq<Callback>) {
    forall i :: 0 <= i < |cs| ==>
      |cs[i].sessionID.userID| <= INT_MAX && (cs[i].Inject? ==> |cs[i].message| <= INT_MAX)
  }

  lemma ShortTail(cs: seq<Callback>)
    requires |cs| > 0 && ShortCallbacks(cs)
    ensures ShortCallbacks(cs[1..])
  {
    forall i | 0 <= i < |cs[1..]|
      ensures |cs[1..][i].sessionID.userID| <= INT_MAX && (cs[1..][i].Inject? ==> |cs[1..][i].message| <= INT_MAX)
    {
      assert cs[1..][i] == cs[i + 1];
    }
  }

  /** The frames one callback puts on the connection. */
  function CallbackFrames(c: Callback): seq<byte>
    requires |c.sessionID.userID| <= INT_MAX && (c.Inject? ==> |c.message| <= INT_MAX)
  {
    if c.Inject? then Frame(c.sessionID.userID) + Frame(c.message) else []
  }

  /** One callback, as the host handles it. */
  function HandleCallback(h: HostState, c: Callback): (r: Result<HostState, Failure>)
    requires Valid(h) && |c.sessionID.userID| <= INT_MAX && (c.Inject? ==> |c.message| <= INT_MAX)
    ensures r.Ok? ==> Valid(r.value) && r.value.out.open == h.out.open
    ensures r.Ok? ==> r.value.out.data == h.out.data + CallbackFrames(c)
  {
    match c
    case Notify(id, receiver, event) => HandleEvent(h, id, receiver, event)
    case Inject(id, msg) => InjectMessage(h, id, msg)
  }

  /** A run of callbacks in the order the engine makes them; the first
      exception ends the run. */
  function Dispatch(h: HostState, cs: seq<Callback>): (r: Result<HostState, Failure>)
    requires Valid(h) && ShortCallbacks(cs)
    ensures r.Ok? ==> Valid(r.value) && r.value.out.open == h.out.open
    decreases |cs|
  {
    if |cs| == 0 then Ok(h)
    else
      var h1 :- HandleCallback(h, cs[0]);
      ShortTail(cs);
      Dispatch(h1, cs[1..])
  }

  /** The actions the requests for a secret among `cs` call for, in order. */
  function Requests(cs: seq<Callback>): (r: seq<Action>)
    ensures |r| <= |cs|
    ensures forall i :: 0 <= i < |r| ==> r[i].event.SmpRequestSecret?
  {
    if |cs| == 0 then []
    else
      var rest := Requests(cs[1..]);
      if cs[0].Notify? && cs[0].event.SmpRequestSecret?
      then [RequestAction(cs[0].sessionID, cs[0].receiver, cs[0].event)] + rest
      else rest
  }

  /** Reference definition: the frames the injections among `cs` put on
      the connection, in order. */
  function Injected(cs: seq<Callback>): seq<byte>
    requires ShortCallbacks(cs)
  {
    if |cs| == 0 then []
    else
      ShortTail(cs);
      CallbackFrames(cs[0]) + Injected(cs[1..])
  }

  /** The queue after a run of callbacks is the queue before it followed by
      one action per request for a secret, in the order the requests came. */
  lemma {:induction false} QueueHoldsRequests(h: HostState, cs: seq<Callback>)
    requires Valid(h) && ShortCallbacks(cs) && Dispatch(h, cs).Ok?
    ensures Dispatch(h, cs).value.actions == h.actions + Requests(cs)
    decreases |cs|
  {
    if |cs| > 0 {
      var h1 := HandleCallback(h, cs[0]).value;
      ShortTail(cs);
      QueueHoldsRequests(h1, cs[1..]);
    }
  }

  /** What a run of callbacks writes is exactly the injected messages'
      frames, in the order the engine injected them. */
  lemma {:induction false} DispatchWrites(h: HostState, cs: seq<Callback>)
    requires Valid(h) && ShortCallbacks(cs) && Dispatch(h, cs).Ok?
    ensures Dispatch(h, cs).value.out.data == h.out.data + Injected(cs)
    decreases |cs|
  {
    if |cs| > 0 {
      var h1 := HandleCallback(h, cs[0]).value;
      ShortTail(cs);
      DispatchWrites(h1, cs[1..]);
      assert Dispatch(h, cs) == Dispatch(h1, cs[1..]);
      AppendAssoc(h.out.data, CallbackFrames(cs[0]), Injected(cs[1..]));
    }
  }

  /** With no abort for an unknown reason, a run of callbacks fails exactly
      when its requests for a secret do not fit in the queue, or when it
      injects a message into a closed connection. */
  lemma {:induction false} RunFitsIffRoom(h: HostState, cs: seq<Callback>)
    requires Valid(h) && ShortCallbacks(cs)
    requires forall i :: 0 <= i < |cs| ==> !(cs[i].Notify? && cs[i].event.SmpAborted? && cs[i].event.reason.Unrecognized?)
    ensures Dispatch(h, cs).Ok? <==>
      |h.actions| + |Requests(cs)| <= CAPACITY && (h.out.open || forall i :: 0 <= i < |cs| ==> cs[i].Notify?)
    decreases |cs|
  {
    if |cs| > 0 {
      assert !(cs[0].Notify? && cs[0].event.SmpAborted? && cs[0].event.reason.Unrecognized?);
      ShortTail(cs);
      var r := HandleCallback(h, cs[0]);
      if r.Ok? {
        assert forall i :: 0 <= i < |cs[1..]| ==> cs[1..][i] == cs[i + 1];
        RunFitsIffRoom(r.value, cs[1..]);
      }
    }
  }
}
