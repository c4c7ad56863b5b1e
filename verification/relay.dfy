/** The relay server (`server` module, class `EchoServer`): every accepted
    connection is registered under its remote id ("host:port"); its
    handler reads messages and forwards each to the connection registered
    under the message's address, rewriting the address to the sender's id;
    when the handler ends, for whatever reason, it removes its id. Handler
    threads are modelled one at a time: a handler runs over its whole input. */
module Relay {
  import opened Bytes
  import opened Wrappers
  import opened Failures
  import opened Streams
  import opened EchoProtocol

  /** A socket accepted by the server, told apart from all others. */
  type ConnId = nat

  /** `clients`: the id each connection registered under; `outputs`: what
      has been written to each accepted connection. */
  datatype Relay = Relay(clients: map<Text, ConnId>, outputs: map<ConnId, Sink>)

  predicate Valid(r: Relay) {
    forall id :: id in r.clients ==> r.clients[id] in r.outputs
  }

  function EmptyRelay(): (r: Relay)
    ensures Valid(r) && |r.clients| == 0
  {
    Relay(map[], map[])
  }

  /** Accepting a connection: `clients.put(generateRemoteID(connection), out)`,
      which replaces any connection registered under the same id. */
  function Accept(r: Relay, conn: ConnId, c: Connection): (r': Relay)
    requires Valid(r) && conn !in r.outputs
    ensures Valid(r')
    ensures r'.clients == r.clients[GenerateRemoteID(c) := conn]
    ensures r'.outputs == r.outputs[conn := NewSink()]
  {
    Relay(r.clients[GenerateRemoteID(c) := conn], r.outputs[conn := NewSink()])
  }

  /** One message through the handler of the connection registered as
      `sender`: dropped when nobody is registered under its address,
      otherwise sent there as (sender, content). A failed write is an
      IOException in the sender's handler. */
  function Forward(r: Relay, sender: Text, m: Message): (res: Result<Relay, Failure>)
    requires Valid(r) && |sender| <= INT_MAX && |m.content| <= INT_MAX
    ensures res.Ok? ==> Valid(res.value) && res.value.clients == r.clients
    ensures res.Ok? ==> res.value.outputs.Keys == r.outputs.Keys
    ensures m.address !in r.clients ==> res == Ok(r)
    ensures m.address in r.clients ==> (res.Ok? <==> r.outputs[r.clients[m.address]].open)
    ensures res.Err? ==> res.error == IOException
    ensures m.address in r.clients && res.Ok? ==>
      var dest := r.clients[m.address];
      res.value.outputs[dest].data == r.outputs[dest].data + Frame(sender) + Frame(m.content)
      && forall c :: c in r.outputs && c != dest ==> res.value.outputs[c] == r.outputs[c]
  {
    if m.address !in r.clients then Ok(r)
    else
      var dest := r.clients[m.address];
      match SendOne(r.outputs[dest], Message(sender, m.content))
      case Err(e) => Err(e)
      case Ok(out) => Ok(r.(outputs := r.outputs[dest := out]))
  }

  /** The handler's `finally`: the id is removed whoever holds it now, and
      the connection is closed. */
  function Close(r: Relay, id: Text, conn: ConnId): (r': Relay)
    requires Valid(r)
    ensures Valid(r')
    ensures r'.clients == r.clients - {id}
    ensures r'.outputs.Keys == r.outputs.Keys
    ensures conn in r.outputs ==> !r'.outputs[conn].open && r'.outputs[conn].data == r.outputs[conn].data
    ensures forall c :: c in r.outputs && c != conn ==> r'.outputs[c] == r.outputs[c]
  {
    var outputs := if conn in r.outputs then r.outputs[conn := r.outputs[conn].(open := false)] else r.outputs;
    Relay(r.clients - {id}, outputs)
  }

  /** `Handler.run`: receive, forward, repeat; the first failure (an end of
      stream is one) ends the loop, and the id is removed. */
  function Run(r: Relay, id: Text, conn: ConnId, s: Stream): (r': Relay)
    requires Valid(r) && |id| <= INT_MAX
    ensures Valid(r')
    ensures r'.clients == r.clients - {id}
    ensures r'.outputs.Keys == r.outputs.Keys
    decreases |Content(s)|
  {
    match ReceiveMessage(s)
    case Err(_) => Close(r, id, conn)
    case Ok((m, s1)) =>
      assert |Content(s1)| < |Content(s)|;
      match Forward(r, id, m)
      case Err(_) => Close(r, id, conn)
      case Ok(r1) => Run(r1, id, conn, s1)
  }

  // ---------------------------------------------------------------------
  // Properties

  /** The bytes of several messages back to back, as clients send them. */
  function Messages(ms: seq<Message>): seq<byte>
    requires forall i :: 0 <= i < |ms| ==> |ms[i].address| <= INT_MAX && |ms[i].content| <= INT_MAX
  {
    if |ms| == 0 then [] else Frame(ms[0].address) + Frame(ms[0].content) + Messages(ms[1..])
  }

  /** The frames the destination receives for messages relayed from `sender`. */
  function Relayed(sender: Text, ms: seq<Message>): seq<byte>
    requires |sender| <= INT_MAX
    requires forall i :: 0 <= i < |ms| ==> |ms[i].address| <= INT_MAX && |ms[i].content| <= INT_MAX
  {
    if |ms| == 0 then [] else Frame(sender) + Frame(ms[0].content) + Relayed(sender, ms[1..])
  }

  /** The first of several messages arriving in one chunk is received
      whole, and the rest stay in the chunk. */
  lemma ReceiveFirst(ms: seq<Message>, rest: Stream)
    requires |ms| > 0
    requires forall i :: 0 <= i < |ms| ==> |ms[i].address| <= INT_MAX && |ms[i].content| <= INT_MAX
    ensures ReceiveMessage(Push(Messages(ms), rest)) == Ok((ms[0], Push(Messages(ms[1..]), rest)))
  {
    var m := ms[0];
    var more := Messages(ms[1..]);
    assert Messages(ms) == Frame(m.address) + (Frame(m.content) + more);
    ReadValueWholeFrame(m.address, Frame(m.content) + more, rest);
    ReadValueWholeFrame(m.content, more, rest);
  }

  /** One turn of the handler loop that receives and forwards successfully. */
  lemma RunStep(r: Relay, id: Text, conn: ConnId, s: Stream, m: Message, s1: Stream)
    requires Valid(r) && |id| <= INT_MAX
    requires ReceiveMessage(s) == Ok((m, s1)) && Forward(r, id, m).Ok?
    ensures Run(r, id, conn, s) == Run(Forward(r, id, m).value, id, conn, s1)
  {
  }

  /** Forwarding to a registered destination whose socket is open succeeds
      and leaves it open. */
  lemma ForwardToOpen(r: Relay, sender: Text, m: Message)
    requires Valid(r) && |sender| <= INT_MAX && |m.content| <= INT_MAX
    requires m.address in r.clients && r.outputs[r.clients[m.address]].open
    ensures Forward(r, sender, m).Ok?
    ensures Forward(r, sender, m).value.outputs[r.clients[m.address]].open
  {
  }

  /** Messages from one connection, all to a registered and open destination,
      reach it in the order they were sent, each as (sender, content); the
      handler then meets the end of the stream and unregisters its id. */
  lemma {:induction false} InOrder(r: Relay, id: Text, conn: ConnId, ms: seq<Message>, address: Text)
    requires Valid(r) && |id| <= INT_MAX && address in r.clients && r.outputs[r.clients[address]].open
    requires forall i :: 0 <= i < |ms| ==> ms[i].address == address && |address| <= INT_MAX && |ms[i].content| <= INT_MAX
    ensures var r' := Run(r, id, conn, Push(Messages(ms), []));
      var dest := r.clients[address];
      r'.outputs[dest].data == r.outputs[dest].data + Relayed(id, ms)
    decreases |ms|
  {
    var dest := r.clients[address];
    var s := Push(Messages(ms), []);
    if |ms| == 0 {
      assert s == [];
      assert ReceiveMessage(s).Err?;
    } else {
      var m := ms[0];
      ReceiveFirst(ms, []);
      var r1 := Forward(r, id, m).value;
      RunStep(r, id, conn, s, m, Push(Messages(ms[1..]), []));
      ForwardToOpen(r, id, m);
      var more := ms[1..];
      assert forall i :: 0 <= i < |more| ==> more[i] == ms[i + 1];
      InOrder(r1, id, conn, more, address);
      AppendAssoc(r.outputs[dest].data, Frame(id), Frame(m.content));
      AppendAssoc(r.outputs[dest].data, Frame(id) + Frame(m.content), Relayed(id, more));
    }
  }

  /** A handler ending removes its id even when a newer connection has
      re-registered that id since: the newer connection becomes unreachable. */
  lemma StaleRemoval(r: Relay, oldConn: ConnId, newConn: ConnId, c: Connection, s: Stream)
    requires Valid(r) && newConn !in r.outputs && |GenerateRemoteID(c)| <= INT_MAX
    ensures var id := GenerateRemoteID(c);
      var r1 := Accept(r, newConn, c);
      r1.clients[id] == newConn && id !in Run(r1, id, oldConn, s).clients
  {
  }

  /** Forwarding to an unregistered address writes nothing anywhere. */
  lemma DropLeavesAllOutputs(r: Relay, sender: Text, m: Message)
    requires Valid(r) && |sender| <= INT_MAX && |m.content| <= INT_MAX && m.address !in r.clients
    ensures Forward(r, sender, m) == Ok(r)
  {
  }

  /** A destination whose socket is closed makes the sender's handler fail,
      which ends the sender's connection, not the destination's. */
  lemma ClosedDestinationEndsSender(r: Relay, id: Text, conn: ConnId, m: Message, tail: seq<byte>, rest: Stream)
    requires Valid(r) && |id| <= INT_MAX && |m.address| <= INT_MAX && |m.content| <= INT_MAX
    requires m.address in r.clients && !r.outputs[r.clients[m.address]].open
    ensures Run(r, id, conn, Push(Frame(m.address) + Frame(m.content) + tail, rest)) == Close(r, id, conn)
  {
    var f := Frame(m.address) + Frame(m.content) + tail;
    assert f == Frame(m.address) + (Frame(m.content) + tail);
    ReadValueWholeFrame(m.address, Frame(m.content) + tail, rest);
    ReadValueWholeFrame(m.content, tail, rest);
    assert ReceiveMessage(Push(f, rest)) == Ok((m, Push(tail, rest)));
  }
}
