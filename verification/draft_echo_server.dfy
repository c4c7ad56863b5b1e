/** The early draft's echo server (package `otr4jechoserver`, class
    `EchoServer`): connections are accepted and served one after the other;
    every frame read is written back on the same connection; a clean end
    closes the connection, an IOException is caught and the server accepts
    the next connection, and any other exception leaves `main`, stopping
    the server. */
module DraftEchoServer {
  import opened Bytes
  import opened Wrappers
  import opened Failures
  import opened Streams
  import opened DraftProtocol

  /** How serving one connection ended. */
  datatype Outcome =
    | Ended(out: Sink)                    // `readMessage` returned null
    | Dropped(out: Sink, error: Failure)  // an IOException, caught per connection
    | Crashed(out: Sink, error: Failure)  // a RuntimeException, which leaves `main`

  /** The draft's `readMessage`, or the checked reader that reports a
      negative length as a protocol violation. */
  function Reader(s: Stream, checked: bool): (r: Result<(Option<seq<byte>>, Stream), Failure>)
    ensures r.Err? ==> r.error == ProtocolException || r.error == NegativeArraySize
    ensures checked && r.Err? ==> r.error == ProtocolException
    ensures r.Ok? && r.value.0.None? ==> s == []
    ensures r.Ok? && r.value.0.Some? ==>
      |r.value.0.value| <= INT_MAX &&
      |Content(s)| == 4 + |r.value.0.value| + |Content(r.value.1)|
    ensures r.Ok? && r.value.0.Some? ==> r == ReadMessage(s)
  {
    if checked then ReadMessageChecked(s) else ReadMessage(s)
  }

  /** The inner loop for one connection: read a frame, write it back, repeat. */
  function ServeConnection(s: Stream, out: Sink, checked: bool): (r: Outcome)
    ensures |r.out.data| >= |out.data| && r.out.data[..|out.data|] == out.data
    ensures r.Dropped? ==> IsIOException(r.error)
    ensures r.Crashed? ==> !checked && r.error == NegativeArraySize
    decreases |Content(s)|
  {
    var read := Reader(s, checked);
    if read.Err? then
      if IsIOException(read.error) then Dropped(out, read.error) else Crashed(out, read.error)
    else if read.value.0.None? then Ended(out)
    else
      var (m, s1) := (read.value.0.value, read.value.1);
      assert |Content(s1)| < |Content(s)|;
      match WriteMessage(out, m)
      case Err(e) => Dropped(out, e)
      case Ok(out1) =>
        var r := ServeConnection(s1, out1, checked);
        Extends(out.data, DraftFrame(m), r.out.data);
        r
  }

  lemma Extends(a: seq<byte>, b: seq<byte>, c: seq<byte>)
    requires |c| >= |a + b| && c[..|a + b|] == a + b
    ensures |c| >= |a| && c[..|a|] == a
  {
    assert c[..|a|] == (a + b)[..|a|];
  }

  predicate IsPrefix(a: seq<byte>, b: seq<byte>) {
    |a| <= |b| && b[..|a|] == a
  }

  /** Echoing one frame keeps "what was written is a prefix of what was
      read", and "everything read was written" at a clean end. */
  lemma EchoStep(before: seq<byte>, frame: seq<byte>, after: seq<byte>, rest: seq<byte>, whole: seq<byte>, ended: bool)
    requires whole == frame + rest
    requires |after| >= |before + frame| && after[..|before + frame|] == before + frame
    requires IsPrefix(after[|before + frame|..], rest)
    requires ended ==> after == before + frame + rest
    ensures |after| >= |before| && after[..|before|] == before
    ensures IsPrefix(after[|before|..], whole)
    ensures ended ==> after == before + whole
  {
    assert after[..|before|] == (before + frame)[..|before|];
    assert after[|before|..] == frame + after[|before + frame|..];
  }

  /** What a connection writes back is always a prefix of what it read, and
      at a clean end it is all of it. */
  lemma {:induction false} EchoesPrefix(s: Stream, out: Sink, checked: bool)
    ensures var r := ServeConnection(s, out, checked);
      |r.out.data| >= |out.data| && IsPrefix(r.out.data[|out.data|..], Content(s)) &&
      (r.Ended? ==> r.out.data == out.data + Content(s))
    decreases |Content(s)|
  {
    var read := Reader(s, checked);
    if read.Ok? && read.value.0.Some? {
      var (m, s1) := (read.value.0.value, read.value.1);
      if out.open {
        var out1 := WriteMessage(out, m).value;
        var r := ServeConnection(s1, out1, checked);
        ReadMessageFrame(s);
        EchoesPrefix(s1, out1, checked);
        EchoStep(out.data, DraftFrame(m), r.out.data, Content(s1), Content(s), r.Ended?);
      }
    }
  }

  /** The result of running the server over the connections it accepts, in
      order: one outcome per connection served, and whether it stopped. */
  datatype Run = Run(outcomes: seq<Outcome>, stopped: bool)

  /** The accept loop: each connection is served to its end before the next
      one is accepted; a crash stops the loop. */
  function ServeAll(conns: seq<(Stream, Sink)>, checked: bool): (r: Run)
    ensures |r.outcomes| <= |conns|
    ensures !r.stopped ==> |r.outcomes| == |conns|
    ensures r.stopped ==> |r.outcomes| > 0
  {
    if |conns| == 0 then Run([], false)
    else
      var first := ServeConnection(conns[0].0, conns[0].1, checked);
      if first.Crashed? then Run([first], true)
      else
        var rest := ServeAll(conns[1..], checked);
        Run([first] + rest.outcomes, rest.stopped)
  }

  predicate NoCrash(outcomes: seq<Outcome>) {
    forall i :: 0 <= i < |outcomes| ==> !outcomes[i].Crashed?
  }

  lemma NoCrashCons(first: Outcome, rest: seq<Outcome>)
    ensures NoCrash([first] + rest) <==> !first.Crashed? && NoCrash(rest)
  {
    var all := [first] + rest;
    assert all[0] == first;
    assert forall i :: 0 <= i < |rest| ==> all[i + 1] == rest[i];
  }

  /** The server stops exactly when a connection crashes it. */
  lemma {:induction false} StopsOnCrash(conns: seq<(Stream, Sink)>, checked: bool)
    ensures var r := ServeAll(conns, checked);
      !r.stopped <==> |r.outcomes| == |conns| && NoCrash(r.outcomes)
  {
    if |conns| > 0 {
      var r := ServeAll(conns, checked);
      var first := ServeConnection(conns[0].0, conns[0].1, checked);
      if first.Crashed? {
        assert r == Run([first], true);
        NoCrashCons(first, []);
      } else {
        StopsOnCrash(conns[1..], checked);
        var rest := ServeAll(conns[1..], checked);
        assert r == Run([first] + rest.outcomes, rest.stopped);
        NoCrashCons(first, rest.outcomes);
      }
    }
  }

  /** The connection that stopped the server is the last one served; only
      the unchecked reader crashes, and only on a negative length. */
  lemma {:induction false} CrashIsLast(conns: seq<(Stream, Sink)>, checked: bool)
    ensures var r := ServeAll(conns, checked);
      r.stopped ==>
        r.outcomes[|r.outcomes| - 1].Crashed? && !checked && r.outcomes[|r.outcomes| - 1].error == NegativeArraySize
  {
    if |conns| > 0 {
      var r := ServeAll(conns, checked);
      var first := ServeConnection(conns[0].0, conns[0].1, checked);
      if first.Crashed? {
        assert r.outcomes[|r.outcomes| - 1] == first;
      } else {
        CrashIsLast(conns[1..], checked);
        var rest := ServeAll(conns[1..], checked);
        assert r.outcomes == [first] + rest.outcomes;
        if rest.stopped {
          assert r.outcomes[|r.outcomes| - 1] == rest.outcomes[|rest.outcomes| - 1];
        }
      }
    }
  }

  /** Each connection served is served on its own: the i-th outcome is what
      serving the i-th connection alone gives. */
  lemma {:induction false} ServedOneByOne(conns: seq<(Stream, Sink)>, checked: bool)
    ensures var r := ServeAll(conns, checked);
      forall i :: 0 <= i < |r.outcomes| ==> r.outcomes[i] == ServeConnection(conns[i].0, conns[i].1, checked)
  {
    if |conns| > 0 && !ServeConnection(conns[0].0, conns[0].1, checked).Crashed? {
      ServedOneByOne(conns[1..], checked);
      var r := ServeAll(conns, checked);
      var rest := ServeAll(conns[1..], checked);
      assert r.outcomes == [ServeConnection(conns[0].0, conns[0].1, checked)] + rest.outcomes;
      forall i | 0 <= i < |r.outcomes|
        ensures r.outcomes[i] == ServeConnection(conns[i].0, conns[i].1, checked)
      {
        if i > 0 {
          assert conns[i] == conns[1..][i - 1];
        }
      }
    }
  }

  /** The server as written. */
  function Serve(conns: seq<(Stream, Sink)>): (r: Run)
    ensures r.stopped ==>
      |r.outcomes| > 0 && r.outcomes[|r.outcomes| - 1].Crashed? && r.outcomes[|r.outcomes| - 1].error == NegativeArraySize
  {
    CrashIsLast(conns, false);
    ServeAll(conns, false)
  }

  /** The server with a negative length reported as a protocol violation. */
  function ServeChecked(conns: seq<(Stream, Sink)>): (r: Run)
    ensures !r.stopped && |r.outcomes| == |conns|
  {
    CrashIsLast(conns, true);
    ServeAll(conns, true)
  }

  // ---------------------------------------------------------------------
  // Well-framed input

  predicate ValidMessages(ms: seq<seq<byte>>) {
    forall i :: 0 <= i < |ms| ==> |ms[i]| <= INT_MAX
  }

  /** The frames of several messages back to back. */
  function Frames(ms: seq<seq<byte>>): (r: seq<byte>)
    requires ValidMessages(ms)
    ensures |r| >= 4 * |ms|
  {
    if |ms| == 0 then [] else DraftFrame(ms[0]) + Frames(ms[1..])
  }

  predicate ValidGroups(groups: seq<seq<seq<byte>>>) {
    forall i :: 0 <= i < |groups| ==> |groups[i]| > 0 && ValidMessages(groups[i])
  }

  /** An input whose every chunk holds one or more whole frames. */
  function Chunked(groups: seq<seq<seq<byte>>>): (r: Stream)
    requires ValidGroups(groups)
    ensures |r| == |groups|
  {
    if |groups| == 0 then [] else [Frames(groups[0])] + Chunked(groups[1..])
  }

  /** Frames at the start of a chunk are echoed one by one, and the
      connection then carries on with whatever follows them. */
  lemma {:induction false} EchoFrames(ms: seq<seq<byte>>, groups: seq<seq<seq<byte>>>, out: Sink, checked: bool)
    requires ValidMessages(ms) && ValidGroups(groups) && out.open
    ensures ServeConnection(Push(Frames(ms), Chunked(groups)), out, checked).Ended?
    decreases |groups|, |ms|
  {
    if |ms| > 0 {
      var s := Push(Frames(ms), Chunked(groups));
      assert Frames(ms) == DraftFrame(ms[0]) + Frames(ms[1..]);
      ReadWholeFrame(ms[0], Frames(ms[1..]), Chunked(groups));
      assert Reader(s, checked) == Ok((Some(ms[0]), Push(Frames(ms[1..]), Chunked(groups))));
      var out1 := WriteMessage(out, ms[0]).value;
      EchoFrames(ms[1..], groups, out1, checked);
    } else if |groups| > 0 {
      assert Push(Frames(ms), Chunked(groups)) == Chunked(groups);
      assert Chunked(groups) == Push(Frames(groups[0]), Chunked(groups[1..]));
      EchoFrames(groups[0], groups[1..], out, checked);
    }
  }

  /** For input made of whole frames and ending at a frame boundary, the
      bytes written back are exactly the bytes received. */
  lemma EchoIsIdentity(groups: seq<seq<seq<byte>>>, out: Sink)
    requires ValidGroups(groups) && out.open
    ensures ServeConnection(Chunked(groups), out, false).Ended?
    ensures ServeConnection(Chunked(groups), out, false).out.data == out.data + Content(Chunked(groups))
  {
    assert Push(Frames([]), Chunked(groups)) == Chunked(groups);
    EchoFrames([], groups, out, false);
    EchoesPrefix(Chunked(groups), out, false);
  }

  /** A connection whose length prefix has its top bit set stops the server
      as written: no later connection is accepted. */
  lemma CrashStopsServer(header: seq<byte>, tail: seq<byte>, rest: Stream, out: Sink, later: seq<(Stream, Sink)>)
    requires |header| == 4 && header[0] >= 128
    ensures Serve([(Push(header + tail, rest), out)] + later) == Run([Crashed(out, NegativeArraySize)], true)
  {
    TopBitFails(header, tail, rest);
    var conns := [(Push(header + tail, rest), out)] + later;
    assert conns[0] == (Push(header + tail, rest), out);
  }

  /** With the checked reader, the same connection is dropped as a protocol
      violation and every later connection is still served. */
  lemma CheckedServesEveryone(header: seq<byte>, tail: seq<byte>, rest: Stream, out: Sink, later: seq<(Stream, Sink)>)
    requires |header| == 4 && header[0] >= 128
    ensures ServeChecked([(Push(header + tail, rest), out)] + later).outcomes[0] == Dropped(out, ProtocolException)
    ensures |ServeChecked([(Push(header + tail, rest), out)] + later).outcomes| == 1 + |later|
  {
    TopBitFails(header, tail, rest);
    var conns := [(Push(header + tail, rest), out)] + later;
    assert conns[0] == (Push(header + tail, rest), out);
  }

  /** Where the server as written does not stop, it behaves as the checked one. */
  lemma {:induction false} CheckedAgrees(conns: seq<(Stream, Sink)>)
    requires !Serve(conns).stopped
    ensures ServeChecked(conns) == Serve(conns)
  {
    if |conns| > 0 {
      CheckedConnectionAgrees(conns[0].0, conns[0].1);
      assert Serve(conns).outcomes[0] == ServeConnection(conns[0].0, conns[0].1, false);
      var tail := ServeAll(conns[1..], false);
      assert Serve(conns).outcomes == [Serve(conns).outcomes[0]] + tail.outcomes;
      CheckedAgrees(conns[1..]);
    }
  }

  /** On a connection the server as written survives, the checked reader
      changes nothing. */
  lemma {:induction false} CheckedConnectionAgrees(s: Stream, out: Sink)
    requires !ServeConnection(s, out, false).Crashed?
    ensures ServeConnection(s, out, true) == ServeConnection(s, out, false)
    decreases |Content(s)|
  {
    match ReadMessage(s)
    case Err(e) =>
    case Ok((None, _)) =>
    case Ok((Some(m), s1)) =>
      match WriteMessage(out, m)
      case Err(e) =>
      case Ok(out1) =>
        CheckedConnectionAgrees(s1, out1);
  }
}
