/**
 When psock_send can end at all: on a connection with an initial mss of zero, which a peer's SYN
 without an MSS option leads to, no byte of a message is ever sent.
 */
module SendingMss {
  import opened Words
  import opened Tcp
  import opened TcpInvariant
  import opened Psock
  import opened Sending
  import opened SendingLimits
  import Mss
  import Table
  import Opening

  /** No segment of this connection can carry data. */
  predicate MuteConn(c: Conn) {
    && c.mss == c.initialMss == 0 && !c.stopped
    && (c.state.Established? || c.state.LastAck? || c.state.Closed?)
    && (c.state.Established? ==> c.len == 0)
  }

  /** A callback that psock_send cannot make anything of. */
  predicate MuteCall(call: AppCall) {
    call.mss == 0 && !call.sig.ackdata && !call.stopped
  }

  predicate MuteStep(t: Step) {
    && MuteConn(t.conn)
    && (t.call.Some? ==> MuteCall(t.call.value))
    && (t.frame.Some? ==> t.frame.value.data == [])
  }

  /** An application that has nothing to say to such callbacks. */
  ghost predicate Dumb(app: App) {
    forall call :: MuteCall(call) ==> app(call) == AppReply(call.sig, [], false)
  }

  lemma MuteSend(c: Conn, sig: Signal, n: U16, stale: U16, area: Area, app: App)
    requires MuteConn(c) && c.state.Established? && Dumb(app) && !sig.ackdata && !sig.abort && !sig.close
    ensures MuteStep(CallAndSend(c, sig, n, stale, area, app))
  {
    var call := CallFor(c, sig, n, area);
    assert MuteCall(call);
  }

  lemma MuteInput(c: Conn, g: Segment, area: Area, app: App)
    requires MuteConn(c) && Dumb(app)
    ensures MuteStep(Input(c, g, area, app))
  {
    if !g.ctl.rst && !OutOfSequence(c, g) {
      AckedEffect(c);
      if c.state.Established? {
        MuteUp(c, g, area, app);
      } else {
        MuteDown(if Acks(c, g) then Tcp.Acked(c) else c, Acks(c, g), g, area, app);
      }
    }
  }

  lemma MuteUp(c: Conn, g: Segment, area: Area, app: App)
    requires MuteConn(c) && c.state.Established? && Dumb(app)
    ensures MuteStep(OnEstablished(c, false, g, area, app))
  {
    var n := g.DataLen();
    var news := n > 0 && !c.stopped;
    var c1 := c.(mss := Window(c, g), rcvNxt := if news then Plus(c.rcvNxt, n) else c.rcvNxt);
    MuteSend(c1, QUIET.(newdata := news), n, 0, area, app);
  }

  lemma MuteDown(c: Conn, acked: bool, g: Segment, area: Area, app: App)
    requires MuteConn(c) && !c.state.Established? && Dumb(app)
    ensures MuteStep(InSequence(c, acked, g, area, app))
  {
    assert MuteCall(CallFor(c.(state := Closed, stopped := false), QUIET.(close := true), g.DataLen(), area));
  }

  lemma MuteTimer(c: Conn, area: Area, app: App)
    requires MuteConn(c) && Dumb(app)
    ensures MuteStep(Timer(c, area, app))
  {
    if c.state.Established? {
      MuteSend(c, QUIET.(poll := true), 0, 0, area, app);
    } else {
      MuteExpired(c, area, app);
    }
  }

  lemma MuteExpired(c: Conn, area: Area, app: App)
    requires MuteConn(c) && !c.state.Established? && Dumb(app)
    ensures MuteStep(Expired(c, area, app))
  {
    assert MuteCall(CallFor(c.(timer := 0xff, state := Closed, stopped := false), QUIET.(timedout := true), 0, area));
  }

  lemma MutePoll(c: Conn, uipLen: U16, stale: U16, area: Area, app: App)
    requires MuteConn(c) && Dumb(app)
    ensures MuteStep(Poll(c, uipLen, stale, area, app))
  {
    if c.state.Established? && c.len == 0 {
      MuteSend(c, QUIET.(poll := true), uipLen, stale, area, app);
    }
  }

  // ----- The whole system -----

  /** psock_send has not begun, or waits without having sent anything. */
  predicate MuteSender(msg: Bytes, s: Sender) {
    !s.waiting || s == Sender(DataSent, 0, SendLen(msg), true)
  }

  predicate Mute(msg: Bytes, s: System) {
    && MuteConn(s.conn) && s.k == 0 && MuteSender(msg, s.sender) && s.accepted == []
    && forall f :: f in s.net ==> f.data == []
  }

  lemma MuteScript(msg: Bytes, s: Sender, call: AppCall)
    requires SendLen(msg) > 0 && MuteSender(msg, s) && MuteCall(call)
    ensures Ready([msg], 0, s) && Script([msg], 0, s, call) == Progress(0, Sender(DataSent, 0, SendLen(msg), true), [])
  {
    if !s.waiting {
      FirstTurn(s, msg, call);
    } else {
      assert SendTurn(s, msg, call, []) == SendResult(s, Waiting, []);
    }
  }

  lemma DumbApp(msg: Bytes, s: System)
    requires SendLen(msg) > 0 && MuteSender(msg, s.sender) && s.k == 0
    ensures Dumb(AppOf([msg], s))
  {
    forall call | MuteCall(call) ensures AppOf([msg], s)(call) == AppReply(call.sig, [], false) {
      MuteScript(msg, s.sender, call);
    }
  }

  lemma MuteAfter(msg: Bytes, s: System, t: Step)
    requires SendLen(msg) > 0 && Mute(msg, s) && MuteStep(t)
    ensures Mute(msg, AfterStep([msg], s, t))
  {
    if t.call.Some? {
      MuteScript(msg, s.sender, t.call.value);
    }
  }

  lemma MuteMove(msg: Bytes, base: Bytes4, s: System, a: Action, t: System)
    requires SendLen(msg) > 0 && Mute(msg, s) && IsMove([msg], base, s, a, t)
    ensures Mute(msg, t)
  {
    DumbApp(msg, s);
    var app := AppOf([msg], s);
    match a
    case Arrive(g, area) =>
      MuteInput(s.conn, g, area, app);
      MuteAfter(msg, s, Input(s.conn, g, area, app));
    case Tick(area) =>
      MuteTimer(s.conn, area, app);
      MuteAfter(msg, s, Timer(s.conn, area, app));
    case PollRequest(uipLen, stale, area) =>
      MutePoll(s.conn, uipLen, stale, area, app);
      MuteAfter(msg, s, Poll(s.conn, uipLen, stale, area, app));
    case Deliver(_, _, _) =>
    case Acknowledge =>
  }

  /** With an initial mss of zero nothing is ever sent: psock_send waits in every state of every run. */
  lemma {:induction false} NeverSends(msg: Bytes, base: Bytes4, states: seq<System>, actions: seq<Action>, i: nat)
    requires IsHistory([msg], base, states, actions) && i < |states|
    requires Initial(base, states[0]) && states[0].conn.mss == states[0].conn.initialMss == 0 && SendLen(msg) > 0
    ensures Mute(msg, states[i])
  {
    if i > 0 {
      NeverSends(msg, base, states, actions, i - 1);
      assert IsMove([msg], base, states[i - 1], actions[i - 1], states[i - 1 + 1]);
      MuteMove(msg, base, states[i - 1], actions[i - 1], states[i]);
    }
  }

  ghost predicate CanEnd(msg: Bytes, base: Bytes4, s: System) {
    exists states: seq<System>, actions: seq<Action> :: IsHistory([msg], base, states, actions) && states[0] == s && states[|actions|].k == 1
  }

  /**
   From a connection that has just come up, in a state that runs of the table lead to: some run ends the
   psock_send of a message if and only if the initial mss is not zero, or psock_send takes the message for
   an empty one.
   */
  lemma SendEndsIffMss(msg: Bytes, base: Bytes4, s: System, area: Area)
    requires Initial(base, s) && ConnInv(s.conn) && Mss.MssInv(s.conn)
    ensures CanEnd(msg, base, s) <==> s.conn.initialMss > 0 || SendLen(msg) == 0
  {
    if SendLen(msg) == 0 {
      NoLengthEndsAtOnce(msg, base, s, area);
      var tick := Action.Tick(area);
      var states, actions := [s, Next([msg], base, s, tick)], [tick];
      assert IsHistory([msg], base, states, actions);
    } else if s.conn.initialMss > 0 {
      var states, actions := EndsAfterOneSegment(msg, base, s, area);
    } else if CanEnd(msg, base, s) {
      var states: seq<System>, actions: seq<Action> :| IsHistory([msg], base, states, actions) && states[0] == s && states[|actions|].k == 1;
      NeverSends(msg, base, states, actions, |actions|);
    }
  }

  /** And there are such connections: a run of the table leads to one on which no message can be sent. */
  lemma NoSendWithoutOption(t: Table.Table, g: Segment, area: Area, msg: Bytes)
    returns (tables: seq<Table.Table>, events: seq<Table.Event>, s: System)
    requires Table.Initial(t) && g.ctl == SYN && g.Mss().None? && SendLen(msg) > 0
    ensures Table.IsRun(tables, events) && tables[0] == t && |tables[|events|].conns| == Table.CONNS
    ensures s.conn == tables[|events|].conns[0] && Initial(s.conn.sndNxt, s) && !CanEnd(msg, s.conn.sndNxt, s)
  {
    tables, events := Opening.ZeroMssRun(t, g, area);
    var c := tables[|events|].conns[0];
    s := System(c, Sender(NoState, 0, 0, false), 0, {}, {}, []);
    Table.RunKeepsInvariant(tables, events);
    assert ConnInv(c);
    SendEndsIffMss(msg, c.sndNxt, s, area);
  }
}
