/**
 Retransmission: what goes out when the retransmission timer runs out, and that a connection that has
 lost everything under way gets its messages across all the same, unless it was down to its last try.
 */
module Retransmission {
  import opened Words
  import opened Tcp
  import opened TcpInvariant
  import opened Psock
  import opened Sending
  import opened SendingEnds

  // ----- One expiry, in every state -----

  /** How much sequence space a frame takes (section 3.3 of RFC 793). */
  function Units(f: Frame): nat {
    |f.data| + (if f.ctl.syn then 1 else 0) + (if f.ctl.fin then 1 else 0)
  }

  /** The states in which something can be outstanding. */
  predicate Sends(s: TcpState) {
    SynState(s) || s.Established? || FinState(s)
  }

  /** The frame repeats what is outstanding: the same numbers, and as much sequence space. */
  predicate Repeats(c: Conn, f: Frame) {
    f.seqno == c.sndNxt && f.ackno == c.rcvNxt && Units(f) == c.len && f.dest == c.ripaddr
    && f.srcPort == c.lport && f.destPort == c.rport
  }

  /**
   A tick with the timer at zero that does not give up repeats exactly what is outstanding: the SYN in the
   SYN states, the FIN in the states after a close, and in ESTABLISHED as many bytes as are outstanding,
   the first of them those the application offers again; only if it offers none there is no data.
   */
  lemma ExpiryRepeats(c: Conn, area: Area, app: App)
    requires ConnInv(c) && Sends(c.state) && c.len != 0 && c.timer == 0 && !GivesUp(c)
    ensures var s := Timer(c, area, app);
            && s.conn.sndNxt == c.sndNxt && s.conn.len == c.len && s.conn.state == c.state && s.conn.nrtx == c.nrtx + 1
            && (!c.state.Established? ==>
                  && s.frame.Some? && Repeats(c, s.frame.value) && s.frame.value.data == []
                  && (s.frame.value.ctl.syn <==> SynState(c.state)) && (s.frame.value.ctl.fin <==> FinState(c.state)))
            && (c.state.Established? ==>
                  && s.call.Some? && s.call.value.sig == QUIET.(rexmit := true)
                  && var data := app(s.call.value).data;
                     && (data != [] ==>
                           && s.frame.Some? && Repeats(c, s.frame.value) && |s.frame.value.data| == c.len
                           && s.frame.value.data[..Min(c.len, |data|)] == data[..Min(c.len, |data|)])
                     && (data == [] ==> s.frame.Some? ==> s.frame.value.data == []))
  {
    if c.state.Established? {
      UpRepeats(c, area, app);
    }
  }

  lemma UpRepeats(c: Conn, area: Area, app: App)
    requires ConnInv(c) && c.state.Established? && c.len != 0 && !GivesUp(c)
    ensures var s := Expired(c, area, app);
            && s.call.Some? && s.call.value.sig == QUIET.(rexmit := true)
            && var data := app(s.call.value).data;
               && (data != [] ==>
                     && s.frame.Some? && Repeats(c, s.frame.value) && |s.frame.value.data| == c.len
                     && s.frame.value.data[..Min(c.len, |data|)] == data[..Min(c.len, |data|)])
               && (data == [] ==> s.frame.Some? ==> s.frame.value.data == [])
  {
    var s := Expired(c, area, app);
    var data := app(s.call.value).data;
    var n := Min(c.len, |data|);
    assert Overlay(area, data)[..c.len][..n] == Overlay(area, data)[..|data|][..n];
  }

  // ----- After a loss -----

  /** Everything under way, in either direction, is lost. */
  function Lost(s: System): System {
    s.(net := {}, acks := {})
  }

  /** A message is outstanding, the receiver lacks some of it, and it has been repeated for the last time. */
  predicate Spent(msgs: seq<Bytes>, s: System)
    requires s.k <= |msgs| && (s.sender.waiting ==> s.k < |msgs|)
  {
    s.sender.waiting && |s.accepted| < Off(msgs, s.k) + |msgs[s.k]| && s.conn.nrtx == MAXRTX
  }

  /** The receiver lacks some of the message that is outstanding, and it can still be repeated. */
  predicate Repeatable(msgs: seq<Bytes>, base: Bytes4, s: System) {
    && Up(msgs, base, s) && s.sender.waiting && |s.accepted| < Off(msgs, s.k) + |msgs[s.k]|
    && s.conn.nrtx != MAXRTX
  }

  /** A tick with the timer running only counts down. */
  lemma CountDown(msgs: seq<Bytes>, base: Bytes4, s: System, area: Area) returns (t: System)
    requires Repeatable(msgs, base, s) && s.conn.timer > 0
    ensures IsStep(msgs, base, s, Action.Tick(area), t) && Repeatable(msgs, base, t) && t.conn.timer == s.conn.timer - 1
  {
    t := s.(conn := s.conn.(timer := s.conn.timer - 1));
    assert Timer(s.conn, area, AppOf(msgs, s)) == Drop(t.conn);
    assert s.net + {} == s.net;
  }

  /** The timer runs out: the message is on the network again. */
  lemma Repeated(msgs: seq<Bytes>, base: Bytes4, s: System, area: Area) returns (t: System)
    requires Repeatable(msgs, base, s) && s.conn.timer == 0 && |Concat(msgs)| < TWO32
    ensures IsStep(msgs, base, s, Action.Tick(area), t) && Underway(msgs, base, t)
  {
    var call := RexmitIs(msgs, base, s, area);
    ScriptWhenWaiting(msgs, s, call);
    var c1 := s.conn.(timer := Backoff(s.conn.nrtx), nrtx := (s.conn.nrtx + 1) % 0x100);
    var f := Packet(c1, PSH_ACK, false, msgs[s.k]);
    t := s.(conn := c1, net := s.net + {f});
    TickExpires(msgs, base, s, area);
    assert t == Next(msgs, base, s, Action.Tick(area));
    NextKeepsInv(msgs, base, s, Action.Tick(area));
    assert f in t.net && IsMessage(msgs, base, s.k, f);
  }

  lemma TickExpires(msgs: seq<Bytes>, base: Bytes4, s: System, area: Area)
    requires s.conn.state.Established? && s.conn.len != 0 && s.conn.timer == 0
    ensures Next(msgs, base, s, Action.Tick(area)) == AfterStep(msgs, s, Expired(s.conn, area, AppOf(msgs, s)))
  {}

  lemma {:induction false} RepeatsSome(msgs: seq<Bytes>, base: Bytes4, states: seq<System>, actions: seq<Action>, area: Area)
    returns (ss: seq<System>, aa: seq<Action>)
    requires IsRunFrom(msgs, base, states, actions) && AllSilent(actions) && |Concat(msgs)| < TWO32
    requires Repeatable(msgs, base, Last(states))
    ensures IsRunFrom(msgs, base, ss, aa) && AllSilent(aa) && ss[0] == states[0] && Underway(msgs, base, Last(ss))
    decreases Last(states).conn.timer
  {
    var s := Last(states);
    if s.conn.timer == 0 {
      var t := Repeated(msgs, base, s, area);
      ss, aa := Longer(msgs, base, states, actions, Action.Tick(area), t);
    } else {
      var t := CountDown(msgs, base, s, area);
      var ss1, aa1 := Longer(msgs, base, states, actions, Action.Tick(area), t);
      ss, aa := RepeatsSome(msgs, base, ss1, aa1, area);
    }
  }

  /** A run that goes on from there until the next message, if any, is underway. */
  lemma GoesOn(msgs: seq<Bytes>, base: Bytes4, s: System, area: Area) returns (ss: seq<System>, aa: seq<Action>)
    requires Up(msgs, base, s) && |Concat(msgs)| < TWO32 && !Spent(msgs, s)
    ensures IsRunFrom(msgs, base, ss, aa) && AllSilent(aa) && ss[0] == s && DoneOrUnderway(msgs, base, Last(ss))
  {
    ss, aa := [s], [];
    if !s.sender.waiting {
      var t := FirstTick(msgs, base, s, area);
      ss, aa := Longer(msgs, base, ss, aa, Action.Tick(area), t);
    } else if |s.accepted| < Off(msgs, s.k) + |msgs[s.k]| {
      ss, aa := RepeatsSome(msgs, base, ss, aa, area);
    } else {
      var t := Acknowledgement(msgs, base, s);
      ss, aa := Longer(msgs, base, ss, aa, Acknowledge, t);
      var a, u := Arrival(msgs, base, t, area);
      ss, aa := Longer(msgs, base, ss, aa, a, u);
    }
  }

  lemma LostIsUp(msgs: seq<Bytes>, base: Bytes4, s: System)
    requires Up(msgs, base, s)
    ensures Up(msgs, base, Lost(s))
  {}

  /** All messages are with the receiver and every psock_send has ended. */
  predicate Finished(msgs: seq<Bytes>, s: System) {
    s.k == |msgs| && s.accepted == Concat(msgs)
  }

  lemma Recovers(msgs: seq<Bytes>, base: Bytes4, s: System, area: Area) returns (ss: seq<System>, aa: seq<Action>)
    requires Up(msgs, base, s) && |Concat(msgs)| < TWO32 && !Spent(msgs, s)
    ensures IsRunFrom(msgs, base, ss, aa) && AllSilent(aa) && ss[0] == Lost(s) && Finished(msgs, Last(ss))
  {
    LostIsUp(msgs, base, s);
    ss, aa := GoesOn(msgs, base, Lost(s), area);
    ss, aa := Exchanges(msgs, base, ss, aa, area);
    AllAccepted(msgs, base, Last(ss));
  }

  // ----- When it was the last try -----

  /** What the sender and the receiver are left with, and no data on the network. */
  predicate Doomed(msgs: seq<Bytes>, base: Bytes4, s: System) {
    && Inv(msgs, base, s) && (s.conn.state.Established? || s.conn.state.Closed?)
    && (s.conn.state.Established? ==> Spent(msgs, s))
    && s.sender.waiting && |s.accepted| < Off(msgs, s.k) + |msgs[s.k]|
    && forall f :: f in s.net ==> f.data == []
  }

  predicate Unmoved(s: System, t: System) {
    t.k == s.k && t.accepted == s.accepted
  }

  /** A step that leaves the connection in the same plight, or closed, and sends no data. */
  predicate NoHelp(msgs: seq<Bytes>, s: System, t: Step) {
    && (t.conn.state.Established? || t.conn.state.Closed?) && !t.conn.stopped
    && (t.conn.state.Established? ==> s.conn.state.Established? && t.conn.len == s.conn.len && t.conn.sndNxt == s.conn.sndNxt && t.conn.nrtx == s.conn.nrtx)
    && (t.call.Some? ==> !t.call.value.sig.ackdata && Fit(msgs, t.call.value.mss))
    && (t.frame.Some? ==> t.frame.value.data == [])
  }

  lemma NoHelpAfter(msgs: seq<Bytes>, base: Bytes4, s: System, t: Step)
    requires Doomed(msgs, base, s) && NoHelp(msgs, s, t)
    ensures Doomed(msgs, base, AfterStep(msgs, s, t)) && Unmoved(s, AfterStep(msgs, s, t))
  {
    if t.call.Some? {
      ScriptWhenWaiting(msgs, s, t.call.value);
    }
  }

  lemma DoomedInput(msgs: seq<Bytes>, base: Bytes4, s: System, g: Segment, area: Area)
    requires Doomed(msgs, base, s) && |Concat(msgs)| < TWO32 && Enabled(msgs, base, s, Arrive(g, area)) && g.DataLen() == 0
    ensures NoHelp(msgs, s, Input(s.conn, g, area, AppOf(msgs, s)))
  {
    if s.conn.state.Established? && Acks(s.conn, g) {
      AckMeansAccepted(msgs, base, s, g);
      OffNext(msgs, s.k);
    }
    if s.conn.state.Closed? {
      AckedEffect(s.conn);
    }
  }

  lemma DoomedTick(msgs: seq<Bytes>, base: Bytes4, s: System, area: Area)
    requires Doomed(msgs, base, s) && Fit(msgs, s.conn.mss)
    ensures NoHelp(msgs, s, Timer(s.conn, area, AppOf(msgs, s)))
  {}

  lemma DoomedMove(msgs: seq<Bytes>, base: Bytes4, s: System, a: Action)
    requires Doomed(msgs, base, s) && |Concat(msgs)| < TWO32 && Enabled(msgs, base, s, a) && IsSilent(a)
    requires Fit(msgs, s.conn.mss) && Fit(msgs, Next(msgs, base, s, a).conn.mss)
    ensures Doomed(msgs, base, Next(msgs, base, s, a)) && Unmoved(s, Next(msgs, base, s, a))
  {
    NextKeepsInv(msgs, base, s, a);
    match a
    case Arrive(g, area) =>
      DoomedInput(msgs, base, s, g, area);
      NoHelpAfter(msgs, base, s, Input(s.conn, g, area, AppOf(msgs, s)));
    case Tick(area) =>
      DoomedTick(msgs, base, s, area);
      NoHelpAfter(msgs, base, s, Timer(s.conn, area, AppOf(msgs, s)));
    case PollRequest(uipLen, stale, area) =>
      assert Poll(s.conn, uipLen, stale, area, AppOf(msgs, s)) == Drop(s.conn);
      NoHelpAfter(msgs, base, s, Drop(s.conn));
    case Deliver(_, _, _) =>
    case Acknowledge =>
  }

  lemma {:induction false} DoomedRun(msgs: seq<Bytes>, base: Bytes4, ss: seq<System>, aa: seq<Action>, i: nat)
    requires IsRunFrom(msgs, base, ss, aa) && AllSilent(aa) && |Concat(msgs)| < TWO32 && i < |ss| && Doomed(msgs, base, ss[0])
    ensures Doomed(msgs, base, ss[i]) && Unmoved(ss[0], ss[i])
  {
    if i > 0 {
      DoomedRun(msgs, base, ss, aa, i - 1);
      assert ss[i - 1 + 1] == Next(msgs, base, ss[i - 1], aa[i - 1]);
      assert IsSilent(aa[i - 1]);
      DoomedMove(msgs, base, ss[i - 1], aa[i - 1]);
    }
  }

  ghost predicate CanFinish(msgs: seq<Bytes>, base: Bytes4, s: System) {
    exists ss: seq<System>, aa: seq<Action> ::
      IsRunFrom(msgs, base, ss, aa) && AllSilent(aa) && ss[0] == s && Finished(msgs, Last(ss))
  }

  /**
   From every state of a run in which the connection is up, with everything under way lost and a peer that
   sends no data of its own: some run goes on until all messages are with the receiver and every psock_send
   has ended, if and only if the message outstanding has not been repeated for the last time in vain.
   */
  lemma RecoversIff(msgs: seq<Bytes>, base: Bytes4, s: System, area: Area)
    requires Up(msgs, base, s) && |Concat(msgs)| < TWO32
    ensures CanFinish(msgs, base, Lost(s)) <==> !Spent(msgs, s)
  {
    if !Spent(msgs, s) {
      var ss, aa := Recovers(msgs, base, s, area);
    } else if CanFinish(msgs, base, Lost(s)) {
      var ss: seq<System>, aa: seq<Action> :|
        IsRunFrom(msgs, base, ss, aa) && AllSilent(aa) && ss[0] == Lost(s) && Finished(msgs, Last(ss));
      LostIsUp(msgs, base, s);
      assert Doomed(msgs, base, ss[0]);
      DoomedRun(msgs, base, ss, aa, |aa|);
    }
  }
}
