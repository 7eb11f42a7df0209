/**
 The other half of Sending: what is given to psock_send can always be delivered. From a fresh
 connection some run takes all messages to the receiver and ends every psock_send.
 */
module SendingEnds {
  import opened Words
  import opened Tcp
  import opened Psock
  import opened Sending

  /** One action, with messages that fit before and after it. */
  predicate IsStep(msgs: seq<Bytes>, base: Bytes4, s: System, a: Action, t: System) {
    && Enabled(msgs, base, s, a) && t == Next(msgs, base, s, a)
    && Fit(msgs, s.conn.mss) && Fit(msgs, t.conn.mss)
  }

  /** A run goes on by one action. */
  lemma RunGoesOn(msgs: seq<Bytes>, base: Bytes4, states: seq<System>, actions: seq<Action>, a: Action, t: System)
    requires IsRunFrom(msgs, base, states, actions) && IsStep(msgs, base, states[|actions|], a, t)
    ensures IsRunFrom(msgs, base, states + [t], actions + [a])
  {
    var ss, aa := states + [t], actions + [a];
    forall i | 0 <= i < |aa| ensures Enabled(msgs, base, ss[i], aa[i]) && ss[i + 1] == Next(msgs, base, ss[i], aa[i]) {
      if i < |actions| {
        assert ss[i] == states[i] && ss[i + 1] == states[i + 1] && aa[i] == actions[i];
      }
    }
  }

  /** The connection is up, and messages fit even where the peer's window does not count. */
  predicate Up(msgs: seq<Bytes>, base: Bytes4, s: System) {
    Inv(msgs, base, s) && s.conn.state.Established? && Fit(msgs, s.conn.mss) && Fit(msgs, s.conn.initialMss)
  }

  /** Message k is on the network and the receiver has all before it, but not yet all of it. */
  predicate Underway(msgs: seq<Bytes>, base: Bytes4, s: System) {
    && Up(msgs, base, s) && s.sender.waiting && |s.accepted| < Off(msgs, s.k) + |msgs[s.k]|
    && exists f :: f in s.net && IsMessage(msgs, base, s.k, f)
  }

  predicate IsMessage(msgs: seq<Bytes>, base: Bytes4, k: nat, f: Frame) {
    k < |msgs| && f.seqno == Plus(base, Off(msgs, k)) && f.data == msgs[k]
  }

  /** Everything is delivered, or the next message is underway. */
  predicate DoneOrUnderway(msgs: seq<Bytes>, base: Bytes4, s: System) {
    Up(msgs, base, s) && (s.k == |msgs| || Underway(msgs, base, s))
  }

  // ----- A callback that sends -----

  /** What the script has come to: all messages are over, or the next one is handed to uip_send. */
  predicate Offers(msgs: seq<Bytes>, p: Progress) {
    && p.k <= |msgs|
    && (p.k < |msgs| ==> p.sender == Sent(msgs[p.k]) && p.data == msgs[p.k] != [])
    && (p.k == |msgs| ==> !p.sender.waiting && p.data == [])
  }

  /** The connection stays up, and the next message is on the network under its own number. */
  lemma CallSends(msgs: seq<Bytes>, base: Bytes4, s: System, c: Conn, sig: Signal, area: Area)
    requires Ready(msgs, s.k, s.sender) && c.mss > 0 && Fit(msgs, c.mss) && Plain(sig)
    requires c.state.Established? && !c.stopped && c.len == 0
    requires var p := Script(msgs, s.k, s.sender, CallFor(c, sig, 0, area));
             Offers(msgs, p) && c.sndNxt == Plus(base, Off(msgs, p.k))
    ensures var t := CallAndSend(c, sig, 0, 0, area, AppOf(msgs, s));
            var s1 := AfterStep(msgs, s, t);
            && t.conn.state == c.state && t.conn.mss == c.mss && t.conn.initialMss == c.initialMss
            && (s1.k == |msgs| || (s1.sender.waiting && exists f :: f in s1.net && IsMessage(msgs, base, s1.k, f)))
            && s1.accepted == s.accepted
  {
    var call := CallFor(c, sig, 0, area);
    var p, r := Script(msgs, s.k, s.sender, call), Answer(msgs, s.k, s.sender, call);
    assert r == AppReply(sig, p.data, false);
    if p.k < |msgs| {
      AppSendBytes(c, 0, r, area);
      var c1 := c.(len := |r.data|, nrtx := 0, stopped := false);
      assert IsMessage(msgs, base, p.k, Packet(c1, PSH_ACK, false, r.data));
    } else {
      AppSendNothing(c, r, area);
    }
  }

  // ----- The steps of an exchange -----

  /** The first callback puts the first message on the network. */
  lemma FirstTick(msgs: seq<Bytes>, base: Bytes4, s: System, area: Area) returns (t: System)
    requires Up(msgs, base, s) && !s.sender.waiting && |s.accepted| == Off(msgs, s.k) && |Concat(msgs)| < TWO32
    ensures IsStep(msgs, base, s, Tick(area), t) && DoneOrUnderway(msgs, base, t)
  {
    var c, sig := s.conn, QUIET.(poll := true);
    ScriptFromIdle(msgs, s.k, s.sender, CallFor(c, sig, 0, area));
    CallSends(msgs, base, s, c, sig, area);
    CallWhenIdle(msgs, base, s, c, sig, 0, 0, area);
    t := AfterStep(msgs, s, CallAndSend(c, sig, 0, 0, area, AppOf(msgs, s)));
    TickPolls(msgs, base, s, area);
    NextKeepsInv(msgs, base, s, Tick(area));
  }

  lemma TickPolls(msgs: seq<Bytes>, base: Bytes4, s: System, area: Area)
    requires s.conn.state.Established? && s.conn.len == 0
    ensures Next(msgs, base, s, Tick(area))
         == AfterStep(msgs, s, CallAndSend(s.conn, QUIET.(poll := true), 0, 0, area, AppOf(msgs, s)))
  {}

  /** The receiver takes all of message k. */
  lemma Delivery(msgs: seq<Bytes>, base: Bytes4, s: System) returns (a: Action, t: System)
    requires Underway(msgs, base, s) && |Concat(msgs)| < TWO32
    ensures IsStep(msgs, base, s, a, t) && Up(msgs, base, t)
    ensures t == s.(accepted := t.accepted) && |t.accepted| == Off(msgs, s.k) + |msgs[s.k]|
  {
    var f :| f in s.net && IsMessage(msgs, base, s.k, f);
    var o: nat := |s.accepted| - Off(msgs, s.k);
    a := Deliver(f, o, |f.data| - o);
    CanDeliver(msgs, base, s, f, o);
    NextKeepsInv(msgs, base, s, a);
    t := Next(msgs, base, s, a);
    Delivered(msgs, base, s, f, o);
  }

  lemma Delivered(msgs: seq<Bytes>, base: Bytes4, s: System, f: Frame, o: nat)
    requires o < |f.data| && Enabled(msgs, base, s, Deliver(f, o, |f.data| - o))
    ensures var t := Next(msgs, base, s, Deliver(f, o, |f.data| - o));
            t == s.(accepted := s.accepted + f.data[o..])
  {
    assert f.data[o..|f.data|] == f.data[o..];
  }

  lemma CanDeliver(msgs: seq<Bytes>, base: Bytes4, s: System, f: Frame, o: nat)
    requires Underway(msgs, base, s) && f in s.net && IsMessage(msgs, base, s.k, f) && |s.accepted| == Off(msgs, s.k) + o
    ensures o < |f.data| && Enabled(msgs, base, s, Deliver(f, o, |f.data| - o))
  {
    PlusPlus(base, Off(msgs, s.k), o);
  }

  /** It acknowledges. */
  lemma Acknowledgement(msgs: seq<Bytes>, base: Bytes4, s: System) returns (t: System)
    requires Up(msgs, base, s) && |Concat(msgs)| < TWO32
    ensures IsStep(msgs, base, s, Acknowledge, t) && Up(msgs, base, t)
    ensures t == s.(acks := t.acks) && RcvNxt(base, s) in t.acks
  {
    NextKeepsInv(msgs, base, s, Acknowledge);
    t := Next(msgs, base, s, Acknowledge);
  }

  /** An empty segment with that number; a window of zero leaves the mss at its initial value. */
  function PureAck(c: Conn, ackno: Bytes4): Segment {
    Segment(c.ripaddr, c.rport, c.lport, c.rcvNxt, ackno, 5, ACK, 0, [], None)
  }

  /** The connection after that segment. */
  lemma HeardAck(msgs: seq<Bytes>, base: Bytes4, s: System)
    requires Up(msgs, base, s) && s.sender.waiting && |s.accepted| == Off(msgs, s.k) + |msgs[s.k]|
    ensures var c1, g := Heard(s.conn, PureAck(s.conn, RcvNxt(base, s))), PureAck(s.conn, RcvNxt(base, s));
            && Acks(s.conn, g) && g.DataLen() == 0
            && c1.mss == c1.initialMss == s.conn.initialMss
            && c1.sndNxt == Plus(base, Off(msgs, s.k + 1))
  {
    var g := PureAck(s.conn, RcvNxt(base, s));
    assert g.DataLen() == 0;
    RcvNxtAcks(msgs, base, s, g);
    AckedNumber(msgs, base, s.k);
  }

  /** The acknowledgement arrives: psock_send ends, and the next message is on its way. */
  lemma Arrival(msgs: seq<Bytes>, base: Bytes4, s: System, area: Area) returns (a: Action, t: System)
    requires Up(msgs, base, s) && s.sender.waiting && |Concat(msgs)| < TWO32
    requires |s.accepted| == Off(msgs, s.k) + |msgs[s.k]| && RcvNxt(base, s) in s.acks
    ensures IsStep(msgs, base, s, a, t) && IsSilent(a) && DoneOrUnderway(msgs, base, t) && t.k > s.k
  {
    var g, app, sig := PureAck(s.conn, RcvNxt(base, s)), AppOf(msgs, s), QUIET.(ackdata := true);
    a := Arrive(g, area);
    t := Next(msgs, base, s, a);
    HeardAck(msgs, base, s);
    var c := Heard(s.conn, g);
    InputWhenUp(s.conn, g, area, app);
    ScriptWhenAcked(msgs, s, CallFor(c, sig, 0, area));
    CallSends(msgs, base, s, c, sig, area);
    var p := Script(msgs, s.k, s.sender, CallFor(c, sig, 0, area));
    assert t == AfterStep(msgs, s, CallAndSend(c, sig, 0, 0, area, app));
    assert t.k == p.k && |t.accepted| == Off(msgs, t.k) by { OffNext(msgs, s.k); }
    NextKeepsInv(msgs, base, s, a);
  }

  // ----- All messages -----

  /** Nothing but acknowledgements arrives. */
  predicate IsSilent(a: Action) {
    a.Arrive? ==> a.g.DataLen() == 0
  }

  predicate AllSilent(actions: seq<Action>) {
    forall i :: 0 <= i < |actions| ==> IsSilent(actions[i])
  }

  function Last(states: seq<System>): System
    requires states != []
  {
    states[|states| - 1]
  }

  /** Delivery, acknowledgement and its arrival, until all messages are over. */
  lemma {:induction false} Exchanges(msgs: seq<Bytes>, base: Bytes4, states: seq<System>, actions: seq<Action>, area: Area)
    returns (ss: seq<System>, aa: seq<Action>)
    requires IsRunFrom(msgs, base, states, actions) && |Concat(msgs)| < TWO32 && AllSilent(actions)
    requires DoneOrUnderway(msgs, base, Last(states))
    ensures IsRunFrom(msgs, base, ss, aa) && AllSilent(aa) && ss[0] == states[0] && Last(ss).k == |msgs| && Up(msgs, base, Last(ss))
    decreases |msgs| - Last(states).k
  {
    var s := Last(states);
    if s.k == |msgs| {
      return states, actions;
    }
    var ss1, aa1 := OneExchange(msgs, base, states, actions, area);
    ss, aa := Exchanges(msgs, base, ss1, aa1, area);
  }

  lemma OneExchange(msgs: seq<Bytes>, base: Bytes4, states: seq<System>, actions: seq<Action>, area: Area)
    returns (ss: seq<System>, aa: seq<Action>)
    requires IsRunFrom(msgs, base, states, actions) && |Concat(msgs)| < TWO32 && AllSilent(actions)
    requires Underway(msgs, base, Last(states))
    ensures IsRunFrom(msgs, base, ss, aa) && AllSilent(aa) && ss[0] == states[0]
    ensures DoneOrUnderway(msgs, base, Last(ss)) && Last(ss).k > Last(states).k
  {
    var a1, t1 := Delivery(msgs, base, Last(states));
    ss, aa := Longer(msgs, base, states, actions, a1, t1);
    var t2 := Acknowledgement(msgs, base, t1);
    ss, aa := Longer(msgs, base, ss, aa, Acknowledge, t2);
    var a3, t3 := Arrival(msgs, base, t2, area);
    ss, aa := Longer(msgs, base, ss, aa, a3, t3);
  }

  /** A silent run with one silent action more. */
  lemma Longer(msgs: seq<Bytes>, base: Bytes4, states: seq<System>, actions: seq<Action>, a: Action, t: System)
    returns (ss: seq<System>, aa: seq<Action>)
    requires IsRunFrom(msgs, base, states, actions) && AllSilent(actions) && IsSilent(a)
    requires IsStep(msgs, base, Last(states), a, t)
    ensures IsRunFrom(msgs, base, ss, aa) && AllSilent(aa) && ss[0] == states[0] && Last(ss) == t
  {
    RunGoesOn(msgs, base, states, actions, a, t);
    ss, aa := states + [t], actions + [a];
  }

  /** From any fresh connection some run delivers all messages and ends every psock_send. */
  lemma SendingCanFinish(msgs: seq<Bytes>, base: Bytes4, s: System, area: Area)
    returns (states: seq<System>, actions: seq<Action>)
    requires Initial(base, s) && Fit(msgs, s.conn.mss) && Fit(msgs, s.conn.initialMss) && |Concat(msgs)| < TWO32
    ensures IsRun(msgs, base, states, actions) && states[0] == s
    ensures Last(states).k == |msgs| && Last(states).accepted == Concat(msgs)
  {
    InitialInv(msgs, base, s);
    assert Off(msgs, 0) == 0 by { assert msgs[..0] == []; }
    var t := FirstTick(msgs, base, s, area);
    states, actions := [s], [];
    assert IsRunFrom(msgs, base, states, actions);
    states, actions := Longer(msgs, base, states, actions, Tick(area), t);
    states, actions := Exchanges(msgs, base, states, actions, area);
    AllAccepted(msgs, base, Last(states));
  }

  lemma AllAccepted(msgs: seq<Bytes>, base: Bytes4, s: System)
    requires Inv(msgs, base, s) && s.k == |msgs|
    ensures s.accepted == Concat(msgs)
  {
    assert msgs[..|msgs|] == msgs;
  }
}
