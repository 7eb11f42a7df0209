/**
 Why ReliableSending asks what it asks: a poll request that does harm, and a message longer than
 the mss, each lead to a run in which the receiver does not get what psock_send was given.
 */
module SendingLimits {
  import opened Words
  import opened Tcp
  import opened Psock
  import opened Sending
  import opened SendingEnds

  // ----- Poll requests -----

  /** With nothing left to send, the script is over. */
  lemma NothingLeft(msgs: seq<Bytes>, s: System, call: AppCall)
    requires s.k <= |msgs| && !s.sender.waiting && Fit(msgs, call.mss) && Off(msgs, s.k) >= |Concat(msgs)|
    ensures Script(msgs, s.k, s.sender, call).data == []
  {
    ScriptFromIdle(msgs, s.k, s.sender, call);
    var p := Script(msgs, s.k, s.sender, call);
    if p.k < |msgs| {
      MessageInStream(msgs, p.k);
    }
  }

  /** Bytes of the buffer that nobody gave to psock_send are on the network as the next of the stream. */
  predicate Leaked(msgs: seq<Bytes>, base: Bytes4, s: System, f: Frame, bytes: Bytes) {
    f in s.net && f.data == bytes != [] && f.seqno == RcvNxt(base, s) && s.accepted == Concat(msgs)
  }

  lemma StalePoll(msgs: seq<Bytes>, base: Bytes4, s: System, uipLen: U16, stale: U16, area: Area) returns (f: Frame)
    requires Inv(msgs, base, s) && Fit(msgs, s.conn.mss) && !Harmless(msgs, s, stale)
    ensures var t := AfterStep(msgs, s, Poll(s.conn, uipLen, stale, area, AppOf(msgs, s)));
            Leaked(msgs, base, t, f, area[..Min(stale, s.conn.mss)])
  {
    var step := Poll(s.conn, uipLen, stale, area, AppOf(msgs, s));
    StaleStep(msgs, base, s, uipLen, stale, area);
    f := step.frame.value;
    AllAccepted(msgs, base, s);
    var t := AfterStep(msgs, s, step);
    assert f in t.net && t.accepted == s.accepted;
  }

  lemma AllAccepted(msgs: seq<Bytes>, base: Bytes4, s: System)
    requires Inv(msgs, base, s) && s.conn.state.Established? && s.conn.len == 0 && Off(msgs, s.k) >= |Concat(msgs)|
    ensures s.accepted == Concat(msgs) && s.conn.sndNxt == RcvNxt(base, s)
  {
    assert !s.sender.waiting;
    assert |s.accepted| == Off(msgs, s.k);
    assert |s.accepted| == |Concat(msgs)|;
  }

  /** The packet of that poll. */
  lemma StaleStep(msgs: seq<Bytes>, base: Bytes4, s: System, uipLen: U16, stale: U16, area: Area)
    requires Inv(msgs, base, s) && Fit(msgs, s.conn.mss) && !Harmless(msgs, s, stale)
    ensures var t := Poll(s.conn, uipLen, stale, area, AppOf(msgs, s));
            t.frame.Some? && t.frame.value.data == area[..Min(stale, s.conn.mss)] && t.frame.value.seqno == s.conn.sndNxt
  {
    var c, sig := s.conn, QUIET.(poll := true);
    var call := CallFor(c, sig, uipLen, area);
    NothingLeft(msgs, s, call);
    var r := Answer(msgs, s.k, s.sender, call);
    assert r == AppReply(sig, [], false);
    StaleSend(c, stale, r, area);
  }

  lemma StaleSend(c: Conn, stale: U16, r: AppReply, area: Area)
    requires !r.sig.abort && !r.sig.close && r.data == [] && stale > 0 && c.len == 0 && 0 < c.mss <= TCP_MSS
    ensures var n := Min(stale, c.mss);
            var c1 := c.(len := n, nrtx := 0, stopped := r.stopped);
            AppSend(c, stale, r, area) == (c1, Some(Packet(c1, PSH_ACK, false, area[..n])))
  {
    assert Overlay(area, []) == area;
  }

  /** Whatever the receiver takes next, it has a prefix of the messages. */
  ghost predicate StaysPrefix(msgs: seq<Bytes>, base: Bytes4, s: System) {
    forall f, offset: nat, n: nat ::
      Enabled(msgs, base, s, Deliver(f, offset, n)) ==> s.accepted + f.data[offset..offset + n] <= Concat(msgs)
  }

  lemma InvStaysPrefix(msgs: seq<Bytes>, base: Bytes4, s: System)
    requires Inv(msgs, base, s) && |Concat(msgs)| < TWO32
    ensures StaysPrefix(msgs, base, s)
  {
    forall f, offset: nat, n: nat | Enabled(msgs, base, s, Deliver(f, offset, n))
      ensures s.accepted + f.data[offset..offset + n] <= Concat(msgs)
    {
      DeliverKeepsInv(msgs, base, s, f, offset, n);
    }
  }

  lemma LeakedDoesNot(msgs: seq<Bytes>, base: Bytes4, s: System, f: Frame, bytes: Bytes)
    requires Leaked(msgs, base, s, f, bytes)
    ensures !StaysPrefix(msgs, base, s)
  {
    PlusPlus(base, |s.accepted|, 0);
    assert Enabled(msgs, base, s, Deliver(f, 0, |f.data|));
  }

  /**
   A poll request leaves the receiver with a prefix of the messages, whatever it takes next, if and
   only if it is harmless.
   */
  lemma PollIsSafeIffHarmless(msgs: seq<Bytes>, base: Bytes4, s: System, uipLen: U16, stale: U16, area: Area)
    requires Inv(msgs, base, s) && Fit(msgs, s.conn.mss) && |Concat(msgs)| < TWO32
    ensures StaysPrefix(msgs, base, AfterStep(msgs, s, Poll(s.conn, uipLen, stale, area, AppOf(msgs, s))))
            <==> Harmless(msgs, s, stale)
  {
    var t := AfterStep(msgs, s, Poll(s.conn, uipLen, stale, area, AppOf(msgs, s)));
    if Harmless(msgs, s, stale) {
      PollStep(msgs, base, s, uipLen, stale, area);
      PaceKeepsInv(msgs, base, s, Poll(s.conn, uipLen, stale, area, AppOf(msgs, s)));
      InvStaysPrefix(msgs, base, t);
    } else {
      var f := StalePoll(msgs, base, s, uipLen, stale, area);
      LeakedDoesNot(msgs, base, t, f, area[..Min(stale, s.conn.mss)]);
    }
  }

  // ----- Messages of any length -----

  /** An action, where a poll request need not be harmless. */
  predicate IsMove(msgs: seq<Bytes>, base: Bytes4, s: System, a: Action, t: System) {
    match a
    case PollRequest(uipLen, stale, area) => t == AfterStep(msgs, s, Poll(s.conn, uipLen, stale, area, AppOf(msgs, s)))
    case _ => Enabled(msgs, base, s, a) && t == Next(msgs, base, s, a)
  }

  /** A run from any state, with messages of any length. */
  predicate IsHistory(msgs: seq<Bytes>, base: Bytes4, states: seq<System>, actions: seq<Action>) {
    && |states| == |actions| + 1
    && forall i :: 0 <= i < |actions| ==> IsMove(msgs, base, states[i], actions[i], states[i + 1])
  }

  /** What psock_send sets out to send of a message, its length being kept in 16 bits. */
  function SendLen(msg: Bytes): U16 {
    |msg| % TWO16
  }

  /** An acknowledgement that leaves the mss as it is. */
  function AckWith(c: Conn, ackno: Bytes4): Segment {
    PureAck(c, ackno).(wnd := c.mss)
  }

  /** The first segment of a message goes out. */
  lemma FirstSegment(msg: Bytes, base: Bytes4, s: System, area: Area) returns (f: Frame)
    requires Initial(base, s) && 0 < s.conn.mss <= TCP_MSS && SendLen(msg) > 0
    ensures var t, n := Next([msg], base, s, Tick(area)), Min(s.conn.mss, SendLen(msg));
            && t == s.(conn := t.conn, sender := Sender(DataSent, 0, SendLen(msg), true), net := {f})
            && t.conn == s.conn.(len := n, nrtx := 0)
            && f.seqno == base && f.data == msg[..n]
  {
    var c, sig, n := s.conn, QUIET.(poll := true), Min(s.conn.mss, SendLen(msg));
    var call := CallFor(c, sig, 0, area);
    FirstTurn(s.sender, msg, call);
    var r := Answer([msg], 0, s.sender, call);
    assert r == AppReply(sig, msg[..n], false);
    AppSendBytes(c, 0, r, area);
    f := Packet(c.(len := n, nrtx := 0), PSH_ACK, false, msg[..n]);
  }

  lemma FirstTurn(s: Sender, msg: Bytes, call: AppCall)
    requires !s.waiting && !call.sig.ackdata && SendLen(msg) > 0
    ensures Script([msg], 0, s, call)
         == Progress(0, Sender(DataSent, 0, SendLen(msg), true), msg[..Min(call.mss, SendLen(msg))])
  {
    var s0 := Sender(NoState, 0, SendLen(msg), false);
    assert SendTurn(s0, msg, call, [])
        == SendResult(Sender(DataSent, 0, SendLen(msg), true), Waiting, msg[..Min(call.mss, SendLen(msg))]);
  }

  /** The receiver takes the segment and acknowledges it. */
  lemma SegmentTaken(msgs: seq<Bytes>, base: Bytes4, s: System, f: Frame) returns (t: System, u: System)
    requires f in s.net && f.data != [] && f.seqno == base && s.accepted == []
    ensures IsMove(msgs, base, s, Deliver(f, 0, |f.data|), t) && IsMove(msgs, base, t, Acknowledge, u)
    ensures u == s.(accepted := f.data, acks := s.acks + {Plus(base, |f.data|)})
  {
    PlusZero(base);
    t := s.(accepted := f.data);
    assert s.accepted + f.data[0..|f.data|] == f.data;
    u := t.(acks := t.acks + {Plus(base, |f.data|)});
  }

  /** Its acknowledgement arrives. */
  lemma FirstAckArrives(msg: Bytes, base: Bytes4, s: System, area: Area) returns (a: Action, t: System)
    requires s.conn.state.Established? && !s.conn.stopped && s.conn.sndNxt == base && s.k == 0
    requires s.conn.mss > 0 && SendLen(msg) > 0 && s.sender == Sender(DataSent, 0, SendLen(msg), true)
    requires s.conn.mss <= s.conn.initialMss <= TCP_MSS
    requires 0 < |s.accepted| == s.conn.len && RcvNxt(base, s) in s.acks
    ensures IsMove([msg], base, s, a, t) && t.k == 1 && t.accepted == s.accepted
  {
    var g := AckWith(s.conn, RcvNxt(base, s));
    assert g.DataLen() == 0 && Acks(s.conn, g);
    InputWhenUp(s.conn, g, area, AppOf([msg], s));
    var c := Heard(s.conn, g);
    var call := CallFor(c, QUIET.(ackdata := true), 0, area);
    FirstAckEndsSend(s.sender, msg, call, []);
    assert Script([msg], 0, s.sender, call).k == 1;
    a := Arrive(g, area);
    t := Next([msg], base, s, a);
  }

  /** A message that seems to have no length is over at the first callback, with nothing sent. */
  lemma NoLengthEndsAtOnce(msg: Bytes, base: Bytes4, s: System, area: Area)
    requires Initial(base, s) && SendLen(msg) == 0
    ensures var t := Next([msg], base, s, Tick(area)); t.k == 1 && t.accepted == []
  {
    var call := CallFor(s.conn, QUIET.(poll := true), 0, area);
    assert Send(s.sender, msg, call).data == [] && !Send(s.sender, msg, call).pt.Waiting?;
    assert Script([msg], 0, s.sender, call).k == 1;
    TickPolls([msg], base, s, area);
  }

  /**
   Why messages have to fit: for every message there is a run that ends its psock_send as soon as the
   first segment is accepted and acknowledged. Then the receiver has the whole message if and only if it
   is not longer than the mss; of one whose length is a multiple of 65536 it has nothing.
   */
  lemma EndsAfterOneSegment(msg: Bytes, base: Bytes4, s: System, area: Area) returns (states: seq<System>, actions: seq<Action>)
    requires Initial(base, s) && 0 < s.conn.mss <= s.conn.initialMss <= TCP_MSS
    ensures IsHistory([msg], base, states, actions) && states[0] == s
    ensures var t := states[|actions|];
            && t.k == 1 && t.accepted == msg[..Min(s.conn.mss, SendLen(msg))]
            && (t.accepted == msg <==> |msg| <= s.conn.mss)
  {
    var s1 := Next([msg], base, s, Tick(area));
    PartIsAll(msg, s.conn.mss);
    if SendLen(msg) == 0 {
      NoLengthEndsAtOnce(msg, base, s, area);
      states, actions := [s, s1], [Tick(area)];
    } else {
      var f := FirstSegment(msg, base, s, area);
      var s2, s3 := SegmentTaken([msg], base, s1, f);
      var a, s4 := FirstAckArrives(msg, base, s3, area);
      states, actions := FourMoves([msg], base, s, Tick(area), s1, Deliver(f, 0, |f.data|), s2, Acknowledge, s3, a, s4);
    }
  }

  lemma PartIsAll(msg: Bytes, mss: U16)
    requires mss > 0
    ensures msg[..Min(mss, SendLen(msg))] == msg <==> |msg| <= mss
  {
    assert |msg[..Min(mss, SendLen(msg))]| == Min(mss, SendLen(msg));
  }

  lemma FourMoves(msgs: seq<Bytes>, base: Bytes4, s0: System, a1: Action, s1: System, a2: Action, s2: System,
                  a3: Action, s3: System, a4: Action, s4: System)
    returns (states: seq<System>, actions: seq<Action>)
    requires IsMove(msgs, base, s0, a1, s1) && IsMove(msgs, base, s1, a2, s2)
    requires IsMove(msgs, base, s2, a3, s3) && IsMove(msgs, base, s3, a4, s4)
    ensures IsHistory(msgs, base, states, actions) && states[0] == s0 && states[|actions|] == s4
  {
    states, actions := [s0, s1, s2, s3, s4], [a1, a2, a3, a4];
    forall i | 0 <= i < 4 ensures IsMove(msgs, base, states[i], actions[i], states[i + 1]) {
      assert i == 0 || i == 1 || i == 2 || i == 3;
    }
  }
}
