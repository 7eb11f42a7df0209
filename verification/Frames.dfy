/**
 The packets a connection sends: whose numbers they carry, what they acknowledge, how much they carry,
 and resets.
 */
module Frames {
  import opened Words
  import opened Tcp
  import opened TcpInvariant
  import opened Table

  // ----- Every packet carries the connection's own numbers -----

  /** Addresses, ports, both numbers and the window are those of the connection after the step. */
  predicate IsOwn(c: Conn, f: Frame) {
    && f.dest == c.ripaddr && f.srcPort == c.lport && f.destPort == c.rport
    && f.seqno == c.sndNxt && f.ackno == c.rcvNxt && f.wnd == (if c.stopped then 0 else TCP_MSS)
    && (f.mssOption <==> f.ctl.syn) && !f.ctl.urg
  }

  predicate FrameIsOwn(s: Step) {
    s.frame.Some? ==> IsOwn(s.conn, s.frame.value)
  }

  /** A segment that the peer should not have sent in SYN_SENT is the only one answered otherwise. */
  predicate Refused(c: Conn, g: Segment) {
    c.state.SynSent? && !g.ctl.rst && !OutOfSequence(c, g) && !(Acks(c, g) && g.ctl == SYN_ACK)
  }

  lemma CallFrames(c: Conn, sig: Signal, n: U16, stale: U16, area: Area, app: App)
    ensures FrameIsOwn(CallAndSend(c, sig, n, stale, area, app))
  {}

  lemma UpFrames(c: Conn, acked: bool, g: Segment, area: Area, app: App)
    ensures FrameIsOwn(OnEstablished(c, acked, g, area, app))
  {
    var n := g.DataLen();
    var news := n > 0 && !c.stopped;
    var c1 := c.(mss := Window(c, g), rcvNxt := if news then Plus(c.rcvNxt, n) else c.rcvNxt);
    CallFrames(c1, QUIET.(ackdata := acked, newdata := news), n, 0, area, app);
  }

  lemma OpeningFrames(c: Conn, acked: bool, g: Segment, area: Area, app: App)
    requires SynState(c.state) && (c.state.SynSent? ==> acked && g.ctl == SYN_ACK)
    ensures FrameIsOwn(InSequence(c, acked, g, area, app))
  {}

  lemma ClosingFrames(c: Conn, acked: bool, g: Segment, area: Area, app: App)
    requires !SynState(c.state) && !c.state.Established?
    ensures FrameIsOwn(InSequence(c, acked, g, area, app))
  {
    if c.state.FinWait1? || c.state.FinWait2? {
      FinWaitFrames(c, acked, g, area, app);
    } else {
      LastFrames(c, acked, g, area, app);
    }
  }

  lemma FinWaitFrames(c: Conn, acked: bool, g: Segment, area: Area, app: App)
    requires c.state.FinWait1? || c.state.FinWait2?
    ensures FrameIsOwn(InSequence(c, acked, g, area, app))
  {
    var n := g.DataLen();
    var c1 := c.(rcvNxt := Plus(c.rcvNxt, n));
    if g.ctl.fin {
      var c2 := if c.state.FinWait2? then c1.(state := TimeWait, stopped := false, timer := 0)
                else if acked then c1.(state := TimeWait, stopped := false, timer := 0, len := 0)
                else c1.(state := Closing, stopped := false);
      assert InSequence(c, acked, g, area, app) == PeerClosed(c2, n, area, app);
      PeerClosedFrames(c2, n, area, app);
    }
  }

  lemma PeerClosedFrames(c: Conn, n: U16, area: Area, app: App)
    ensures FrameIsOwn(PeerClosed(c, n, area, app))
  {}

  lemma LastFrames(c: Conn, acked: bool, g: Segment, area: Area, app: App)
    requires c.state.LastAck? || c.state.Closing? || c.state.TimeWait? || c.state.Closed?
    ensures FrameIsOwn(InSequence(c, acked, g, area, app))
  {}

  lemma InputFrames(c: Conn, g: Segment, area: Area, app: App)
    requires !Refused(c, g)
    ensures FrameIsOwn(Input(c, g, area, app))
  {
    if !g.ctl.rst && !OutOfSequence(c, g) {
      AckedEffect(c);
      var acked := Acks(c, g);
      var c1 := if acked then Acked(c) else c;
      if c1.state.Established? {
        UpFrames(c1, acked, g, area, app);
      } else if SynState(c1.state) {
        if c1.state.SynSent? || acked {
          OpeningFrames(c1, acked, g, area, app);
        }
      } else {
        ClosingFrames(c1, acked, g, area, app);
      }
    }
  }

  lemma TimerFrames(c: Conn, area: Area, app: App)
    ensures FrameIsOwn(Timer(c, area, app))
  {
    if c.state.Established? && c.len == 0 {
      CallFrames(c, QUIET.(poll := true), 0, 0, area, app);
    } else {
      ExpiryFrames(c, area, app);
    }
  }

  lemma ExpiryFrames(c: Conn, area: Area, app: App)
    ensures FrameIsOwn(Expired(c, area, app))
  {
    if c.state.Established? && !GivesUp(c) {
      RexmitFrames(c, area, app);
    }
  }

  lemma RexmitFrames(c: Conn, area: Area, app: App)
    requires c.state.Established? && !GivesUp(c)
    ensures FrameIsOwn(Expired(c, area, app))
  {}

  lemma PollFrames(c: Conn, uipLen: U16, stale: U16, area: Area, app: App)
    ensures FrameIsOwn(Poll(c, uipLen, stale, area, app))
  {}

  // ----- Resets -----

  /** The segment's own numbers and addresses turned round: RST and ACK to where it came from. */
  predicate Answers(g: Segment, f: Frame) {
    && f.dest == g.srcIp && f.srcPort == g.destPort && f.destPort == g.srcPort
    && f.seqno == g.ackno && f.ackno == Plus(g.seqno, 1)
    && f.ctl.rst && f.ctl.ack && !f.ctl.syn && !f.ctl.fin && f.data == [] && !f.mssOption
  }

  /**
   A segment that belongs to no connection and is no SYN for a listening port is answered with a reset,
   unless it is one itself, and changes nothing.
   */
  lemma StrangersAreReset(t: Table, g: Segment, area: Area, app: App)
    requires (forall i :: 0 <= i < |t.conns| ==> !Matches(t.conns[i], g)) && !(g.ctl == SYN && g.destPort in t.listening)
    ensures var r := Next(t, Arrives(g, area, app));
            r.table == t && r.call.None? && (r.frame.Some? <==> !g.ctl.rst) && (r.frame.Some? ==> Answers(g, r.frame.value))
  {
    assert Demux(t.conns, g, 0) == |t.conns|;
  }

  /** So is a refused one in SYN_SENT, which closes the connection. */
  lemma RefusedIsReset(c: Conn, g: Segment, area: Area, app: App)
    requires Refused(c, g)
    ensures var s := Input(c, g, area, app);
            && s.conn.state.Closed? && s.frame.Some? && Answers(g, s.frame.value)
            && s.call.Some? && s.call.value.sig == QUIET.(abort := true)
  {
    AckedEffect(c);
  }

  // ----- What a segment advances, and what is acknowledged -----

  /** The sequence space of a segment that comes after our own FIN. */
  function Space(g: Segment): nat {
    g.DataLen() as int + if g.ctl.fin then 1 else 0
  }

  /**
   In FIN_WAIT_1 and FIN_WAIT_2 a segment in sequence advances rcv_nxt by all it carries, FIN included, and
   is acknowledged with the new number; except for data that comes with the acknowledgement of our FIN, but
   no FIN of the peer's: that is counted and not acknowledged.
   */
  lemma ClosingAdvances(c: Conn, g: Segment, area: Area, app: App)
    requires ConnInv(c) && (c.state.FinWait1? || c.state.FinWait2?) && !g.ctl.rst && g.seqno == c.rcvNxt
    ensures var s := Input(c, g, area, app);
            && s.conn.rcvNxt == Plus(c.rcvNxt, Space(g))
            && (Space(g) > 0 ==>
                  (s.frame.Some? <==> !(c.state.FinWait1? && Acks(c, g) && !g.ctl.fin)))
            && (s.frame.Some? ==> s.frame.value.ackno == s.conn.rcvNxt && s.frame.value.ctl == ACK)
  {
    AckedEffect(c);
    PlusPlus(c.rcvNxt, g.DataLen(), 1);
    PlusZero(c.rcvNxt);
    var c1 := if Acks(c, g) then Acked(c) else c;
    assert Input(c, g, area, app) == InSequence(c1, Acks(c, g), g, area, app);
    ClosingStepAdvances(c1, Acks(c, g), g, area, app);
  }

  lemma ClosingStepAdvances(c: Conn, acked: bool, g: Segment, area: Area, app: App)
    requires c.state.FinWait1? || c.state.FinWait2?
    ensures var s, n := InSequence(c, acked, g, area, app), g.DataLen();
            && s.conn.rcvNxt == (if g.ctl.fin then Plus(Plus(c.rcvNxt, n), 1) else Plus(c.rcvNxt, n))
            && (n > 0 || g.ctl.fin ==> (s.frame.Some? <==> !(c.state.FinWait1? && acked && !g.ctl.fin)))
            && (s.frame.Some? ==> s.frame.value.ackno == s.conn.rcvNxt && s.frame.value.ctl == ACK)
  {}

  // ----- The peer's window -----

  /** The window of a segment as the stack takes it: a window of zero, or a large one, stands for the initial mss. */
  function Usable(c: Conn, g: Segment): U16 {
    if 0 < g.wnd <= c.initialMss then g.wnd else c.initialMss
  }

  /**
   New data sent in answer to a segment stays within the window of that segment, if that is not zero. With
   a window of zero as much is sent as the peer's first segment allowed.
   */
  lemma WindowIsKept(c: Conn, g: Segment, area: Area, app: App)
    requires ConnInv(c) && c.state.Established? && !g.ctl.rst && !OutOfSequence(c, g) && (Acks(c, g) || c.len == 0)
    ensures var s := Input(c, g, area, app);
            s.frame.Some? ==> |s.frame.value.data| <= Usable(c, g)
  {
    AckedEffect(c);
    var c1 := if Acks(c, g) then Acked(c) else c;
    assert Input(c, g, area, app) == OnEstablished(c1, Acks(c, g), g, area, app);
  }

  // ----- The round trip time -----

  lemma S8Small(x: int)
    requires -128 <= x < 128
    ensures S8(x) == x
  {}

  /** The values are so small that nothing wraps around. */
  predicate Moderate(c: Conn) {
    c.timer <= c.rto && c.rto - c.timer < 120 && c.sa < 120 && c.sv < 60
  }

  lemma RttIs(c: Conn)
    requires Moderate(c)
    ensures var m := c.rto - c.timer;
            var off := if m < c.sa / 8 then c.sa / 8 - m else m - c.sa / 8;
            && Rtt(c).sa == c.sa + (m - c.sa / 8) && Rtt(c).sv == c.sv + (off - c.sv / 4)
            && Rtt(c).rto == Rtt(c).sa / 8 + Rtt(c).sv && Rtt(c) == c.(sa := Rtt(c).sa, sv := Rtt(c).sv, rto := Rtt(c).rto)
  {
    Estimator(c.sa, c.sv, c.rto - c.timer);
  }

  lemma Estimator(sa: nat, sv: nat, m: nat)
    requires m < 120 && sa < 120 && sv < 60
    ensures var off := if m < sa / 8 then sa / 8 - m else m - sa / 8;
            var m0 := S8(S8(m) - sa / 8);
            var m1 := S8(S8(if m0 < 0 then -m0 else m0) - sv / 4);
            && (sa + m0) % 0x100 == sa + (m - sa / 8) && (sv + m1) % 0x100 == sv + (off - sv / 4)
            && ((sa + m0) % 0x100 / 8 + (sv + m1) % 0x100) % 0x100 == (sa + (m - sa / 8)) / 8 + (sv + (off - sv / 4))
  {
    var off := if m < sa / 8 then sa / 8 - m else m - sa / 8;
    S8Small(m);
    S8Small(m - sa / 8);
    S8Small(off);
    S8Small(off - sv / 4);
    SmallSums(sa, m, sv, off);
    Mod8Small(sa + (m - sa / 8));
    Mod8Small(sv + (off - sv / 4));
    Mod8Small((sa + (m - sa / 8)) / 8 + (sv + (off - sv / 4)));
  }

  lemma Mod8Small(x: int)
    requires 0 <= x < 0x100
    ensures x % 0x100 == x
  {}

  lemma SmallSums(sa: nat, m: nat, sv: nat, off: nat)
    requires sa < 120 && m < 120 && sv < 60 && off < 120
    ensures 0 <= sa + (m - sa / 8) < 240 && 0 <= sv + (off - sv / 4) < 180
    ensures (sa + (m - sa / 8)) / 8 + (sv + (off - sv / 4)) < 0x100
  {}

  /** The estimate sa / 8 moves towards the measurement m, and not beyond it. */
  lemma Towards(sa: nat, m: nat)
    ensures var sa1 := sa + (m - sa / 8);
            && (m == sa / 8 ==> sa1 == sa) && (m > sa / 8 ==> sa < sa1 && sa1 / 8 <= m) && (m < sa / 8 ==> sa1 < sa && m <= sa1 / 8)
  {}

  /**
   A measurement moves the estimate of the round trip time towards itself and not beyond, and the variation
   towards how far it was off; the new timeout is both together.
   */
  lemma RttFollows(c: Conn)
    requires Moderate(c)
    ensures var d, m := Rtt(c), c.rto - c.timer;
            var off := if m < c.sa / 8 then c.sa / 8 - m else m - c.sa / 8;
            && (m == c.sa / 8 ==> d.sa == c.sa)
            && (m > c.sa / 8 ==> c.sa < d.sa && d.sa / 8 <= m)
            && (m < c.sa / 8 ==> d.sa < c.sa && m <= d.sa / 8)
            && (off == c.sv / 4 ==> d.sv == c.sv) && (off > c.sv / 4 ==> c.sv < d.sv) && (off < c.sv / 4 ==> d.sv < c.sv)
            && d.rto == d.sa / 8 + d.sv
  {
    RttIs(c);
    Towards(c.sa, c.rto - c.timer);
  }

  /** Only what was sent once is measured; the timer starts anew from the timeout, and nothing is outstanding. */
  lemma AckRestarts(c: Conn)
    ensures var a := Acked(c);
            && a.len == 0 && a.timer == a.rto && a.sndNxt == Plus(c.sndNxt, c.len)
            && (c.nrtx > 0 ==> a.sa == c.sa && a.sv == c.sv && a.rto == c.rto)
            && (c.nrtx == 0 ==> a.sa == Rtt(c).sa && a.sv == Rtt(c).sv && a.rto == Rtt(c).rto)
  {}
}
