/**
 What every event keeps about one connection, and how long a connection can
 last when nothing arrives.
 */
module TcpInvariant {
  import opened Words
  import opened Tcp

  predicate SynState(s: TcpState) {
    s.SynSent? || s.SynRcvd?
  }

  predicate FinState(s: TcpState) {
    s.FinWait1? || s.Closing? || s.LastAck?
  }

  predicate WaitState(s: TcpState) {
    s.FinWait2? || s.TimeWait?
  }

  /** The lengths, sizes and counters that go with each connection state. */
  predicate ConnInv(c: Conn) {
    && c.mss <= c.initialMss <= TCP_MSS
    && c.nrtx <= MAXRTX
    && (SynState(c.state) ==> c.len == 1 && c.nrtx <= MAXSYNRTX && !c.stopped)
    && (FinState(c.state) ==> c.len == 1)
    && (WaitState(c.state) ==> c.len == 0)
    && (c.state.FinWait1? || c.state.FinWait2? || c.state.LastAck? ==> !c.stopped)
    && (c.state.Established? ==> c.len <= TCP_MSS)
  }

  predicate FrameFits(f: Option<Frame>) {
    f.Some? ==> f.value.Size() <= BUFSIZE
  }

  /** The step keeps the invariant, the connection's addresses, and the buffer bound. */
  predicate Keeps(c: Conn, s: Step) {
    && ConnInv(s.conn)
    && s.conn.ripaddr == c.ripaddr && s.conn.lport == c.lport && s.conn.rport == c.rport
    && FrameFits(s.frame)
  }

  lemma AckedEffect(c: Conn)
    ensures var a := Acked(c);
            a.len == 0 && a.sndNxt == Plus(c.sndNxt, c.len) &&
            a == c.(len := 0, sndNxt := a.sndNxt, sa := a.sa, sv := a.sv, rto := a.rto, timer := a.timer)
  {}

  /** ConnInv in the middle of a step, where an acknowledged segment is no longer outstanding. */
  predicate MidInv(c: Conn, acked: bool) {
    && (acked ==> c.len == 0)
    && ConnInv(c.(len := if acked && (SynState(c.state) || FinState(c.state)) then 1 else c.len))
  }

  lemma CallKeeps(c: Conn, sig: Signal, n: U16, stale: U16, area: Area, app: App)
    requires ConnInv(c) && c.state.Established?
    ensures Keeps(c, CallAndSend(c, sig, n, stale, area, app))
  {}

  lemma EstablishedKeeps(c: Conn, acked: bool, g: Segment, area: Area, app: App)
    requires ConnInv(c) && c.state.Established?
    ensures Keeps(c, OnEstablished(c, acked, g, area, app))
  {
    var n := g.DataLen();
    var news := n > 0 && !c.stopped;
    var c1 := c.(mss := Window(c, g), rcvNxt := if news then Plus(c.rcvNxt, n) else c.rcvNxt);
    CallKeeps(c1, QUIET.(ackdata := acked, newdata := news), n, 0, area, app);
  }

  lemma OpeningKeeps(c: Conn, acked: bool, g: Segment, area: Area, app: App)
    requires MidInv(c, acked) && SynState(c.state)
    ensures Keeps(c, InSequence(c, acked, g, area, app))
  {
    var n := g.DataLen();
    if c.state.SynRcvd? {
      var c1 := c.(state := Established, stopped := false, len := 0, rcvNxt := Plus(c.rcvNxt, n));
      CallKeeps(c1, QUIET.(connected := true, newdata := n > 0), n, 0, area, app);
    } else if acked && g.ctl == SYN_ACK {
      var mss := if g.Mss().Some? then g.Mss().value else c.mss;
      var initial := if g.Mss().Some? then g.Mss().value else c.initialMss;
      var c1 := c.(state := Established, stopped := false, mss := mss, initialMss := initial,
                   rcvNxt := Plus(g.seqno, 1), len := 0);
      CallKeeps(c1, QUIET.(connected := true, newdata := true), 0, 0, area, app);
    }
  }

  lemma ClosingKeeps(c: Conn, acked: bool, g: Segment, area: Area, app: App)
    requires MidInv(c, acked) && !SynState(c.state) && !c.state.Established?
    ensures Keeps(c, InSequence(c, acked, g, area, app))
  {
    if c.state.FinWait1? {
      FinWait1Keeps(c, acked, g, area, app);
    } else if c.state.FinWait2? {
      FinWait2Keeps(c, acked, g, area, app);
    } else {
      LastKeeps(c, acked, g, area, app);
    }
  }

  lemma FinWait1Keeps(c: Conn, acked: bool, g: Segment, area: Area, app: App)
    requires MidInv(c, acked) && c.state.FinWait1?
    ensures Keeps(c, InSequence(c, acked, g, area, app))
  {
    var n := g.DataLen();
    var c1 := c.(rcvNxt := Plus(c.rcvNxt, n));
    PeerClosedKeeps(if acked then c1.(state := TimeWait, stopped := false, timer := 0, len := 0)
                    else c1.(state := Closing, stopped := false), n, area, app);
  }

  lemma FinWait2Keeps(c: Conn, acked: bool, g: Segment, area: Area, app: App)
    requires MidInv(c, acked) && c.state.FinWait2?
    ensures Keeps(c, InSequence(c, acked, g, area, app))
  {
    var n := g.DataLen();
    var c1 := c.(rcvNxt := Plus(c.rcvNxt, n));
    PeerClosedKeeps(c1.(state := TimeWait, stopped := false, timer := 0), n, area, app);
  }

  lemma LastKeeps(c: Conn, acked: bool, g: Segment, area: Area, app: App)
    requires MidInv(c, acked) && (c.state.LastAck? || c.state.Closing? || c.state.TimeWait? || c.state.Closed?)
    ensures Keeps(c, InSequence(c, acked, g, area, app))
  {}

  lemma PeerClosedKeeps(c: Conn, n: U16, area: Area, app: App)
    requires ConnInv(c) && (c.state.TimeWait? || c.state.Closing?)
    ensures Keeps(c, PeerClosed(c, n, area, app))
  {}

  lemma InputKeeps(c: Conn, g: Segment, area: Area, app: App)
    requires ConnInv(c)
    ensures Keeps(c, Input(c, g, area, app))
  {
    if !g.ctl.rst && !OutOfSequence(c, g) {
      var acked := Acks(c, g);
      var c1 := if acked then Acked(c) else c;
      AckedEffect(c);
      if c1.state.Established? {
        EstablishedKeeps(c1, acked, g, area, app);
      } else if SynState(c1.state) {
        OpeningKeeps(c1, acked, g, area, app);
      } else {
        ClosingKeeps(c1, acked, g, area, app);
      }
    }
  }

  lemma TimerKeeps(c: Conn, area: Area, app: App)
    requires ConnInv(c)
    ensures Keeps(c, Timer(c, area, app))
    ensures c.Is(Closed) ==> Timer(c, area, app).conn == c
  {
    if c.state.Established? {
      CallKeeps(c, QUIET.(poll := true), 0, 0, area, app);
    }
    ExpiredKeeps(c, area, app);
  }

  lemma ExpiredKeeps(c: Conn, area: Area, app: App)
    requires ConnInv(c)
    ensures Keeps(c, Expired(c, area, app))
  {
    if !GivesUp(c) {
      RexmitKeeps(c, area, app);
    }
  }

  lemma RexmitKeeps(c: Conn, area: Area, app: App)
    requires ConnInv(c) && !GivesUp(c)
    ensures Keeps(c, Expired(c, area, app))
  {}

  lemma PollKeeps(c: Conn, uipLen: U16, stale: U16, area: Area, app: App)
    requires ConnInv(c)
    ensures Keeps(c, Poll(c, uipLen, stale, area, app))
    ensures c.Is(Closed) ==> Poll(c, uipLen, stale, area, app).conn == c
  {}

  // ----- Timer ticks with nothing arriving -----

  /** One tick's worth of surroundings: the buffer and what the application does if called. */
  datatype Tick = Tick(area: Area, app: App)

  function RunTicks(c: Conn, ticks: seq<Tick>): Conn
    decreases |ticks|
  {
    if ticks == [] then c else RunTicks(Timer(c, ticks[0].area, ticks[0].app).conn, ticks[1..])
  }

  function Limit(s: TcpState): nat {
    if SynState(s) then MAXSYNRTX else MAXRTX
  }

  /** Ticks spent in the back-offs after the nth up to the last retransmission. */
  function BackoffTicks(n: nat, limit: nat): nat
    requires n <= limit <= MAXRTX
    decreases limit - n
  {
    if n == limit then 0 else Backoff(n) + 1 + BackoffTicks(n + 1, limit)
  }

  lemma {:induction false} BackoffTicksTable(n: nat, limit: nat)
    requires n <= limit <= MAXRTX
    ensures var table := [245, 241, 234, 221, 196, 147, 98, 49, 0];
            BackoffTicks(n, limit) == table[n] - table[limit]
    decreases limit - n
  {
    if n < limit {
      BackoffTicksTable(n + 1, limit);
    }
  }

  /** The connection has unacknowledged bytes and the timer works on it. */
  predicate Outstanding(c: Conn) {
    ConnInv(c) && c.len != 0 && !c.Is(Closed)
  }

  /** How many silent ticks the connection has left. */
  function Lifetime(c: Conn): nat
    requires c.nrtx <= Limit(c.state)
  {
    c.timer + 1 + BackoffTicks(c.nrtx, Limit(c.state))
  }

  lemma ExpiredTick(c: Conn, t: Tick)
    requires Outstanding(c) && c.timer == 0
    ensures var s := Expired(c, t.area, t.app);
            if c.nrtx == Limit(c.state) then
              && s.conn.state.Closed?
              && s.call.Some? && s.call.value.sig == QUIET.(timedout := true)
              && s.conn.stopped == t.app(s.call.value).stopped
            else
              && s.conn == c.(timer := Backoff(c.nrtx), nrtx := c.nrtx + 1, stopped := s.conn.stopped)
              && (!c.state.Established? ==> s.conn.stopped == c.stopped)
  {}

  /** A reset with that sequence number. */
  predicate IsReset(f: Option<Frame>, seqno: Bytes4) {
    f.Some? && f.value.ctl == RST_ACK && f.value.seqno == seqno && f.value.data == []
  }

  lemma OutstandingTick(c: Conn, t: Tick)
    requires Outstanding(c)
    ensures var s := Timer(c, t.area, t.app);
            if Lifetime(c) == 1 then
              && s.conn.state.Closed?
              && s.call.Some? && s.call.value.sig == QUIET.(timedout := true)
              && s.conn.stopped == t.app(s.call.value).stopped && IsReset(s.frame, c.sndNxt)
            else Outstanding(s.conn) && s.conn.state == c.state && s.conn.sndNxt == c.sndNxt && Lifetime(s.conn) == Lifetime(c) - 1
  {
    if c.timer == 0 {
      ExpiredTick(c, t);
    }
  }

  lemma {:induction false} OutstandingTicks(c: Conn, ticks: seq<Tick>)
    requires Outstanding(c) && |ticks| < Lifetime(c)
    ensures var c' := RunTicks(c, ticks);
            Outstanding(c') && c'.state == c.state && c'.sndNxt == c.sndNxt && Lifetime(c') == Lifetime(c) - |ticks|
    decreases |ticks|
  {
    if ticks != [] {
      OutstandingTick(c, ticks[0]);
      OutstandingTicks(Timer(c, ticks[0].area, ticks[0].app).conn, ticks[1..]);
    }
  }

  lemma {:induction false} RunTicksLast(c: Conn, ticks: seq<Tick>, t: Tick)
    ensures RunTicks(c, ticks + [t]) == Timer(RunTicks(c, ticks), t.area, t.app).conn
    decreases |ticks|
  {
    if ticks == [] {
      assert RunTicks(c, [t]) == RunTicks(Timer(c, t.area, t.app).conn, [t][1..]);
    } else {
      assert (ticks + [t])[1..] == ticks[1..] + [t];
      RunTicksLast(Timer(c, ticks[0].area, ticks[0].app).conn, ticks[1..], t);
    }
  }

  /**
   Bounded give-up. Whatever the application does when called, a connection with outstanding
   data keeps its state for exactly Lifetime(c) - 1 silent ticks and is closed by the next one;
   that takes at most 256 + 245 ticks.
   */
  lemma GiveUp(c: Conn, ticks: seq<Tick>)
    requires Outstanding(c) && |ticks| == Lifetime(c)
    ensures |ticks| <= 256 + 245
    ensures forall k :: 0 <= k < |ticks| ==> RunTicks(c, ticks[..k]).state == c.state
    ensures RunTicks(c, ticks).state.Closed?
  {
    LifetimeBound(c);
    forall k | 0 <= k < |ticks|
      ensures RunTicks(c, ticks[..k]).state == c.state
    {
      OutstandingTicks(c, ticks[..k]);
    }
    var n := |ticks| - 1;
    assert ticks == ticks[..n] + [ticks[n]];
    LastOutstandingTick(c, ticks[..n], ticks[n]);
  }

  lemma LifetimeBound(c: Conn)
    requires Outstanding(c)
    ensures 1 <= Lifetime(c) <= 256 + 245
  {
    BackoffTicksTable(c.nrtx, Limit(c.state));
  }

  /**
   The tick that closes the connection tells the application so, and the peer by a reset; the slot is free again
   (tcpstateflags is exactly UIP_CLOSED) unless the application answers by calling uip_stop.
   */
  lemma LastOutstandingTick(c: Conn, ticks: seq<Tick>, t: Tick)
    requires Outstanding(c) && |ticks| == Lifetime(c) - 1
    ensures var s := Timer(RunTicks(c, ticks), t.area, t.app);
            && RunTicks(c, ticks + [t]) == s.conn
            && s.conn.state.Closed?
            && s.call.Some? && s.call.value.sig == QUIET.(timedout := true)
            && IsReset(s.frame, c.sndNxt)
            && (s.conn.Is(Closed) <==> !t.app(s.call.value).stopped)
  {
    OutstandingTicks(c, ticks);
    OutstandingTick(RunTicks(c, ticks), t);
    RunTicksLast(c, ticks, t);
  }

  /** Ticks until the 8-bit timer, counting up, reaches the timeout. */
  function WaitTicks(timer: U8): nat {
    (TIME_WAIT_TIMEOUT - 1 - timer) % 0x100 + 1
  }

  lemma WaitTicksStep(timer: U8)
    ensures WaitTicks(timer) == 1 <==> timer == TIME_WAIT_TIMEOUT - 1
    ensures WaitTicks(timer) > 1 ==> WaitTicks((timer + 1) % 0x100) == WaitTicks(timer) - 1
  {}

  lemma WaitTick(c: Conn, t: Tick)
    requires WaitState(c.state) && !c.stopped
    ensures var c' := Timer(c, t.area, t.app).conn;
            if WaitTicks(c.timer) == 1 then c'.Is(Closed)
            else c'.state == c.state && !c'.stopped && WaitTicks(c'.timer) == WaitTicks(c.timer) - 1
  {
    WaitTicksStep(c.timer);
  }

  lemma {:induction false} WaitingTicks(c: Conn, ticks: seq<Tick>)
    requires WaitState(c.state) && !c.stopped && |ticks| < WaitTicks(c.timer)
    ensures var c' := RunTicks(c, ticks);
            c'.state == c.state && !c'.stopped && WaitTicks(c'.timer) == WaitTicks(c.timer) - |ticks|
    decreases |ticks|
  {
    if ticks != [] {
      WaitTick(c, ticks[0]);
      WaitingTicks(Timer(c, ticks[0].area, ticks[0].app).conn, ticks[1..]);
    }
  }

  lemma {:induction false} StoppedWaits(c: Conn, ticks: seq<Tick>)
    requires WaitState(c.state) && c.stopped && c.len == 0
    ensures RunTicks(c, ticks) == c
    decreases |ticks|
  {
    if ticks != [] {
      StoppedWaits(c, ticks[1..]);
    }
  }

  lemma LastWaitingTick(c: Conn, ticks: seq<Tick>)
    requires WaitState(c.state) && !c.stopped && |ticks| == WaitTicks(c.timer)
    ensures RunTicks(c, ticks).Is(Closed)
  {
    var n := |ticks| - 1;
    WaitingTicks(c, ticks[..n]);
    WaitTick(RunTicks(c, ticks[..n]), ticks[n]);
    RunTicksLast(c, ticks[..n], ticks[n]);
    assert ticks == ticks[..n] + [ticks[n]];
  }

  /**
   FIN_WAIT_2 and TIME_WAIT last for WaitTicks(timer) <= 256 silent ticks, also when the timer
   starts beyond the timeout. FIN_WAIT_2 is then always CLOSED. TIME_WAIT is if and only if the
   STOPPED bit is clear, for the timer code compares the whole of tcpstateflags.
   */
  lemma WaitEnds(c: Conn, ticks: seq<Tick>)
    requires ConnInv(c) && WaitState(c.state) && |ticks| == WaitTicks(c.timer)
    ensures |ticks| <= 256
    ensures forall k :: 0 <= k < |ticks| ==> RunTicks(c, ticks[..k]).state == c.state
    ensures c.state.FinWait2? ==> RunTicks(c, ticks).Is(Closed)
    ensures c.state.TimeWait? ==> (RunTicks(c, ticks).Is(Closed) <==> !c.stopped)
  {
    if c.stopped {
      StoppedWaits(c, ticks);
      forall k | 0 <= k < |ticks| ensures RunTicks(c, ticks[..k]).state == c.state {
        StoppedWaits(c, ticks[..k]);
      }
    } else {
      forall k | 0 <= k < |ticks| ensures RunTicks(c, ticks[..k]).state == c.state {
        WaitingTicks(c, ticks[..k]);
      }
      LastWaitingTick(c, ticks);
    }
  }

  /**
   How a connection gets there: the peer's FIN takes FIN_WAIT_2 to TIME_WAIT, stopped if and only
   if the application answers the notice by calling uip_stop.
   */
  lemma StoppedOnFin(c: Conn, g: Segment, area: Area, app: App)
    requires ConnInv(c) && c.state.FinWait2? && g.ctl.fin && !g.ctl.rst && g.seqno == c.rcvNxt
    ensures var s := Input(c, g, area, app);
            && s.conn.state.TimeWait? && s.call.Some? && s.call.value.sig == QUIET.(close := true)
            && (s.conn.stopped <==> app(s.call.value).stopped)
  {}

  /** And it never leaves again: no tick, segment or poll changes a stopped TIME_WAIT. */
  lemma StoppedForEver(c: Conn, ticks: seq<Tick>, g: Segment, uipLen: U16, stale: U16, area: Area, app: App)
    requires ConnInv(c) && c.state.TimeWait? && c.stopped
    ensures RunTicks(c, ticks) == c && Input(c, g, area, app).conn == c && Poll(c, uipLen, stale, area, app).conn == c
  {
    StoppedWaits(c, ticks);
  }
}
