/**
 The maximum segment size over runs of the table: it is zero only where the initial one is, and
 then nothing is ever outstanding. So no callback has an mss of zero together with the
 acknowledged flag, and the loop of psock_send ends in every callback.
 */
module Mss {
  import opened Words
  import opened Tcp
  import opened TcpInvariant
  import opened Table
  import Psock

  predicate MssInv(c: Conn) {
    && (c.mss == 0 <==> c.initialMss == 0)
    && (c.state.Established? && c.mss == 0 ==> c.len == 0)
  }

  predicate BoundedCall(call: Option<AppCall>) {
    call.Some? ==> Psock.Bounded(call.value)
  }

  predicate KeepsMss(s: Step) {
    MssInv(s.conn) && BoundedCall(s.call)
  }

  lemma CallMss(c: Conn, sig: Signal, n: U16, stale: U16, area: Area, app: App)
    requires MssInv(c) && c.state.Established? && (sig.ackdata ==> c.mss > 0)
    ensures KeepsMss(CallAndSend(c, sig, n, stale, area, app))
  {}

  /** An acknowledgement in ESTABLISHED is one of data, so the mss is not zero. */
  lemma AckedMss(c: Conn, g: Segment)
    requires MssInv(c)
    ensures var c1 := if Acks(c, g) then Acked(c) else c;
            MssInv(c1) && (c.state.Established? && Acks(c, g) ==> c1.mss > 0)
  {
    AckedEffect(c);
  }

  lemma EstablishedMss(c: Conn, acked: bool, g: Segment, area: Area, app: App)
    requires MssInv(c) && c.state.Established? && (acked ==> c.mss > 0)
    ensures KeepsMss(OnEstablished(c, acked, g, area, app))
  {
    var n := g.DataLen();
    var news := n > 0 && !c.stopped;
    var c1 := c.(mss := Window(c, g), rcvNxt := if news then Plus(c.rcvNxt, n) else c.rcvNxt);
    CallMss(c1, QUIET.(ackdata := acked, newdata := news), n, 0, area, app);
  }

  lemma OpeningMss(c: Conn, acked: bool, g: Segment, area: Area, app: App)
    requires MssInv(c) && SynState(c.state)
    ensures KeepsMss(InSequence(c, acked, g, area, app))
  {}

  lemma ClosingMss(c: Conn, acked: bool, g: Segment, area: Area, app: App)
    requires MssInv(c) && !SynState(c.state) && !c.state.Established?
    ensures KeepsMss(InSequence(c, acked, g, area, app))
  {}

  lemma InputMss(c: Conn, g: Segment, area: Area, app: App)
    requires MssInv(c)
    ensures KeepsMss(Input(c, g, area, app))
  {
    if !g.ctl.rst && !OutOfSequence(c, g) {
      AckedMss(c, g);
      AckedEffect(c);
      var acked := Acks(c, g);
      var c1 := if acked then Acked(c) else c;
      if c1.state.Established? {
        EstablishedMss(c1, acked, g, area, app);
      } else if SynState(c1.state) {
        OpeningMss(c1, acked, g, area, app);
      } else {
        ClosingMss(c1, acked, g, area, app);
      }
    }
  }

  lemma TimerMss(c: Conn, area: Area, app: App)
    requires MssInv(c)
    ensures KeepsMss(Timer(c, area, app))
  {
    if c.state.Established? && c.len == 0 {
      CallMss(c, QUIET.(poll := true), 0, 0, area, app);
    } else {
      ExpiredMss(c, area, app);
    }
  }

  lemma ExpiredMss(c: Conn, area: Area, app: App)
    requires MssInv(c)
    ensures KeepsMss(Expired(c, area, app))
  {}

  lemma PollMss(c: Conn, uipLen: U16, stale: U16, area: Area, app: App)
    requires MssInv(c)
    ensures KeepsMss(Poll(c, uipLen, stale, area, app))
  {}

  // ----- The table -----

  predicate AllMss(conns: seq<Conn>) {
    forall i :: 0 <= i < |conns| ==> MssInv(conns[i])
  }

  lemma NextMss(t: Table, e: Event)
    requires AllMss(t.conns) && Enabled(t, e)
    ensures AllMss(Next(t, e).table.conns) && BoundedCall(Next(t, e).call)
  {
    match e
    case Arrives(g, area, app) =>
      var i := Demux(t.conns, g, 0);
      if i < |t.conns| {
        InputMss(t.conns[i], g, area, app);
      }
    case Tick(i, area, app) => TimerMss(t.conns[i], area, app);
    case PollRequest(i, uipLen, stale, area, app) => PollMss(t.conns[i], uipLen, stale, area, app);
    case _ =>
  }

  /**
   In every run from a cleared table no callback has an mss of zero and the acknowledged flag: the
   loop of psock_send always ends. An mss of zero goes with an initial one of zero, and then nothing
   is outstanding in ESTABLISHED.
   */
  lemma EveryCallIsBounded(tables: seq<Table>, events: seq<Event>)
    requires IsRun(tables, events)
    ensures forall k :: 0 <= k < |tables| ==> AllMss(tables[k].conns)
    ensures forall k :: 0 <= k < |events| ==> BoundedCall(Next(tables[k], events[k]).call)
  {
    forall k | 0 <= k < |tables| ensures AllMss(tables[k].conns) {
      RunMss(tables, events, k);
    }
    forall k | 0 <= k < |events| ensures BoundedCall(Next(tables[k], events[k]).call) {
      NextMss(tables[k], events[k]);
    }
  }

  lemma {:induction false} RunMss(tables: seq<Table>, events: seq<Event>, k: nat)
    requires IsRun(tables, events) && k < |tables|
    ensures AllMss(tables[k].conns)
  {
    if k > 0 {
      RunMss(tables, events, k - 1);
      NextMss(tables[k - 1], events[k - 1]);
      assert tables[k - 1 + 1] == Next(tables[k - 1], events[k - 1]).table;
    }
  }
}
