/**
 Connections opened by a peer, as runs of the table: a SYN to a listening port, the SYN-ACK,
 and the acknowledgement of that.
 */
module Opening {
  import opened Words
  import opened Tcp
  import opened TcpInvariant
  import opened Table

  /** An application that sends nothing and stops nothing. */
  function Quiet(): App {
    (call: AppCall) => AppReply(call.sig, [], false)
  }

  /** The slots before i are up, the others are free. */
  predicate UsedUpTo(conns: seq<Conn>, i: nat) {
    && i < |conns|
    && (forall j :: 0 <= j < i ==> conns[j].state.Established?)
    && forall j :: i <= j < |conns| ==> conns[j].Is(Closed)
  }

  lemma {:induction false} PickFirst(conns: seq<Conn>, k: nat, i: nat)
    requires UsedUpTo(conns, i) && k <= i
    ensures PickFrom(conns, k, None) == Some(i)
    decreases i - k
  {
    if k < i {
      PickFirst(conns, k + 1, i);
    }
  }

  /** The peer's acknowledgement of the SYN-ACK. */
  function Third(g: Segment, iss: Bytes4): Segment {
    g.(ctl := ACK, seqno := Plus(g.seqno, 1), ackno := Plus(iss, 1), offset := 5, rest := [], mssOption := None)
  }

  /** A SYN that belongs to none of the connections. */
  predicate NewPeer(conns: seq<Conn>, g: Segment) {
    g.ctl == SYN && forall j :: 0 <= j < |conns| ==> conns[j].Is(Closed) || conns[j].rport != g.srcPort
  }

  lemma SynAccepted(t: Table, i: nat, g: Segment, area: Area)
    requires UsedUpTo(t.conns, i) && NewPeer(t.conns, g) && g.destPort in t.listening
    ensures Next(t, Arrives(g, area, Quiet())).table == t.(conns := t.conns[i := Accept(t.conns[i], g, t.iss)])
  {
    PickFirst(t.conns, 0, i);
    assert Demux(t.conns, g, 0) == |t.conns|;
  }

  /** The connection that is open after the handshake. */
  predicate Opened(c: Conn, was: Conn, g: Segment) {
    && c.state.Established? && !c.stopped && c.len == 0 && c.rport == g.srcPort && c.lport == g.destPort
    && c.mss == (if g.Mss().Some? then g.Mss().value else was.mss)
    && c.initialMss == (if g.Mss().Some? then g.Mss().value else was.initialMss)
    && (g.Mss().Some? ==> c.mss <= TCP_MSS)
  }

  lemma AckOpens(was: Conn, g: Segment, iss: Bytes4, area: Area)
    ensures Opened(Input(Accept(was, g, iss), Third(g, iss), area, Quiet()).conn, was, g)
  {
    var c, h := Accept(was, g, iss), Third(g, iss);
    assert h.DataLen() == 0 && Acks(c, h) && !OutOfSequence(c, h);
    AckedEffect(c);
    var c1 := Acked(c).(state := Established, stopped := false, len := 0, rcvNxt := Plus(c.rcvNxt, 0));
    assert Input(c, h, area, Quiet()) == CallAndSend(c1, QUIET.(connected := true), 0, 0, area, Quiet());
    QuietCall(c1, QUIET.(connected := true), area);
  }

  lemma QuietCall(c: Conn, sig: Signal, area: Area)
    requires !sig.abort && !sig.close
    ensures CallAndSend(c, sig, 0, 0, area, Quiet()).conn == c.(stopped := false, nrtx := 0)
  {}

  /** Both packets: the first free slot holds an open connection, the others are as before. */
  lemma Handshake(t: Table, i: nat, g: Segment, area: Area) returns (t1: Table, t2: Table)
    requires UsedUpTo(t.conns, i) && NewPeer(t.conns, g) && g.destPort in t.listening
    ensures t1 == Next(t, Arrives(g, area, Quiet())).table
    ensures t2 == Next(t1, Arrives(Third(g, t.iss), area, Quiet())).table
    ensures |t2.conns| == |t.conns| && Opened(t2.conns[i], t.conns[i], g)
    ensures t2 == t.(conns := t.conns[i := t2.conns[i]])
  {
    SynAccepted(t, i, g, area);
    var c, h := Accept(t.conns[i], g, t.iss), Third(g, t.iss);
    t1 := t.(conns := t.conns[i := c]);
    AckOpens(t.conns[i], g, t.iss, area);
    assert Matches(t1.conns[i], h);
    assert forall j :: 0 <= j < i ==> !Matches(t1.conns[j], h);
    assert Demux(t1.conns, h, 0) == i;
    var d := Input(c, h, area, Quiet()).conn;
    t2 := t.(conns := t.conns[i := d]);
    assert t1.conns[i := d] == t.conns[i := d];
  }

  lemma ListenFirst(t: Table, port: U16)
    requires Initial(t)
    ensures port in Next(t, Listen(port)).table.listening && Next(t, Listen(port)).table.conns == t.conns
  {
    assert t.listening[0] == 0;
    assert ReplaceFirst(t.listening, 0, port, 0)[0] == port;
  }

  lemma RunGoesOn(tables: seq<Table>, events: seq<Event>, e: Event)
    requires IsRun(tables, events) && Enabled(tables[|events|], e)
    ensures IsRun(tables + [Next(tables[|events|], e).table], events + [e])
  {
    var ts, es := tables + [Next(tables[|events|], e).table], events + [e];
    forall k | 0 <= k < |es| ensures Enabled(ts[k], es[k]) && ts[k + 1] == Next(ts[k], es[k]).table {
      if k < |events| {
        assert ts[k] == tables[k] && ts[k + 1] == tables[k + 1] && es[k] == events[k];
      }
    }
  }

  /** No application has sent anything yet. */
  ghost predicate QuietSoFar(events: seq<Event>) {
    forall k :: 0 <= k < |events| ==> events[k].Listen? || (events[k].Arrives? && events[k].app == Quiet())
  }

  /** A run goes on by a handshake. */
  lemma OneMoreOpen(tables: seq<Table>, events: seq<Event>, i: nat, g: Segment, area: Area)
    returns (ts: seq<Table>, es: seq<Event>)
    requires IsRun(tables, events) && QuietSoFar(events)
    requires var t := tables[|events|]; UsedUpTo(t.conns, i) && NewPeer(t.conns, g) && g.destPort in t.listening
    ensures IsRun(ts, es) && QuietSoFar(es) && |es| == |events| + 2 && ts[0] == tables[0]
    ensures var t, u := tables[|events|], ts[|es|];
            && |u.conns| == |t.conns| && Opened(u.conns[i], t.conns[i], g) && u == t.(conns := t.conns[i := u.conns[i]])
  {
    var t := tables[|events|];
    var t1, t2 := Handshake(t, i, g, area);
    var syn, third := Arrives(g, area, Quiet()), Arrives(Third(g, t.iss), area, Quiet());
    RunGoesOn(tables, events, syn);
    ts, es := tables + [t1], events + [syn];
    RunGoesOn(ts, es, third);
    ts, es := ts + [t2], es + [third];
  }

  lemma Listens(t: Table, port: U16) returns (tables: seq<Table>, events: seq<Event>)
    requires Initial(t)
    ensures IsRun(tables, events) && QuietSoFar(events) && |events| == 1 && tables[0] == t
    ensures port in tables[1].listening && tables[1].conns == t.conns
  {
    ListenFirst(t, port);
    tables, events := [t, Next(t, Listen(port)).table], [Listen(port)];
  }

  /**
   A run that leads to a connection with an mss of zero: a SYN without an MSS option, to a slot
   that was never used.
   */
  lemma ZeroMssRun(t: Table, g: Segment, area: Area) returns (tables: seq<Table>, events: seq<Event>)
    requires Initial(t) && g.ctl == SYN && g.Mss().None?
    ensures IsRun(tables, events) && tables[0] == t && |tables[|events|].conns| == CONNS
    ensures var c := tables[|events|].conns[0];
            c.state.Established? && !c.stopped && c.len == 0 && c.mss == c.initialMss == 0
  {
    tables, events := Listens(t, g.destPort);
    tables, events := OneMoreOpen(tables, events, 0, g, area);
  }

  // ----- uip_slen along a run -----

  /** A run with uip_slen, which a poll request finds as the event before left it. */
  predicate IsStackRun(tables: seq<Table>, slens: seq<U16>, events: seq<Event>) {
    && IsRun(tables, events) && |slens| == |tables| && slens[0] == 0
    && forall k :: 0 <= k < |events| ==>
         && slens[k + 1] == SlenNext(tables[k], slens[k], events[k])
         && (events[k].PollRequest? ==> events[k].stale == slens[k])
  }

  lemma QuietSlen(t: Table, g: Segment, area: Area)
    ensures SlenNext(t, 0, Arrives(g, area, Quiet())) == 0
  {}

  /** An application that sends the same bytes in every callback. */
  function Sends(data: AppData): App {
    (call: AppCall) => AppReply(call.sig, data, false)
  }

  /** A tick on an idle connection whose application sends: uip_slen is what is outstanding then. */
  lemma TickSends(c: Conn, area: Area, data: AppData)
    requires c.state.Established? && !c.stopped && c.len == 0 && c.mss > 0 && data != []
    ensures SlenAfter(0, Timer(c, area, Sends(data)), Sends(data)) == Min(|data|, c.mss)
  {
    var call := CallFor(c, QUIET.(poll := true), 0, area);
    assert Timer(c, area, Sends(data)).call == Some(call);
  }

  /** A poll request on an idle connection whose application sends nothing. */
  lemma PollLeaks(c: Conn, uipLen: U16, stale: U16, area: Area)
    requires c.state.Established? && !c.stopped && c.len == 0 && 0 < c.mss <= TCP_MSS && stale > 0
    ensures var f := Poll(c, uipLen, stale, area, Quiet()).frame;
            f.Some? && f.value.seqno == c.sndNxt && f.value.data == area[..Min(stale, c.mss)] != []
  {
    assert Overlay(area, []) == area;
  }

  lemma TwoOpen(t: Table, g: Segment, h: Segment, area: Area) returns (tables: seq<Table>, events: seq<Event>)
    requires Initial(t) && g.ctl == h.ctl == SYN && g.destPort == h.destPort && g.srcPort != h.srcPort
    ensures |events| == 5 && IsRun(tables, events) && QuietSoFar(events) && tables[0] == t
    ensures var conns := tables[5].conns;
            |conns| == CONNS && Opened(conns[0], t.conns[0], g) && Opened(conns[1], t.conns[1], h)
  {
    tables, events := Listens(t, g.destPort);
    tables, events := OneMoreOpen(tables, events, 0, g, area);
    tables, events := OneMoreOpen(tables, events, 1, h, area);
  }

  /** As long as no application has sent anything, uip_slen is zero. */
  lemma QuietRun(tables: seq<Table>, events: seq<Event>) returns (slens: seq<U16>)
    requires IsRun(tables, events) && QuietSoFar(events)
    ensures |slens| == |tables| && IsStackRun(tables, slens, events) && slens[|events|] == 0
  {
    slens := seq(|tables|, _ => 0);
    forall k | 0 <= k < |events| ensures SlenNext(tables[k], 0, events[k]) == 0 {
      if events[k].Arrives? {
        QuietSlen(tables[k], events[k].g, events[k].area);
      }
    }
  }

  lemma StackGoesOn(tables: seq<Table>, slens: seq<U16>, events: seq<Event>, e: Event)
    requires IsStackRun(tables, slens, events) && Enabled(tables[|events|], e)
    requires e.PollRequest? ==> e.stale == slens[|events|]
    ensures IsStackRun(tables + [Next(tables[|events|], e).table],
                       slens + [SlenNext(tables[|events|], slens[|events|], e)], events + [e])
  {
    RunGoesOn(tables, events, e);
    var n := |events|;
    var ts, ss, es := tables + [Next(tables[n], e).table], slens + [SlenNext(tables[n], slens[n], e)], events + [e];
    forall k | 0 <= k < |es|
      ensures ss[k + 1] == SlenNext(ts[k], ss[k], es[k]) && (es[k].PollRequest? ==> es[k].stale == ss[k])
    {
      if k < n {
        assert ts[k] == tables[k] && ss[k] == slens[k] && ss[k + 1] == slens[k + 1] && es[k] == events[k];
      }
    }
  }

  /**
   How a poll request comes to do harm: of two connections one sends on a tick, and then the other, idle
   one is polled. Its application gives nothing to send, and yet bytes of the buffer go out on it.
   */
  lemma StaleRun(t: Table, g: Segment, h: Segment, data: AppData, area: Area, uipLen: U16)
    returns (tables: seq<Table>, slens: seq<U16>, events: seq<Event>)
    requires Initial(t) && g.ctl == h.ctl == SYN && g.destPort == h.destPort && g.srcPort != h.srcPort
    requires g.Mss().Some? && g.Mss().value > 0 && h.Mss().Some? && h.Mss().value > 0 && data != []
    ensures |events| == 7 && IsStackRun(tables, slens, events) && tables[0] == t && |tables[6].conns| == CONNS
    ensures events[6] == PollRequest(0, uipLen, slens[6], area, Quiet())
    ensures var f, c := Next(tables[6], events[6]).frame, tables[6].conns[0];
            && c.state.Established? && c.len == 0 && c.mss <= TCP_MSS
            && f.Some? && f.value.seqno == c.sndNxt && f.value.data == area[..Min(slens[6], c.mss)] != []
  {
    tables, events := TwoOpen(t, g, h, area);
    slens := QuietRun(tables, events);
    var idle, busy := tables[5].conns[0], tables[5].conns[1];
    var tick := Event.Tick(1, area, Sends(data));
    TickSends(busy, area, data);
    StackGoesOn(tables, slens, events, tick);
    tables, slens, events := tables + [Next(tables[5], tick).table], slens + [Min(|data|, busy.mss)], events + [tick];
    var poll := PollRequest(0, uipLen, slens[6], area, Quiet());
    PollLeaks(idle, uipLen, slens[6], area);
    StackGoesOn(tables, slens, events, poll);
    tables, slens, events := tables + [Next(tables[6], poll).table], slens + [SlenNext(tables[6], slens[6], poll)], events + [poll];
  }
}
