/**
 The connection table: demultiplexing, slot and port allocation, and what holds
 of the table after every sequence of events.
 */
module Table {
  import opened Words
  import opened Tcp
  import opened TcpInvariant

  const CONNS := 40
  const LISTENPORTS := 40

  /** uip_conns, lastport, iss and uip_listenports. */
  datatype Table = Table(conns: seq<Conn>, lastPort: U16, iss: Bytes4, listening: seq<U16>)

  predicate Active(c: Conn) {
    !c.Is(Closed)
  }

  // ----- Demultiplexing -----

  predicate Matches(c: Conn, g: Segment) {
    Active(c) && g.destPort == c.lport && g.srcPort == c.rport && g.srcIp == c.ripaddr
  }

  /** The first connection from i on that the segment belongs to, or |conns|. */
  function Demux(conns: seq<Conn>, g: Segment, i: nat): (r: nat)
    requires i <= |conns|
    ensures i <= r <= |conns|
    ensures r < |conns| ==> Matches(conns[r], g)
    ensures forall j :: i <= j < r ==> !Matches(conns[j], g)
    decreases |conns| - i
  {
    if i == |conns| || Matches(conns[i], g) then i else Demux(conns, g, i + 1)
  }

  // ----- Slot allocation -----

  predicate Better(conns: seq<Conn>, i: nat, best: Option<nat>)
    requires i < |conns| && (best.Some? ==> best.value < |conns|)
  {
    conns[i].Is(TimeWait) && (best.None? || conns[i].timer > conns[best.value].timer)
  }

  /** The search loop of uip_connect and found_listen from slot i on. */
  function PickFrom(conns: seq<Conn>, i: nat, best: Option<nat>): (r: Option<nat>)
    requires i <= |conns| && (best.Some? ==> best.value < |conns|)
    ensures r.Some? ==> r.value < |conns|
    decreases |conns| - i
  {
    if i == |conns| then best
    else if conns[i].Is(Closed) then Some(i)
    else PickFrom(conns, i + 1, if Better(conns, i, best) then Some(i) else best)
  }

  function Pick(conns: seq<Conn>): (r: Option<nat>)
    ensures r.Some? ==> r.value < |conns|
  {
    PickFrom(conns, 0, None)
  }

  /** best is a TIME_WAIT slot of maximal timer among the first i, none of which is CLOSED. */
  predicate Searched(conns: seq<Conn>, i: nat, best: Option<nat>)
    requires i <= |conns|
  {
    && (forall j :: 0 <= j < i ==> !conns[j].Is(Closed))
    && (best.None? ==> forall j :: 0 <= j < i ==> !conns[j].Is(TimeWait))
    && (best.Some? ==>
          && best.value < i && conns[best.value].Is(TimeWait)
          && forall j :: 0 <= j < i && conns[j].Is(TimeWait) ==> conns[j].timer <= conns[best.value].timer)
  }

  lemma {:induction false} PickFromMeaning(conns: seq<Conn>, i: nat, best: Option<nat>)
    requires i <= |conns| && Searched(conns, i, best)
    ensures var r := PickFrom(conns, i, best);
            if exists j :: 0 <= j < |conns| && conns[j].Is(Closed)
            then r.Some? && conns[r.value].Is(Closed)
            else Searched(conns, |conns|, r)
    decreases |conns| - i
  {
    if i < |conns| && !conns[i].Is(Closed) {
      PickFromMeaning(conns, i + 1, if Better(conns, i, best) then Some(i) else best);
    }
  }

  /** A CLOSED slot if there is one, else a TIME_WAIT slot of maximal timer, else none. */
  lemma PickMeaning(conns: seq<Conn>)
    ensures var r := Pick(conns);
            && ((exists j :: 0 <= j < |conns| && conns[j].Is(Closed)) ==>
                  r.Some? && conns[r.value].Is(Closed))
            && ((forall j :: 0 <= j < |conns| ==> !conns[j].Is(Closed)) && r.Some? ==>
                  && conns[r.value].Is(TimeWait)
                  && forall j :: 0 <= j < |conns| && conns[j].Is(TimeWait) ==>
                       conns[j].timer <= conns[r.value].timer)
            && (r.None? <==> forall j :: 0 <= j < |conns| ==> !conns[j].Is(Closed) && !conns[j].Is(TimeWait))
  {
    PickFromMeaning(conns, 0, None);
  }

  // ----- Local port allocation -----

  /** The next local port, going from 32000 back to 4096. */
  function NextPort(p: U16): U16 {
    if (p + 1) % TWO16 >= 32000 then 4096 else (p + 1) % TWO16
  }

  predicate PortBusy(conns: seq<Conn>, p: U16) {
    exists j :: 0 <= j < |conns| && Active(conns[j]) && conns[j].lport == Htons(p)
  }

  /** The nth port tried after lastport p. */
  function Tried(p: U16, n: nat): U16 {
    if n == 0 then p else NextPort(Tried(p, n - 1))
  }

  /** The first free port after p within `tries` tries. */
  function FreePort(conns: seq<Conn>, p: U16, tries: nat): (r: Option<U16>)
    ensures r.Some? ==> !PortBusy(conns, r.value)
    decreases tries
  {
    if tries == 0 then None
    else if PortBusy(conns, NextPort(p)) then FreePort(conns, NextPort(p), tries - 1)
    else Some(NextPort(p))
  }

  lemma {:induction false} FreePortInRange(conns: seq<Conn>, p: U16, tries: nat)
    requires 1024 <= p < 32000
    ensures FreePort(conns, p, tries).Some? ==> 1024 <= FreePort(conns, p, tries).value < 32000
    decreases tries
  {
    if tries > 0 && PortBusy(conns, NextPort(p)) {
      FreePortInRange(conns, NextPort(p), tries - 1);
    }
  }

  lemma {:induction false} TriedFromNext(p: U16, n: nat)
    ensures Tried(NextPort(p), n) == Tried(p, n + 1)
  {
    if n > 0 { TriedFromNext(p, n - 1); }
  }

  lemma {:induction false} FreePortFails(conns: seq<Conn>, p: U16, tries: nat)
    ensures FreePort(conns, p, tries).None? ==>
              forall n :: 1 <= n <= tries ==> PortBusy(conns, Tried(p, n))
    decreases tries
  {
    if tries > 0 && FreePort(conns, p, tries).None? {
      FreePortFails(conns, NextPort(p), tries - 1);
      forall n | 1 <= n <= tries ensures PortBusy(conns, Tried(p, n)) {
        TriedFromNext(p, n - 1);
        assert n == 1 ==> Tried(p, n) == NextPort(Tried(p, 0));
      }
    }
  }

  /** Ports in a stretch shorter than the whole cycle are all different. */
  lemma {:induction false} TriedForward(p: U16, n: nat)
    requires 1024 <= p < 32000 && n <= 27000
    ensures Tried(p, n) == if p + n < 32000 then p + n else p + n - 27904
  {
    if n > 0 { TriedForward(p, n - 1); }
  }

  function TriedSet(p: U16, n: nat): set<U16> {
    if n == 0 then {} else TriedSet(p, n - 1) + {Tried(p, n)}
  }

  predicate TriedWithin(q: U16, p: U16, n: nat) {
    exists m :: 1 <= m <= n && q == Tried(p, m)
  }

  lemma {:induction false} TriedSetMembers(p: U16, n: nat, q: U16)
    requires q in TriedSet(p, n)
    ensures TriedWithin(q, p, n)
  {
    if q in TriedSet(p, n - 1) {
      TriedSetMembers(p, n - 1, q);
      var m :| 1 <= m <= n - 1 && q == Tried(p, m);
    }
  }

  lemma {:induction false} TriedSetSize(p: U16, n: nat)
    requires 1024 <= p < 32000 && n <= 27000
    ensures |TriedSet(p, n)| == n
  {
    if n > 0 {
      TriedSetSize(p, n - 1);
      TriedForward(p, n);
      if Tried(p, n) in TriedSet(p, n - 1) {
        TriedSetMembers(p, n - 1, Tried(p, n));
        var m :| 1 <= m <= n - 1 && Tried(p, n) == Tried(p, m);
        TriedForward(p, m);
        assert false;
      }
    }
  }

  /** As many busy ports, as many connections. */
  lemma {:induction false} BusyBound(conns: seq<Conn>, ports: set<U16>)
    requires forall p :: p in ports ==> PortBusy(conns, p)
    ensures |ports| <= |conns|
    decreases |conns|
  {
    if conns == [] {
      assert ports == {};
    } else {
      var n := |conns| - 1;
      var q := Htons(conns[n].lport);
      forall p | p in ports - {q} ensures PortBusy(conns[..n], p) {
        var j :| 0 <= j < |conns| && Active(conns[j]) && conns[j].lport == Htons(p);
        assert j != n && conns[..n][j] == conns[j];
      }
      BusyBound(conns[..n], ports - {q});
      assert |ports| <= |ports - {q}| + 1 by { assert ports <= ports - {q} + {q}; SubsetSize(ports, ports - {q} + {q}); }
    }
  }

  lemma {:induction false} SubsetSize(a: set<U16>, b: set<U16>)
    requires a <= b
    ensures |a| <= |b|
    decreases |a|
  {
    if a != {} {
      var x :| x in a;
      SubsetSize(a - {x}, b - {x});
    }
  }

  /** The jump back to `again` in uip_connect is taken at most |conns| times. */
  lemma PortSearchEnds(conns: seq<Conn>, p: U16)
    requires 1024 <= p < 32000 && |conns| <= CONNS
    ensures FreePort(conns, p, |conns| + 1).Some?
  {
    var n := |conns| + 1;
    FreePortFails(conns, p, n);
    if FreePort(conns, p, n).None? {
      TriedSetSize(p, n);
      forall q | q in TriedSet(p, n) ensures PortBusy(conns, q) {
        TriedSetMembers(p, n, q);
      }
      BusyBound(conns, TriedSet(p, n));
      assert false;
    }
  }

  // ----- Events -----

  datatype Event =
    | Arrives(g: Segment, area: Area, app: App)
    | Tick(i: nat, area: Area, app: App)
    | PollRequest(i: nat, uipLen: U16, stale: U16, area: Area, app: App)
    | Connect(ripaddr: IpAddr, rport: U16)
    | Listen(port: U16)
    | Unlisten(port: U16)

  datatype Result = Result(table: Table, call: Option<AppCall>, frame: Option<Frame>)

  function WithConn(t: Table, i: nat, s: Step): Result
    requires i < |t.conns|
  {
    Result(t.(conns := t.conns[i := s.conn]), s.call, s.frame)
  }

  /** uip_process(UIP_DATA) from label tcp_input on, for a segment with a good checksum. */
  function OnSegment(t: Table, g: Segment, area: Area, app: App): Result {
    var i := Demux(t.conns, g, 0);
    if i < |t.conns| then WithConn(t, i, Input(t.conns[i], g, area, app))
    else if g.ctl == SYN && g.destPort in t.listening then OnSyn(t, g)
    else Result(t, None, if g.ctl.rst then None else Some(Reset(g)))
  }

  function OnSyn(t: Table, g: Segment): Result {
    match Pick(t.conns)
    case None => Result(t, None, None)
    case Some(i) =>
      var c := Accept(t.conns[i], g, t.iss);
      WithConn(t, i, Step(c, None, Some(Packet(c, SYN_ACK, true, []))))
  }

  /** uip_connect; when the result's slot is None it returned a null pointer. */
  function OnConnect(t: Table, ripaddr: IpAddr, rport: U16): (Table, Option<nat>) {
    match FreePort(t.conns, t.lastPort, |t.conns| + 1)
    case None => (t, None)
    case Some(p) =>
      var t1 := t.(lastPort := p);
      match Pick(t.conns)
      case None => (t1, None)
      case Some(i) => (t1.(conns := t.conns[i := Open(t.conns[i], Htons(p), rport, ripaddr, t.iss)]), Some(i))
  }

  /** The first entry equal to a, from i on, becomes b. */
  function ReplaceFirst(s: seq<U16>, a: U16, b: U16, i: nat): (r: seq<U16>)
    requires i <= |s|
    ensures |r| == |s|
    decreases |s| - i
  {
    if i == |s| then s else if s[i] == a then s[i := b] else ReplaceFirst(s, a, b, i + 1)
  }

  predicate Enabled(t: Table, e: Event) {
    match e
    case Tick(i, _, _) => i < |t.conns|
    case PollRequest(i, _, _, _, _) => i < |t.conns|
    case _ => true
  }

  function Next(t: Table, e: Event): Result
    requires Enabled(t, e)
  {
    match e
    case Arrives(g, area, app) => OnSegment(t, g, area, app)
    case Tick(i, area, app) => WithConn(t.(iss := Plus(t.iss, 1)), i, Timer(t.conns[i], area, app))
    case PollRequest(i, uipLen, stale, area, app) =>
      WithConn(t, i, Poll(t.conns[i], uipLen, stale, area, app))
    case Connect(ripaddr, rport) => Result(OnConnect(t, ripaddr, rport).0, None, None)
    case Listen(port) => Result(t.(listening := ReplaceFirst(t.listening, 0, port, 0)), None, None)
    case Unlisten(port) => Result(t.(listening := ReplaceFirst(t.listening, port, 0, 0)), None, None)
  }

  /** uip_slen after the event, which found it at slen. */
  function SlenNext(t: Table, slen: U16, e: Event): U16
    requires Enabled(t, e)
  {
    match e
    case Arrives(g, area, app) =>
      var i := Demux(t.conns, g, 0);
      if i < |t.conns| then SlenAfter(slen, Input(t.conns[i], g, area, app), app) else slen
    case Tick(i, area, app) => SlenAfter(0, Timer(t.conns[i], area, app), app)
    case PollRequest(i, uipLen, stale, area, app) =>
      SlenAfter(slen, Poll(t.conns[i], uipLen, stale, area, app), app)
    case _ => slen
  }

  // ----- The invariant -----

  predicate SamePeer(c: Conn, d: Conn) {
    c.lport == d.lport && c.rport == d.rport && c.ripaddr == d.ripaddr
  }

  predicate Unique(conns: seq<Conn>) {
    forall i, j :: 0 <= i < j < |conns| && Active(conns[i]) && Active(conns[j]) ==>
      !SamePeer(conns[i], conns[j])
  }

  predicate TableInv(t: Table) {
    && |t.conns| == CONNS && |t.listening| == LISTENPORTS
    && 1024 <= t.lastPort < 32000
    && (forall i :: 0 <= i < |t.conns| ==> ConnInv(t.conns[i]))
    && Unique(t.conns)
  }

  /** After uip_init, with whatever iss and with memory cleared at program start. */
  predicate Initial(t: Table) {
    && |t.conns| == CONNS && t.listening == seq(LISTENPORTS, _ => 0) && t.lastPort == 1024
    && forall i :: 0 <= i < |t.conns| ==>
         t.conns[i].Is(Closed) && t.conns[i].mss == t.conns[i].initialMss == 0 && t.conns[i].nrtx == 0
  }

  /** Replacing a slot keeps uniqueness if the newcomer shares its peer with no other slot. */
  lemma UniqueUpdate(conns: seq<Conn>, i: nat, c: Conn)
    requires i < |conns| && Unique(conns)
    requires forall j :: 0 <= j < |conns| && j != i && Active(conns[j]) && Active(c) ==> !SamePeer(conns[j], c)
    ensures Unique(conns[i := c])
  {}

  lemma StepKeepsTable(t: Table, i: nat, s: Step)
    requires TableInv(t) && i < |t.conns| && Keeps(t.conns[i], s)
    requires Active(t.conns[i]) || s.conn == t.conns[i]
    ensures TableInv(WithConn(t, i, s).table)
  {
    UniqueUpdate(t.conns, i, s.conn);
  }

  lemma SegmentKeepsTable(t: Table, g: Segment, area: Area, app: App)
    requires TableInv(t)
    ensures var r := OnSegment(t, g, area, app); TableInv(r.table) && FrameFits(r.frame)
  {
    var i := Demux(t.conns, g, 0);
    if i < |t.conns| {
      InputKeeps(t.conns[i], g, area, app);
      StepKeepsTable(t, i, Input(t.conns[i], g, area, app));
    } else if g.ctl == SYN && g.destPort in t.listening && Pick(t.conns).Some? {
      var k := Pick(t.conns).value;
      UniqueUpdate(t.conns, k, Accept(t.conns[k], g, t.iss));
    }
  }

  lemma ConnectKeepsTable(t: Table, ripaddr: IpAddr, rport: U16)
    requires TableInv(t)
    ensures TableInv(OnConnect(t, ripaddr, rport).0)
  {
    PortSearchEnds(t.conns, t.lastPort);
    FreePortInRange(t.conns, t.lastPort, |t.conns| + 1);
    var p := FreePort(t.conns, t.lastPort, |t.conns| + 1).value;
    if Pick(t.conns).Some? {
      var k := Pick(t.conns).value;
      UniqueUpdate(t.conns, k, Open(t.conns[k], Htons(p), rport, ripaddr, t.iss));
    }
  }

  lemma NextKeeps(t: Table, e: Event)
    requires TableInv(t) && Enabled(t, e)
    ensures TableInv(Next(t, e).table) && FrameFits(Next(t, e).frame)
  {
    match e
    case Arrives(g, area, app) => SegmentKeepsTable(t, g, area, app);
    case Tick(i, area, app) =>
      TimerKeeps(t.conns[i], area, app);
      StepKeepsTable(t.(iss := Plus(t.iss, 1)), i, Timer(t.conns[i], area, app));
    case PollRequest(i, uipLen, stale, area, app) =>
      PollKeeps(t.conns[i], uipLen, stale, area, app);
      StepKeepsTable(t, i, Poll(t.conns[i], uipLen, stale, area, app));
    case Connect(ripaddr, rport) => ConnectKeepsTable(t, ripaddr, rport);
    case Listen(_) =>
    case Unlisten(_) =>
  }

  /** A run: each table results from the one before by an event. */
  predicate IsRun(tables: seq<Table>, events: seq<Event>) {
    && |tables| == |events| + 1
    && Initial(tables[0])
    && forall k :: 0 <= k < |events| ==>
         Enabled(tables[k], events[k]) && tables[k + 1] == Next(tables[k], events[k]).table
  }

  // ----- Slots that are never released -----

  /** The search for a slot passes a stopped one over. */
  lemma {:induction false} PickIsNotStopped(conns: seq<Conn>, i: nat, best: Option<nat>)
    requires i <= |conns| && (best.Some? ==> best.value < |conns| && !conns[best.value].stopped)
    ensures var r := PickFrom(conns, i, best); r.Some? ==> !conns[r.value].stopped
    decreases |conns| - i
  {
    if i < |conns| && !conns[i].Is(Closed) {
      PickIsNotStopped(conns, i + 1, if Better(conns, i, best) then Some(i) else best);
    }
  }

  predicate StoppedWait(c: Conn) {
    c.state.TimeWait? && c.stopped
  }

  lemma NextKeepsStopped(t: Table, e: Event, i: nat)
    requires TableInv(t) && Enabled(t, e) && i < |t.conns| && StoppedWait(t.conns[i])
    ensures |Next(t, e).table.conns| == |t.conns| && Next(t, e).table.conns[i] == t.conns[i]
  {
    PickIsNotStopped(t.conns, 0, None);
    var c := t.conns[i];
    match e
    case Arrives(g, area, app) => StoppedForEver(c, [], g, 0, 0, area, app);
    case Tick(_, area, app) =>
      var tick := TcpInvariant.Tick(area, app);
      assert RunTicks(c, [tick]) == Timer(c, area, app).conn by { assert [tick][1..] == []; }
      StoppedTick(c, tick);
    case PollRequest(_, uipLen, stale, area, app) =>
    case _ =>
  }

  lemma StoppedTick(c: Conn, tick: TcpInvariant.Tick)
    requires ConnInv(c) && StoppedWait(c)
    ensures RunTicks(c, [tick]) == c
  {
    StoppedWaits(c, [tick]);
  }

  /** A slot with a stopped TIME_WAIT is lost for the rest of the run, whatever arrives and whoever connects. */
  lemma {:induction false} SlotIsLost(tables: seq<Table>, events: seq<Event>, k: nat, m: nat, i: nat)
    requires IsRun(tables, events) && k <= m < |tables| && i < CONNS
    requires |tables[k].conns| == CONNS && StoppedWait(tables[k].conns[i])
    ensures |tables[m].conns| == CONNS && tables[m].conns[i] == tables[k].conns[i]
    decreases m
  {
    if k < m {
      SlotIsLost(tables, events, k, m - 1, i);
      RunKeepsInvariant(tables, events);
      assert tables[m - 1 + 1] == Next(tables[m - 1], events[m - 1]).table;
      NextKeepsStopped(tables[m - 1], events[m - 1], i);
    }
  }

  /**
   Over every sequence of packets, ticks, polls, connects and listens, with whatever
   application: all tables satisfy the invariant - so no two connections in use ever share
   their ports and peer address - and every frame emitted fits uip_buf.
   */
  lemma {:induction false} RunKeepsInvariant(tables: seq<Table>, events: seq<Event>)
    requires IsRun(tables, events)
    ensures forall k :: 0 <= k < |tables| ==> TableInv(tables[k])
    ensures forall k :: 0 <= k < |events| ==> FrameFits(Next(tables[k], events[k]).frame)
  {
    var n := 0;
    while n < |events|
      invariant 0 <= n <= |events|
      invariant forall k :: 0 <= k <= n ==> TableInv(tables[k])
      invariant forall k :: 0 <= k < n ==> FrameFits(Next(tables[k], events[k]).frame)
    {
      NextKeeps(tables[n], events[n]);
      n := n + 1;
    }
  }
}
