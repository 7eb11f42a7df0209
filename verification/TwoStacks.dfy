/**
 Two stacks that talk to each other: a connection from its SYN to its end, each packet that one side
 sends being the segment that the other side gets.
 */
module TwoStacks {
  import opened Words
  import opened Tcp
  import opened TcpInvariant
  import opened Packets
  import opened Opening

  /** The segment that a frame sent by `host` is to the other side, its option read as Options.SynCarriesMss says. */
  function Seen(host: IpAddr, f: Frame): Segment {
    AsSegment(host, f, if f.mssOption then Some(TCP_MSS) else None)
  }

  lemma SeenLength(host: IpAddr, f: Frame)
    requires |f.data| <= TCP_MSS
    ensures Seen(host, f).DataLen() == |f.data|
  {}

  /** Two ends of one connection: each is at the other's address and ports. */
  predicate Ends(a: IpAddr, x: Conn, b: IpAddr, y: Conn) {
    x.ripaddr == b && y.ripaddr == a && x.lport == y.rport && x.rport == y.lport
  }

  /** Both are up with nothing outstanding, and each expects what the other sends next. */
  predicate Joined(a: IpAddr, x: Conn, b: IpAddr, y: Conn) {
    && Ends(a, x, b, y) && x.state.Established? && y.state.Established? && !x.stopped && !y.stopped
    && x.len == 0 && y.len == 0 && x.sndNxt == y.rcvNxt && y.sndNxt == x.rcvNxt
    && 0 < x.mss <= x.initialMss <= TCP_MSS && 0 < y.mss <= y.initialMss <= TCP_MSS
  }

  // ----- Opening -----

  /** The second tick after uip_connect sends the SYN. */
  lemma SynGoesOut(slot: Conn, lport: U16, rport: U16, b: IpAddr, iss: Bytes4, area: Area) returns (x: Conn, f: Frame)
    ensures var x0 := Open(slot, lport, rport, b, iss);
            Timer(Timer(x0, area, Quiet()).conn, area, Quiet()) == Step(x, None, Some(f))
    ensures x.state.SynSent? && x.len == 1 && x.sndNxt == iss && x.mss == x.initialMss == TCP_MSS && !x.stopped
    ensures x.ripaddr == b && x.lport == lport && x.rport == rport && f == Packet(x, SYN, true, [])
  {
    var x1 := Timer(Open(slot, lport, rport, b, iss), area, Quiet()).conn;
    var s := Timer(x1, area, Quiet());
    x, f := s.conn, s.frame.value;
  }

  /** The SYN-ACK opens the side that called; its answer acknowledges it. */
  lemma CallerOpens(a: IpAddr, x: Conn, b: IpAddr, y: Conn, area: Area) returns (x1: Conn, f: Frame)
    requires Ends(a, x, b, y) && x.state.SynSent? && x.len == 1 && 0 < x.mss <= x.initialMss <= TCP_MSS
    requires y.rcvNxt == Plus(x.sndNxt, 1) && !y.stopped
    ensures var s := Input(x, Seen(b, Packet(y, SYN_ACK, true, [])), area, Quiet());
            s.conn == x1 && s.frame == Some(f) && s.call.Some? && s.call.value.sig.connected
    ensures x1.state.Established? && !x1.stopped && x1.len == 0 && x1.sndNxt == y.rcvNxt && x1.rcvNxt == Plus(y.sndNxt, 1)
    ensures x1.mss == x1.initialMss == TCP_MSS && Ends(a, x1, b, y) && f == Packet(x1, ACK, false, [])
  {
    var g := Seen(b, Packet(y, SYN_ACK, true, []));
    AckedEffect(x);
    var c := Acked(x).(state := Established, stopped := false, mss := TCP_MSS, initialMss := TCP_MSS,
                       rcvNxt := Plus(g.seqno, 1), len := 0);
    var sig := QUIET.(connected := true, newdata := true);
    assert Acks(x, g) && !OutOfSequence(x, g);
    assert Input(x, g, area, Quiet()) == CallAndSend(c, sig, 0, 0, area, Quiet());
    var s := CallAndSend(c, sig, 0, 0, area, Quiet());
    x1 := c.(stopped := false, nrtx := 0);
    assert s.conn == x1;
    f := Packet(x1, ACK, false, []);
  }

  /** That acknowledgement opens the other side. */
  lemma ListenerOpens(a: IpAddr, x: Conn, b: IpAddr, y: Conn, area: Area) returns (y1: Conn)
    requires Ends(a, x, b, y) && y.state.SynRcvd? && y.len == 1 && x.rcvNxt == Plus(y.sndNxt, 1) && !x.stopped
    ensures var s := Input(y, Seen(a, Packet(x, ACK, false, [])), area, Quiet());
            s.conn == y1 && s.call.Some? && s.call.value.sig.connected
    ensures y1.state.Established? && !y1.stopped && y1.len == 0 && y1.sndNxt == x.rcvNxt && y1.rcvNxt == y.rcvNxt
    ensures y1.mss == y.mss && y1.initialMss == y.initialMss && Ends(a, x, b, y1)
  {
    var g := Seen(a, Packet(x, ACK, false, []));
    assert g.DataLen() == 0;
    AckedEffect(y);
    PlusZero(y.rcvNxt);
    var c := Acked(y).(state := Established, stopped := false, len := 0, rcvNxt := Plus(y.rcvNxt, 0));
    assert Acks(y, g) && !OutOfSequence(y, g);
    assert Input(y, g, area, Quiet()) == CallAndSend(c, QUIET.(connected := true), 0, 0, area, Quiet());
    QuietCall(c, QUIET.(connected := true), area);
    y1 := Input(y, g, area, Quiet()).conn;
  }

  /**
   From uip_connect on one side and a listening port on the other, SYN, SYN-ACK and acknowledgement join
   the two: whatever the initial sequence numbers, each expects what the other sends next.
   */
  lemma Meet(a: IpAddr, slotA: Conn, lport: U16, issA: Bytes4, b: IpAddr, slotB: Conn, rport: U16, issB: Bytes4, area: Area)
    returns (x: Conn, y: Conn)
    ensures var x0 := Timer(Timer(Open(slotA, lport, rport, b, issA), area, Quiet()).conn, area, Quiet());
            x0.frame.Some? &&
            var y0 := Accept(slotB, Seen(a, x0.frame.value), issB);
            var x1 := Input(x0.conn, Seen(b, Packet(y0, SYN_ACK, true, [])), area, Quiet());
            x1.frame.Some? && x == x1.conn && y == Input(y0, Seen(a, x1.frame.value), area, Quiet()).conn
    ensures Joined(a, x, b, y) && x.lport == lport && x.rport == rport && x.mss == y.mss == TCP_MSS
  {
    var x0, syn := SynGoesOut(slotA, lport, rport, b, issA, area);
    var y0 := Accept(slotB, Seen(a, syn), issB);
    assert Seen(a, syn).Mss() == Some(TCP_MSS);
    var x1, ack := CallerOpens(a, x0, b, y0, area);
    y := ListenerOpens(a, x1, b, y0, area);
    x := x1;
  }

  // ----- Talking -----

  /** What is sent on a tick, in one packet. */
  lemma Speaks(a: IpAddr, x: Conn, b: IpAddr, y: Conn, data: AppData, area: Area) returns (x1: Conn, f: Frame)
    requires Joined(a, x, b, y) && 0 < |data| <= x.mss
    ensures var s := Timer(x, area, Sends(data)); s.conn == x1 && s.frame == Some(f)
    ensures x1 == x.(len := |data|, nrtx := 0) && f == Packet(x1, PSH_ACK, false, data)
  {
    var sig := QUIET.(poll := true);
    x1 := x.(len := |data|, nrtx := 0);
    f := Packet(x1, PSH_ACK, false, data);
    assert Timer(x, area, Sends(data)) == CallAndSend(x, sig, 0, 0, area, Sends(data));
    assert Overlay(area, data)[..|data|] == data;
  }

  /** The other side's application is given exactly that, and it is acknowledged. */
  lemma Hears(a: IpAddr, x: Conn, b: IpAddr, y: Conn, data: AppData, area: Area) returns (y1: Conn, f: Frame)
    requires Ends(a, x, b, y) && y.state.Established? && !y.stopped && y.len == 0 && x.sndNxt == y.rcvNxt && y.sndNxt == x.rcvNxt
    requires 0 < |data| && !x.stopped && y.initialMss <= TCP_MSS && area[..|data|] == data
    ensures var s := Input(y, Seen(a, Packet(x, PSH_ACK, false, data)), area, Quiet());
            && s.conn == y1 && s.frame == Some(f)
            && s.call.Some? && s.call.value.sig.newdata && s.call.value.dataLen == |data|
            && s.call.value.area[..s.call.value.dataLen] == data
    ensures y1 == y.(rcvNxt := Plus(y.rcvNxt, |data|), mss := y1.mss, nrtx := 0) && y1.mss == y.initialMss
    ensures f == Packet(y1, ACK, false, [])
  {
    var g := Seen(a, Packet(x, PSH_ACK, false, data));
    SeenLength(a, Packet(x, PSH_ACK, false, data));
    var c := y.(mss := Window(y, g), rcvNxt := Plus(y.rcvNxt, |data|));
    var sig := QUIET.(newdata := true);
    assert !Acks(y, g) && !OutOfSequence(y, g);
    assert Input(y, g, area, Quiet()) == CallAndSend(c, sig, |data|, 0, area, Quiet());
    y1 := c.(nrtx := 0);
    f := Packet(y1, ACK, false, []);
  }

  /** And the acknowledgement is taken as such. */
  lemma IsHeard(a: IpAddr, x: Conn, b: IpAddr, y: Conn, area: Area) returns (x1: Conn)
    requires Ends(a, x, b, y) && x.state.Established? && !x.stopped && x.len > 0
    requires y.rcvNxt == Plus(x.sndNxt, x.len) && y.sndNxt == x.rcvNxt && !y.stopped && x.initialMss <= TCP_MSS
    ensures var s := Input(x, Seen(b, Packet(y, ACK, false, [])), area, Quiet());
            s.conn == x1 && s.call.Some? && s.call.value.sig == QUIET.(ackdata := true)
    ensures x1.state.Established? && !x1.stopped && x1.len == 0 && x1.sndNxt == y.rcvNxt && x1.rcvNxt == x.rcvNxt
    ensures Ends(a, x1, b, y) && x1.mss == x1.initialMss == x.initialMss
  {
    var g := Seen(b, Packet(y, ACK, false, []));
    assert g.DataLen() == 0;
    AckedEffect(x);
    var c := Acked(x).(mss := Window(Acked(x), g));
    assert Acks(x, g) && !OutOfSequence(x, g);
    assert Input(x, g, area, Quiet()) == CallAndSend(c, QUIET.(ackdata := true), 0, 0, area, Quiet());
    QuietCall(c, QUIET.(ackdata := true), area);
    x1 := Input(x, g, area, Quiet()).conn;
  }

  /** One side sends data on a tick, the other is given it and answers, and that is taken for its acknowledgement. */
  predicate Talked(a: IpAddr, x: Conn, b: IpAddr, y: Conn, data: AppData, areaA: Area, areaB: Area, x2: Conn, y2: Conn) {
    var s1 := Timer(x, areaA, Sends(data));
    s1.frame.Some? &&
    var s2 := Input(y, Seen(a, s1.frame.value), areaB, Quiet());
    && s2.call.Some? && s2.call.value.sig.newdata && s2.call.value.dataLen <= TCP_MSS
    && s2.call.value.area[..s2.call.value.dataLen] == data && s2.frame.Some?
    && var s3 := Input(s1.conn, Seen(b, s2.frame.value), areaA, Quiet());
       s3.call.Some? && s3.call.value.sig.ackdata && x2 == s3.conn && y2 == s2.conn
  }

  /**
   Whatever one application sends in a segment, the other is given exactly that; the acknowledgement that
   comes back ends it, and both are joined as before. By symmetry it holds in either direction.
   */
  lemma Talk(a: IpAddr, x: Conn, b: IpAddr, y: Conn, data: AppData, areaA: Area, areaB: Area) returns (x2: Conn, y2: Conn)
    requires Joined(a, x, b, y) && 0 < |data| <= x.mss && areaB[..|data|] == data
    ensures Talked(a, x, b, y, data, areaA, areaB, x2, y2)
    ensures Joined(a, x2, b, y2) && x2.sndNxt == Plus(x.sndNxt, |data|)
  {
    var x1, f := Speaks(a, x, b, y, data, areaA);
    y2, x2 := Answered(a, x1, b, y, data, areaA, areaB);
  }

  lemma Answered(a: IpAddr, x: Conn, b: IpAddr, y: Conn, data: AppData, areaA: Area, areaB: Area) returns (y1: Conn, x1: Conn)
    requires Joined(a, x.(len := 0), b, y) && x.len == |data| > 0 && areaB[..|data|] == data
    ensures var s2 := Input(y, Seen(a, Packet(x, PSH_ACK, false, data)), areaB, Quiet());
            && s2.call.Some? && s2.call.value.sig.newdata && s2.call.value.dataLen <= TCP_MSS
            && s2.call.value.area[..s2.call.value.dataLen] == data && s2.frame.Some? && y1 == s2.conn
            && var s3 := Input(x, Seen(b, s2.frame.value), areaA, Quiet());
               s3.call.Some? && s3.call.value.sig.ackdata && x1 == s3.conn
    ensures Joined(a, x1, b, y1) && x1.sndNxt == Plus(x.sndNxt, |data|)
  {
    var ack;
    y1, ack := Hears(a, x, b, y, data, areaB);
    HeardEnds(a, x, b, y, y1, data);
    x1 := IsHeard(a, x, b, y1, areaA);
    JoinedAgain(a, x, x1, b, y, y1, data);
  }

  lemma HeardEnds(a: IpAddr, x: Conn, b: IpAddr, y: Conn, y1: Conn, data: AppData)
    requires Joined(a, x.(len := 0), b, y) && x.len == |data|
    requires y1 == y.(rcvNxt := Plus(y.rcvNxt, |data|), mss := y1.mss, nrtx := 0)
    ensures Ends(a, x, b, y1) && y1.rcvNxt == Plus(x.sndNxt, x.len) && y1.sndNxt == x.rcvNxt && !y1.stopped
  {}

  lemma JoinedAgain(a: IpAddr, x: Conn, x1: Conn, b: IpAddr, y: Conn, y1: Conn, data: AppData)
    requires Joined(a, x.(len := 0), b, y) && x.len == |data| && y1.mss == y.initialMss
    requires y1 == y.(rcvNxt := Plus(y.rcvNxt, |data|), mss := y1.mss, nrtx := 0)
    requires x1.state.Established? && !x1.stopped && x1.len == 0 && x1.sndNxt == y1.rcvNxt && x1.rcvNxt == x.rcvNxt
    requires Ends(a, x1, b, y1) && x1.mss == x1.initialMss == x.initialMss
    ensures Joined(a, x1, b, y1) && x1.sndNxt == Plus(x.sndNxt, |data|)
  {}

  // ----- Parting -----

  /** An application that closes. */
  function Closes(): App {
    (call: AppCall) => AppReply(call.sig.(close := true), [], false)
  }

  lemma Closing1(x: Conn, area: Area) returns (x1: Conn, f: Frame)
    requires x.state.Established? && x.len == 0
    ensures var s := Timer(x, area, Closes()); s.conn == x1 && s.frame == Some(f)
    ensures x1 == x.(len := 1, state := FinWait1, stopped := false, nrtx := 0) && f == Packet(x1, FIN_ACK, false, [])
  {
    x1 := x.(len := 1, state := FinWait1, stopped := false, nrtx := 0);
    f := Packet(x1, FIN_ACK, false, []);
    assert Timer(x, area, Closes()) == CallAndSend(x, QUIET.(poll := true), 0, 0, area, Closes());
  }

  /** The other side closes as well, in one packet. */
  lemma Follows(a: IpAddr, x: Conn, b: IpAddr, y: Conn, area: Area) returns (y1: Conn, f: Frame)
    requires Ends(a, x, b, y) && y.state.Established? && !y.stopped && y.len == 0 && x.sndNxt == y.rcvNxt && !x.stopped
    ensures var s := Input(y, Seen(a, Packet(x, FIN_ACK, false, [])), area, Quiet());
            s.conn == y1 && s.frame == Some(f) && s.call.Some? && s.call.value.sig.close
    ensures y1 == y.(rcvNxt := Plus(y.rcvNxt, 1), len := 1, state := LastAck, nrtx := 0) && f == Packet(y1, FIN_ACK, false, [])
  {
    var g := Seen(a, Packet(x, FIN_ACK, false, []));
    assert g.DataLen() == 0 && !Acks(y, g) && !OutOfSequence(y, g);
    var s := Input(y, g, area, Quiet());
    assert s == FinArrived(y, false, 0, area);
    y1, f := s.conn, s.frame.value;
  }

  /** FIN and acknowledgement together take the first to TIME_WAIT. */
  lemma Waits(a: IpAddr, x: Conn, b: IpAddr, y: Conn, area: Area) returns (x1: Conn, f: Frame)
    requires Ends(a, x, b, y) && x.state.FinWait1? && x.len == 1 && !x.stopped && !y.stopped
    requires y.rcvNxt == Plus(x.sndNxt, 1) && y.sndNxt == x.rcvNxt
    ensures var s := Input(x, Seen(b, Packet(y, FIN_ACK, false, [])), area, Quiet()); s.conn == x1 && s.frame == Some(f)
    ensures x1.Is(TimeWait) && x1.timer == 0 && x1.len == 0 && x1.sndNxt == y.rcvNxt && x1.rcvNxt == Plus(y.sndNxt, 1)
    ensures ConnInv(x) ==> ConnInv(x1)
    ensures f == Packet(x1, ACK, false, []) && Ends(a, x1, b, y)
  {
    var g := Seen(b, Packet(y, FIN_ACK, false, []));
    assert g.DataLen() == 0 && Acks(x, g) && !OutOfSequence(x, g);
    AckedEffect(x);
    PlusZero(x.rcvNxt);
    var c := Acked(x).(rcvNxt := Plus(x.rcvNxt, 0), state := TimeWait, stopped := false, timer := 0, len := 0);
    var s := Input(x, g, area, Quiet());
    assert s == PeerClosed(c, 0, area, Quiet());
    x1, f := s.conn, s.frame.value;
  }

  /** The last acknowledgement closes the second. */
  lemma Ended(a: IpAddr, x: Conn, b: IpAddr, y: Conn, area: Area)
    requires Ends(a, x, b, y) && y.state.LastAck? && y.len == 1 && x.rcvNxt == Plus(y.sndNxt, 1) && !x.stopped
    ensures Input(y, Seen(a, Packet(x, ACK, false, [])), area, Quiet()).conn.Is(Closed)
  {
    var g := Seen(a, Packet(x, ACK, false, []));
    assert g.DataLen() == 0 && Acks(y, g) && !OutOfSequence(y, g);
    AckedEffect(y);
  }

  /**
   One side closes: FIN, FIN and acknowledgement, acknowledgement, and the other side is CLOSED and the
   first in TIME_WAIT, which 120 silent ticks end.
   */
  lemma Part(a: IpAddr, x: Conn, b: IpAddr, y: Conn, area: Area, ticks: seq<TcpInvariant.Tick>)
    requires Joined(a, x, b, y) && ConnInv(x) && |ticks| == 120
    ensures var s1 := Timer(x, area, Closes());
            s1.frame.Some? &&
            var s2 := Input(y, Seen(a, s1.frame.value), area, Quiet());
            && s2.call.Some? && s2.call.value.sig.close && s2.frame.Some?
            && var s3 := Input(s1.conn, Seen(b, s2.frame.value), area, Quiet());
               && s3.conn.Is(TimeWait) && s3.frame.Some?
               && Input(s2.conn, Seen(a, s3.frame.value), area, Quiet()).conn.Is(Closed)
               && RunTicks(s3.conn, ticks).Is(Closed)
  {
    var x1, fin := Closing1(x, area);
    var y1, fin2 := Follows(a, x1, b, y, area);
    var x2, ack := Waits(a, x1, b, y1, area);
    Ended(a, x2, b, y1, area);
    TimeWaitEnds(x2, ticks);
  }

  lemma TimeWaitEnds(x: Conn, ticks: seq<TcpInvariant.Tick>)
    requires ConnInv(x) && x.Is(TimeWait) && x.timer == 0 && |ticks| == 120
    ensures RunTicks(x, ticks).Is(Closed)
  {
    WaitEnds(x, ticks);
  }

  /** Both close at once: each FIN takes the other side to CLOSING. */
  lemma Crosses(a: IpAddr, x: Conn, b: IpAddr, y: Conn, area: Area) returns (y1: Conn, f: Frame)
    requires Ends(a, x, b, y) && y.state.FinWait1? && y.len == 1 && !y.stopped && !x.stopped
    requires x.sndNxt == y.rcvNxt && x.rcvNxt == y.sndNxt
    ensures var s := Input(y, Seen(a, Packet(x, FIN_ACK, false, [])), area, Quiet()); s.conn == y1 && s.frame == Some(f)
    ensures y1 == y.(state := Closing, rcvNxt := Plus(y.rcvNxt, 1)) && f == Packet(y1, ACK, false, [])
  {
    var g := Seen(a, Packet(x, FIN_ACK, false, []));
    NotYet(y.sndNxt);
    assert g.DataLen() == 0 && !Acks(y, g) && !OutOfSequence(y, g);
    PlusZero(y.rcvNxt);
    var c := y.(rcvNxt := Plus(y.rcvNxt, 0), state := Closing, stopped := false);
    var s := Input(y, g, area, Quiet());
    assert s == PeerClosed(c, 0, area, Quiet());
    y1, f := s.conn, s.frame.value;
  }

  lemma NotYet(n: Bytes4)
    ensures Plus(n, 1) != n
  {
    PlusZero(n);
    PlusInjective(n, 0, 1);
  }

  lemma CrossedEnds(a: IpAddr, x: Conn, b: IpAddr, y: Conn, area: Area)
    requires Ends(a, x, b, y) && y.state.Closing? && y.len == 1 && !x.stopped
    requires x.rcvNxt == Plus(y.sndNxt, 1)
    ensures Input(y, Seen(a, Packet(x, ACK, false, [])), area, Quiet()).conn.Is(TimeWait)
  {
    var g := Seen(a, Packet(x, ACK, false, []));
    assert g.DataLen() == 0 && Acks(y, g) && !OutOfSequence(y, g);
    AckedEffect(y);
  }

  /** Both sides close before they hear of each other: both end in TIME_WAIT. */
  lemma PartAtOnce(a: IpAddr, x: Conn, b: IpAddr, y: Conn, area: Area)
    requires Joined(a, x, b, y)
    ensures var s1, t1 := Timer(x, area, Closes()), Timer(y, area, Closes());
            s1.frame.Some? && t1.frame.Some? &&
            var s2, t2 := Input(s1.conn, Seen(b, t1.frame.value), area, Quiet()), Input(t1.conn, Seen(a, s1.frame.value), area, Quiet());
            s2.frame.Some? && t2.frame.Some? && s2.conn.state.Closing? && t2.conn.state.Closing?
            && Input(s2.conn, Seen(b, t2.frame.value), area, Quiet()).conn.Is(TimeWait)
            && Input(t2.conn, Seen(a, s2.frame.value), area, Quiet()).conn.Is(TimeWait)
  {
    var x1, fx := Closing1(x, area);
    var y1, fy := Closing1(y, area);
    var y2, ay := Crosses(a, x1, b, y1, area);
    var x2, ax := Crosses(b, y1, a, x1, area);
    CrossedEnds(a, x2, b, y2, area);
    CrossedEnds(b, y2, a, x2, area);
  }

  // ----- A lost last acknowledgement -----

  /** The FIN that is repeated in LAST_ACK is acknowledged again from TIME_WAIT, and that ends it. */
  lemma LastAckLost(a: IpAddr, x: Conn, b: IpAddr, y: Conn, area: Area)
    requires Ends(a, x, b, y) && x.Is(TimeWait) && y.state.LastAck? && ConnInv(y) && y.timer == 0 && !GivesUp(y)
    requires x.sndNxt == y.rcvNxt && x.rcvNxt == Plus(y.sndNxt, 1)
    ensures var s1 := Timer(y, area, Quiet());
            s1.frame.Some? && s1.frame.value.ctl == FIN_ACK &&
            var s2 := Input(x, Seen(b, s1.frame.value), area, Quiet());
            && s2.conn == x && s2.frame.Some?
            && Input(s1.conn, Seen(a, s2.frame.value), area, Quiet()).conn.Is(Closed)
  {
    var y1 := Timer(y, area, Quiet()).conn;
    assert y1 == y.(timer := Backoff(y.nrtx), nrtx := (y.nrtx + 1) % 0x100);
    var g := Seen(b, Packet(y1, FIN_ACK, false, []));
    NotYet(y.sndNxt);
    assert OutOfSequence(x, g);
    Ended(a, x, b, y1, area);
  }

  // ----- A peer that closes later, and an application that aborts -----

  /** The acknowledgement of our FIN alone leads to FIN_WAIT_2, and the peer's FIN from there to TIME_WAIT. */
  lemma HalfClosed(a: IpAddr, x: Conn, b: IpAddr, y: Conn, area: Area)
    requires Ends(a, x, b, y) && x.state.FinWait1? && x.len == 1 && !x.stopped && !y.stopped
    requires y.rcvNxt == Plus(x.sndNxt, 1) && y.sndNxt == x.rcvNxt
    ensures var s1 := Input(x, Seen(b, Packet(y, ACK, false, [])), area, Quiet());
            && s1.conn.Is(FinWait2) && s1.conn.len == 0 && s1.frame.None?
            && var s2 := Input(s1.conn, Seen(b, Packet(y, FIN_ACK, false, [])), area, Quiet());
               s2.conn.Is(TimeWait) && s2.conn.rcvNxt == Plus(y.sndNxt, 1) && s2.frame == Some(Packet(s2.conn, ACK, false, []))
  {
    var g := Seen(b, Packet(y, ACK, false, []));
    assert g.DataLen() == 0 && Acks(x, g) && !OutOfSequence(x, g);
    AckedEffect(x);
    PlusZero(x.rcvNxt);
    var x1 := Input(x, g, area, Quiet()).conn;
    assert x1 == Acked(x).(rcvNxt := Plus(x.rcvNxt, 0), state := FinWait2, stopped := false, len := 0);
    var h := Seen(b, Packet(y, FIN_ACK, false, []));
    assert h.DataLen() == 0 && !Acks(x1, h) && !OutOfSequence(x1, h);
    var c := x1.(rcvNxt := Plus(x1.rcvNxt, 0), state := TimeWait, stopped := false, timer := 0);
    assert Input(x1, h, area, Quiet()) == PeerClosed(c, 0, area, Quiet());
  }

  /** An application that aborts: the connection is closed at once and the peer is sent a reset. */
  lemma AbortResets(x: Conn, sig: Signal, n: U16, stale: U16, area: Area, app: App)
    requires app(CallFor(x, sig, n, area)).sig.abort
    ensures var s := CallAndSend(x, sig, n, stale, area, app);
            s.conn.Is(Closed) && IsReset(s.frame, x.sndNxt) && s.frame.value.ackno == x.rcvNxt
  {}
}
