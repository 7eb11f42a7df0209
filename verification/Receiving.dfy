/**
 Exactly-once, in-order receiving: what the application is given is the peer's byte
 stream, whatever order the peer's segments arrive in and however often.
 */
module Receiving {
  import opened Words
  import opened Tcp
  import opened TcpInvariant

  /** A data segment of the stream: its 20-byte header is followed by the bytes from place o on. */
  predicate DataAt(stream: Bytes, irs: Bytes4, g: Segment, o: nat) {
    && o + |g.rest| <= |stream|
    && g.seqno == Plus(irs, 1 + o)
    && g.rest == stream[o..o + |g.rest|]
    && (g.ctl.fin ==> o + |g.rest| == |stream|)
  }

  /**
   A segment the peer may send: its SYN, numbered irs; a bare acknowledgement; or a piece of
   its stream, which starts at irs + 1, with FIN only at the end.
   */
  predicate FromPeer(stream: Bytes, irs: Bytes4, g: Segment) {
    && g.Fits() && !g.ctl.urg
    && if g.ctl.syn then g.seqno == irs && g.DataLen() == 0 && !g.ctl.fin
       else g.offset == 5 && ((g.rest == [] && !g.ctl.fin) || exists o :: 0 <= o <= |stream| && DataAt(stream, irs, g, o))
  }

  datatype Event =
    | Arrive(g: Segment, area: Area, app: App)
    | Tick(area: Area, app: App)
    | PollRequest(uipLen: U16, stale: U16, area: Area, app: App)

  /** The packet lies in uip_buf when it is processed. */
  predicate Enabled(stream: Bytes, irs: Bytes4, e: Event) {
    e.Arrive? ==> FromPeer(stream, irs, e.g) && e.area[..|e.g.rest|] == e.g.rest
  }

  function StepOf(c: Conn, e: Event): Step {
    match e
    case Arrive(g, area, app) => Input(c, g, area, app)
    case Tick(area, app) => Timer(c, area, app)
    case PollRequest(uipLen, stale, area, app) => Poll(c, uipLen, stale, area, app)
  }

  /** The payload flagged NEWDATA in the callback of a step. */
  function Given(s: Step): Bytes {
    if s.call.Some? && s.call.value.sig.newdata && s.call.value.dataLen <= TCP_MSS
    then s.call.value.area[..s.call.value.dataLen] else []
  }

  datatype Receiver = Receiver(conn: Conn, given: Bytes)

  function Next(r: Receiver, e: Event): Receiver {
    var s := StepOf(r.conn, e);
    Receiver(s.conn, r.given + Given(s))
  }

  /** What the application has been given is the stream up to rcv_nxt. */
  predicate Inv(stream: Bytes, irs: Bytes4, r: Receiver) {
    && r.given <= stream
    && (r.conn.state.SynSent? ==> r.given == [])
    && (r.conn.state.SynRcvd? || r.conn.state.Established? ==> r.conn.rcvNxt == Plus(irs, 1 + |r.given|))
    && (r.conn.state.LastAck? ==> r.given == stream && r.conn.rcvNxt == Plus(irs, 2 + |stream|))
  }

  /** Before anything arrived: after uip_connect, or after a SYN of the peer. */
  predicate Initial(irs: Bytes4, r: Receiver) {
    && r.given == []
    && (r.conn.state.SynSent? || (r.conn.state.SynRcvd? && r.conn.rcvNxt == Plus(irs, 1)))
  }

  /**
   A segment with data, SYN or FIN that is not at rcv_nxt changes nothing and is given to nobody;
   it is answered with the number expected. Only the answer to our own SYN is exempt.
   */
  lemma OutOfSequenceIgnored(c: Conn, g: Segment, area: Area, app: App)
    requires g.DataLen() > 0 || g.ctl.syn || g.ctl.fin
    requires g.seqno != c.rcvNxt && !(c.state.SynSent? && g.ctl == SYN_ACK)
    ensures var s := Input(c, g, area, app);
            && s.conn == c && s.call.None?
            && (!g.ctl.rst ==> s.frame.Some? && s.frame.value.ackno == c.rcvNxt && s.frame.value.ctl == ACK)
  {}

  // ----- What a callback may do to the receiving side -----

  function NewBytes(sig: Signal, n: U16, area: Area): Bytes {
    if sig.newdata && n <= TCP_MSS then area[..n] else []
  }

  /** After appsend the connection is up with the same rcv_nxt, or on its way down. */
  lemma CallInv(stream: Bytes, irs: Bytes4, given: Bytes, c: Conn, sig: Signal, n: U16, area: Area, app: App)
    requires c.state.Established? && given + NewBytes(sig, n, area) <= stream
    requires c.rcvNxt == Plus(irs, 1 + |given + NewBytes(sig, n, area)|)
    ensures var s := CallAndSend(c, sig, n, 0, area, app);
            Inv(stream, irs, Receiver(s.conn, given + Given(s)))
  {
    var s := CallAndSend(c, sig, n, 0, area, app);
    assert s.call == Some(CallFor(c, sig, n, area));
    assert s.conn.state.Established? || s.conn.state.FinWait1? || s.conn.state.Closed?;
    assert s.conn.rcvNxt == c.rcvNxt;
  }

  /** The FIN and what comes with it completes the stream. */
  lemma FinInv(stream: Bytes, irs: Bytes4, given: Bytes, c: Conn, acked: bool, n: U16, area: Area)
    requires n <= TCP_MSS && given + area[..n] == stream && c.rcvNxt == Plus(irs, 1 + |given|)
    ensures var s := FinArrived(c, acked, n, area);
            Inv(stream, irs, Receiver(s.conn, given + Given(s)))
  {
    FinNumber(irs, |given|, n);
    var s := FinArrived(c, acked, n, area);
    assert |stream| == |given| + n;
    assert s.conn.rcvNxt == Plus(irs, 2 + |stream|);
    if n == 0 {
      assert area[..n] == [] == Given(s);
    }
  }

  lemma FinNumber(irs: Bytes4, m: nat, n: nat)
    requires n <= TCP_MSS
    ensures Plus(Plus(irs, 1 + m), (1 + n) % TWO16) == Plus(irs, 2 + (m + n))
  {
    var k, sum := (1 + n) % TWO16, 2 + (m + n);
    assert k == 1 + n;
    PlusPlus(irs, 1 + m, k);
    assert 1 + m + k == sum;
  }

  /** The one place in the stream where an in-sequence segment can come from. */
  lemma InPlace(stream: Bytes, irs: Bytes4, r: nat, g: Segment)
    requires FromPeer(stream, irs, g) && |stream| + 2 < TWO32 && r <= |stream|
    requires g.DataLen() > 0 || g.ctl.syn || g.ctl.fin
    requires g.seqno == Plus(irs, 1 + r)
    ensures !g.ctl.syn && g.DataLen() == |g.rest| && DataAt(stream, irs, g, r)
  {
    Apart(irs, r);
    assert g.offset == 5;
    PlainLength(g);
    var o :| 0 <= o <= |stream| && DataAt(stream, irs, g, o);
    SamePlace(irs, o, r);
  }

  lemma PlainLength(g: Segment)
    requires g.Fits() && g.offset == 5
    ensures g.DataLen() == |g.rest|
  {}

  lemma Apart(irs: Bytes4, r: nat)
    requires r + 1 < TWO32
    ensures Plus(irs, 1 + r) != irs
  {
    PlusZero(irs);
    PlusInjective(irs, 0, 1 + r);
  }

  lemma SamePlace(irs: Bytes4, o: nat, r: nat)
    requires o + 1 < TWO32 && r + 1 < TWO32
    ensures Plus(irs, 1 + o) == Plus(irs, 1 + r) <==> o == r
  {
    PlusInjective(irs, 1 + o, 1 + r);
  }

  lemma Extends(stream: Bytes, irs: Bytes4, given: Bytes, g: Segment)
    requires given <= stream && DataAt(stream, irs, g, |given|)
    ensures given + g.rest == stream[..|given| + |g.rest|]
  {}

  lemma ArriveWhenUp(stream: Bytes, irs: Bytes4, r: Receiver, g: Segment, area: Area, app: App)
    requires Inv(stream, irs, r) && |stream| + 2 < TWO32 && Enabled(stream, irs, Arrive(g, area, app))
    requires r.conn.state.Established?
    ensures Inv(stream, irs, Next(r, Arrive(g, area, app)))
  {
    var c := r.conn;
    if g.ctl.rst || OutOfSequence(c, g) {
      assert r.given + [] == r.given;
      return;
    }
    var acked, n := Acks(c, g), g.DataLen();
    var c1 := if acked then Acked(c) else c;
    AckedEffect(c);
    if n > 0 || g.ctl.syn || g.ctl.fin {
      InPlace(stream, irs, |r.given|, g);
      Extends(stream, irs, r.given, g);
    }
    UpStep(stream, irs, r, c1, acked, g, area, app);
  }

  lemma UpStep(stream: Bytes, irs: Bytes4, r: Receiver, c: Conn, acked: bool, g: Segment, area: Area, app: App)
    requires r.given <= stream && |stream| + 2 < TWO32 && g.Fits() && area[..|g.rest|] == g.rest
    requires c.state.Established? && c.rcvNxt == Plus(irs, 1 + |r.given|)
    requires g.DataLen() > 0 || g.ctl.fin ==>
               g.DataLen() == |g.rest| && DataAt(stream, irs, g, |r.given|)
               && r.given + g.rest == stream[..|r.given| + |g.rest|]
    ensures var s := OnEstablished(c, acked, g, area, app);
            Inv(stream, irs, Receiver(s.conn, r.given + Given(s)))
  {
    var n := g.DataLen();
    assert r.given + [] == r.given;
    if g.ctl.fin && !c.stopped {
      if c.len == 0 {
        FinInv(stream, irs, r.given, c, acked, n, area);
      }
    } else {
      var news := n > 0 && !c.stopped;
      if news {
        PlusPlus(irs, 1 + |r.given|, n);
      }
      var c1 := c.(mss := Window(c, g), rcvNxt := if news then Plus(c.rcvNxt, n) else c.rcvNxt);
      CallInv(stream, irs, r.given, c1, QUIET.(ackdata := acked, newdata := news), n, area, app);
    }
  }

  lemma ArriveWhenOpening(stream: Bytes, irs: Bytes4, r: Receiver, g: Segment, area: Area, app: App)
    requires Inv(stream, irs, r) && |stream| + 2 < TWO32 && Enabled(stream, irs, Arrive(g, area, app))
    requires SynState(r.conn.state)
    ensures Inv(stream, irs, Next(r, Arrive(g, area, app)))
  {
    var c := r.conn;
    assert r.given + [] == r.given;
    if g.ctl.rst || OutOfSequence(c, g) {
      return;
    }
    var acked := Acks(c, g);
    var c1 := if acked then Acked(c) else c;
    AckedEffect(c);
    if c.state.SynRcvd? {
      if acked {
        PassiveUp(stream, irs, r, c1, g, area, app);
      }
    } else if acked && g.ctl == SYN_ACK {
      ActiveUp(stream, irs, r, c1, g, area, app);
    }
  }

  lemma PassiveUp(stream: Bytes, irs: Bytes4, r: Receiver, c: Conn, g: Segment, area: Area, app: App)
    requires Enabled(stream, irs, Arrive(g, area, app)) && |stream| + 2 < TWO32 && r.given <= stream
    requires c.state.SynRcvd? && c.rcvNxt == Plus(irs, 1 + |r.given|) && !OutOfSequence(c, g)
    ensures var s := InSequence(c, true, g, area, app);
            Inv(stream, irs, Receiver(s.conn, r.given + Given(s)))
  {
    var n := g.DataLen();
    assert r.given + [] == r.given;
    if n > 0 || g.ctl.syn || g.ctl.fin {
      InPlace(stream, irs, |r.given|, g);
      Extends(stream, irs, r.given, g);
    }
    PlusPlus(irs, 1 + |r.given|, n);
    var c1 := c.(state := Established, stopped := false, len := 0, rcvNxt := Plus(c.rcvNxt, n));
    assert r.given + NewBytes(QUIET.(connected := true, newdata := n > 0), n, area) <= stream;
    CallInv(stream, irs, r.given, c1, QUIET.(connected := true, newdata := n > 0), n, area, app);
  }

  lemma ActiveUp(stream: Bytes, irs: Bytes4, r: Receiver, c: Conn, g: Segment, area: Area, app: App)
    requires FromPeer(stream, irs, g) && r.given == []
    requires c.state.SynSent? && g.ctl == SYN_ACK
    ensures var s := InSequence(c, true, g, area, app);
            Inv(stream, irs, Receiver(s.conn, r.given + Given(s)))
  {
    var mss := if g.Mss().Some? then g.Mss().value else c.mss;
    var initial := if g.Mss().Some? then g.Mss().value else c.initialMss;
    var c1 := c.(state := Established, stopped := false, mss := mss, initialMss := initial,
                 rcvNxt := Plus(g.seqno, 1), len := 0);
    CallInv(stream, irs, [], c1, QUIET.(connected := true, newdata := true), 0, area, app);
  }

  /** In the closing states nothing more is given to the application. */
  lemma ArriveWhenClosing(stream: Bytes, irs: Bytes4, r: Receiver, g: Segment, area: Area, app: App)
    requires Inv(stream, irs, r) && !SynState(r.conn.state) && !r.conn.state.Established?
    ensures Inv(stream, irs, Next(r, Arrive(g, area, app)))
  {
    assert r.given + [] == r.given;
    AckedEffect(r.conn);
    var c := if Acks(r.conn, g) then Acked(r.conn) else r.conn;
    ClosingStep(c, Acks(r.conn, g), g, area, app);
  }

  /** The step gives nothing to the application, and the connection does not open again. */
  predicate Silent(c: Conn, s: Step) {
    && Given(s) == [] && !SynState(s.conn.state) && !s.conn.state.Established?
    && (s.conn.state.LastAck? ==> s.conn == c)
  }

  lemma ClosingStep(c: Conn, acked: bool, g: Segment, area: Area, app: App)
    requires !SynState(c.state) && !c.state.Established?
    ensures Silent(c, InSequence(c, acked, g, area, app))
  {
    if c.state.FinWait1? || c.state.FinWait2? {
      FinWaitStep(c, acked, g, area, app);
    } else {
      LastStep(c, acked, g, area, app);
    }
  }

  lemma FinWaitStep(c: Conn, acked: bool, g: Segment, area: Area, app: App)
    requires c.state.FinWait1? || c.state.FinWait2?
    ensures Silent(c, InSequence(c, acked, g, area, app))
  {}

  lemma LastStep(c: Conn, acked: bool, g: Segment, area: Area, app: App)
    requires c.state.LastAck? || c.state.Closing? || c.state.TimeWait? || c.state.Closed?
    ensures Silent(c, InSequence(c, acked, g, area, app))
  {}

  lemma TimerInv(stream: Bytes, irs: Bytes4, r: Receiver, area: Area, app: App)
    requires Inv(stream, irs, r)
    ensures Inv(stream, irs, Next(r, Event.Tick(area, app)))
  {
    assert r.given + [] == r.given;
    if r.conn.state.Established? && r.conn.len == 0 {
      CallInv(stream, irs, r.given, r.conn, QUIET.(poll := true), 0, area, app);
    } else {
      TimerStep(r.conn, area, app);
    }
  }

  /** A tick that is no poll: the connection stays as it is for the receiver, or closes. */
  lemma TimerStep(c: Conn, area: Area, app: App)
    requires !(c.state.Established? && c.len == 0)
    ensures var s := Timer(c, area, app);
            Given(s) == [] && s.conn.rcvNxt == c.rcvNxt && (s.conn.state == c.state || s.conn.state.Closed?)
  {}

  lemma PollInv(stream: Bytes, irs: Bytes4, r: Receiver, uipLen: U16, stale: U16, area: Area, app: App)
    requires Inv(stream, irs, r)
    ensures Inv(stream, irs, Next(r, PollRequest(uipLen, stale, area, app)))
  {
    assert r.given + [] == r.given;
  }

  lemma NextInv(stream: Bytes, irs: Bytes4, r: Receiver, e: Event)
    requires Inv(stream, irs, r) && |stream| + 2 < TWO32 && Enabled(stream, irs, e)
    ensures Inv(stream, irs, Next(r, e))
  {
    match e
    case Arrive(g, area, app) =>
      if r.conn.state.Established? {
        ArriveWhenUp(stream, irs, r, g, area, app);
      } else if SynState(r.conn.state) {
        ArriveWhenOpening(stream, irs, r, g, area, app);
      } else {
        ArriveWhenClosing(stream, irs, r, g, area, app);
      }
    case Tick(area, app) => TimerInv(stream, irs, r, area, app);
    case PollRequest(uipLen, stale, area, app) => PollInv(stream, irs, r, uipLen, stale, area, app);
  }

  function Run(r: Receiver, events: seq<Event>): Receiver {
    if events == [] then r else Next(Run(r, events[..|events| - 1]), events[|events| - 1])
  }

  /**
   For segments cut from one peer stream, arriving in any order with repeats, mixed with ticks
   and polls, under any application: as long as the connection is opening or established, the
   payloads flagged NEWDATA are together exactly the stream from irs + 1 up to rcv_nxt; when a
   FIN of the peer ends that they are all of it; and they are never anything but a prefix.
   */
  lemma {:induction false} ExactlyOnce(stream: Bytes, irs: Bytes4, r: Receiver, events: seq<Event>)
    requires Initial(irs, r) && |stream| + 2 < TWO32
    requires forall k :: 0 <= k < |events| ==> Enabled(stream, irs, events[k])
    ensures Inv(stream, irs, Run(r, events))
    decreases |events|
  {
    if events != [] {
      var n := |events| - 1;
      ExactlyOnce(stream, irs, r, events[..n]);
      NextInv(stream, irs, Run(r, events[..n]), events[n]);
    }
  }

  /** The next segment of the peer for c, with a header of 4 * offset bytes and n bytes of payload. */
  predicate IsNext(c: Conn, g: Segment, area: Area, offset: U8, n: nat) {
    && g.Fits() && g.offset == offset >= 5 && |g.rest| == 4 * (offset - 5) + n && area[..|g.rest|] == g.rest
    && !g.ctl.fin && !g.ctl.syn && !g.ctl.rst && !g.ctl.urg && g.seqno == c.rcvNxt
  }

  /** What the application is given of it starts where a 20-byte header would end. */
  lemma GivenIsHead(c: Conn, g: Segment, area: Area, app: App, offset: U8, n: nat)
    requires c.state.Established? && !c.stopped && IsNext(c, g, area, offset, n)
    ensures Given(Input(c, g, area, app)) == g.rest[..n]
  {
    var c1 := if Acks(c, g) then Acked(c) else c;
    AckedEffect(c);
    assert g.DataLen() == n;
    assert Input(c, g, area, app) == OnEstablished(c1, Acks(c, g), g, area, app);
    assert area[..n] == area[..|g.rest|][..n];
  }

  /**
   Why the header must be 20 bytes: uip_appdata always points just behind such a header, so of
   a packet with options the application is given the options first and loses as many bytes at
   the end. It is given the payload, whatever the bytes, exactly if there are no options or no
   payload.
   */
  lemma OptionsShiftPayload(c: Conn, offset: U8, n: nat, app: App)
    requires c.state.Established? && !c.stopped && 5 <= offset < 16 && 4 * (offset - 5) + n <= TCP_MSS
    ensures (forall g, area :: IsNext(c, g, area, offset, n) ==>
               Given(Input(c, g, area, app)) == g.rest[4 * (offset - 5)..])
            <==> offset == 5 || n == 0
  {
    var k := 4 * (offset - 5);
    forall g, area | IsNext(c, g, area, offset, n) ensures Given(Input(c, g, area, app)) == g.rest[..n] {
      GivenIsHead(c, g, area, app, offset, n);
    }
    if offset != 5 && n != 0 {
      var rest: Bytes := seq(k + n, i => if i < k then 1 else 0);
      var area: Area := rest + seq(TCP_MSS - k - n, _ => 0);
      var g := Segment(c.ripaddr, c.rport, c.lport, c.rcvNxt, c.sndNxt, offset, ACK, 0, rest, None);
      assert area[..|g.rest|] == g.rest && IsNext(c, g, area, offset, n);
      assert rest[..n][0] == 1 && rest[k..][0] == 0;
    } else if n != 0 {
      forall g, area | IsNext(c, g, area, offset, n) ensures g.rest[..n] == g.rest[k..] {}
    }
  }
}
