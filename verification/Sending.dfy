/**
 Reliable sending: an application that sends its messages with psock_send, the uIP
 connection under it, a network that loses, duplicates and reorders at will, and a
 cumulatively acknowledging receiver as section 3.9 of RFC 793 describes it.
 */
module Sending {
  import opened Words
  import opened Tcp
  import opened TcpInvariant
  import opened Psock

  // ----- The byte stream -----

  /** Where message k starts in the stream. */
  function Off(msgs: seq<Bytes>, k: nat): nat
    requires k <= |msgs|
  {
    |Concat(msgs[..k])|
  }

  lemma OffNext(msgs: seq<Bytes>, k: nat)
    requires k < |msgs|
    ensures Concat(msgs[..k + 1]) == Concat(msgs[..k]) + msgs[k]
    ensures Off(msgs, k + 1) == Off(msgs, k) + |msgs[k]|
  {
    assert msgs[..k + 1][..k] == msgs[..k];
  }

  /** Message k stands in the stream where Off says. */
  lemma {:induction false} MessageInStream(msgs: seq<Bytes>, k: nat)
    requires k < |msgs|
    ensures Off(msgs, k) + |msgs[k]| <= |Concat(msgs)|
    ensures Concat(msgs)[Off(msgs, k)..Off(msgs, k) + |msgs[k]|] == msgs[k]
    decreases |msgs|
  {
    var n := |msgs| - 1;
    if k < n {
      MessageInStream(msgs[..n], k);
      assert msgs[..n][..k] == msgs[..k];
    } else {
      assert msgs[..k] == msgs[..n];
    }
  }

  lemma {:induction false} OffMonotone(msgs: seq<Bytes>, j: nat, k: nat)
    requires j <= k <= |msgs|
    ensures Off(msgs, j) <= Off(msgs, k)
    decreases k - j
  {
    if j < k {
      OffNext(msgs, j);
      OffMonotone(msgs, j + 1, k);
    }
  }

  // ----- The application -----

  /** The handler calls PSOCK_SEND for one message after the other; `k` is the one it is at. */
  datatype Progress = Progress(k: nat, sender: Sender, data: Bytes)

  predicate Ready(msgs: seq<Bytes>, k: nat, s: Sender) {
    k <= |msgs| && (s.waiting ==> k < |msgs| && Within(s, msgs[k]))
  }

  function Script(msgs: seq<Bytes>, k: nat, s: Sender, call: AppCall): (p: Progress)
    requires Ready(msgs, k, s) && Bounded(call)
    ensures Ready(msgs, p.k, p.sender)
    decreases |msgs| - k
  {
    if k == |msgs| then Progress(k, s, [])
    else
      var r := Send(s, msgs[k], call);
      if r.pt.Waiting? then Progress(k, r.sender, r.data)
      else
        var p := Script(msgs, k + 1, r.sender, call);
        p.(data := if p.data == [] then r.data else p.data)
  }

  /** The application's answer to a callback. */
  function Answer(msgs: seq<Bytes>, k: nat, s: Sender, call: AppCall): AppReply {
    var data := if Ready(msgs, k, s) && Bounded(call) then Script(msgs, k, s, call).data else [];
    AppReply(call.sig, if |data| <= TCP_MSS then data else [], call.stopped)
  }

  /** All messages fit into segments of the size now allowed. */
  predicate Fit(msgs: seq<Bytes>, mss: U16) {
    0 < mss <= TCP_MSS && forall j :: 0 <= j < |msgs| ==> |msgs[j]| <= mss
  }

  /** psock_send waits for the acknowledgement of msg. */
  function Sent(msg: Bytes): Sender {
    Sender(DataSent, 0, |msg| % TWO16, true)
  }

  lemma SendFresh(s: Sender, msg: Bytes, call: AppCall)
    requires !s.waiting && msg != [] && |msg| <= call.mss
    ensures Send(s, msg, call) == SendResult(Sent(msg), Waiting, msg)
  {
    var s0 := Sender(NoState, 0, |msg|, false);
    assert SendTurn(s0, msg, call, []) == SendResult(Sent(msg), Waiting, msg);
  }

  lemma SendAgain(msg: Bytes, call: AppCall)
    requires msg != [] && |msg| <= call.mss && !call.sig.ackdata
    ensures Send(Sent(msg), msg, call) == SendResult(Sent(msg), Waiting, if call.sig.rexmit then msg else [])
  {
    assert SendTurn(Sent(msg), msg, call, [])
        == SendResult(Sent(msg), Waiting, if call.sig.rexmit then msg else []);
  }

  lemma SendOver(msg: Bytes, call: AppCall)
    requires msg != [] && |msg| <= call.mss && call.sig.ackdata
    ensures Send(Sent(msg), msg, call) == SendResult(Sender(NoState, |msg|, 0, false), Ended, [])
  {
    var s1 := Sender(DataSent, |msg|, 0, true);
    assert SendTurn(Sent(msg), msg, call, []) == SendResult(s1, Ended, []);
    assert SendLoop(s1, msg, call, []) == SendResult(Sender(NoState, |msg|, 0, false), Ended, []);
  }

  /** From no message pending: the next nonempty message is sent, or there is none left. */
  lemma {:induction false} ScriptFromIdle(msgs: seq<Bytes>, k: nat, s: Sender, call: AppCall)
    requires k <= |msgs| && !s.waiting && Fit(msgs, call.mss)
    ensures var p := Script(msgs, k, s, call);
            && k <= p.k <= |msgs| && Off(msgs, p.k) == Off(msgs, k)
            && (p.k < |msgs| ==> p.sender == Sent(msgs[p.k]) && p.data == msgs[p.k] != [])
            && (p.k == |msgs| ==> !p.sender.waiting && p.data == [])
    decreases |msgs| - k
  {
    if k < |msgs| {
      if msgs[k] == [] {
        OffNext(msgs, k);
        ScriptFromIdle(msgs, k + 1, s, call);
      } else {
        SendFresh(s, msgs[k], call);
      }
    }
  }

  // ----- The system -----

  /**
   The connection and the application; everything it ever sent (`net`) and every acknowledgement
   number the receiver ever sent (`acks`), any of which may arrive any number of times or never;
   and the bytes the receiver has accepted.
   */
  datatype System = System(conn: Conn, sender: Sender, k: nat, net: set<Frame>, acks: set<Bytes4>, accepted: Bytes)

  datatype Action =
    | Arrive(g: Segment, area: Area)
    | Tick(area: Area)
    | PollRequest(uipLen: U16, stale: U16, area: Area)
    | Deliver(f: Frame, offset: nat, n: nat)
    | Acknowledge

  /** The first sequence number of the stream is `base`, so the receiver's rcv_nxt is: */
  function RcvNxt(base: Bytes4, s: System): Bytes4 {
    Plus(base, |s.accepted|)
  }

  /**
   A poll request leaves uip_slen as it was (`stale`), and if the application then sends nothing
   that many bytes go out all the same. It does no harm if there was nothing in uip_slen, if the
   connection is not polled at all, or if the application has something left to send.
   */
  predicate Harmless(msgs: seq<Bytes>, s: System, stale: U16) {
    stale == 0 || !s.conn.state.Established? || s.conn.len != 0 || (s.k <= |msgs| && Off(msgs, s.k) < |Concat(msgs)|)
  }

  /**
   Any segment may arrive, a FIN too, as long as it acknowledges only what the receiver has
   acknowledged at some time. The receiver may take any part of a frame that starts at its
   rcv_nxt, and may acknowledge at any time.
   */
  predicate Enabled(msgs: seq<Bytes>, base: Bytes4, s: System, a: Action) {
    match a
    case Arrive(g, _) => g.ctl.ack ==> g.ackno in s.acks
    case Tick(_) => true
    case PollRequest(_, stale, _) => Harmless(msgs, s, stale)
    case Deliver(f, offset, n) =>
      f in s.net && offset + n <= |f.data| && n > 0 && Plus(f.seqno, offset) == RcvNxt(base, s)
    case Acknowledge => true
  }

  function AfterStep(msgs: seq<Bytes>, s: System, t: Step): System {
    var s1 := s.(conn := t.conn, net := s.net + (if t.frame.Some? then {t.frame.value} else {}));
    if t.call.Some? && Ready(msgs, s.k, s.sender) && Bounded(t.call.value) then
      var p := Script(msgs, s.k, s.sender, t.call.value);
      s1.(k := p.k, sender := p.sender)
    else s1
  }

  function AppOf(msgs: seq<Bytes>, s: System): App {
    call => Answer(msgs, s.k, s.sender, call)
  }

  function Next(msgs: seq<Bytes>, base: Bytes4, s: System, a: Action): System
    requires Enabled(msgs, base, s, a)
  {
    match a
    case Arrive(g, area) => AfterStep(msgs, s, Input(s.conn, g, area, AppOf(msgs, s)))
    case Tick(area) => AfterStep(msgs, s, Timer(s.conn, area, AppOf(msgs, s)))
    case PollRequest(uipLen, stale, area) => AfterStep(msgs, s, Poll(s.conn, uipLen, stale, area, AppOf(msgs, s)))
    case Deliver(f, offset, n) => s.(accepted := s.accepted + f.data[offset..offset + n])
    case Acknowledge => s.(acks := s.acks + {RcvNxt(base, s)})
  }

  // ----- The invariant -----

  /** Message j has been handed to the network. */
  predicate Emitted(j: nat, k: nat, waiting: bool) {
    j < k || (j == k && waiting)
  }

  /** The connection, the protosocket and the script agree on what is outstanding. */
  predicate SenderInv(msgs: seq<Bytes>, base: Bytes4, c: Conn, s: Sender, k: nat) {
    && k <= |msgs| && (c.state.Established? || c.state.LastAck? || c.state.Closed?) && !c.stopped
    && (s.waiting ==> k < |msgs| && msgs[k] != [] && s == Sent(msgs[k]))
    && (c.state.Established? ==>
          c.sndNxt == Plus(base, Off(msgs, k)) && c.len == (if s.waiting then |msgs[k]| else 0))
  }

  predicate FrameInv(msgs: seq<Bytes>, base: Bytes4, k: nat, waiting: bool, f: Frame) {
    f.data != [] ==>
      exists j :: 0 <= j < |msgs| && Emitted(j, k, waiting) && f.seqno == Plus(base, Off(msgs, j)) && f.data == msgs[j]
  }

  predicate AckInv(base: Bytes4, n: nat, a: Bytes4) {
    exists x :: 0 <= x <= n && a == Plus(base, x)
  }

  predicate ReceiverInv(msgs: seq<Bytes>, s: System)
    requires s.k <= |msgs| && (s.sender.waiting ==> s.k < |msgs|)
  {
    && Off(msgs, s.k) <= |s.accepted| <= Off(msgs, s.k) + (if s.sender.waiting then |msgs[s.k]| else 0)
    && s.accepted <= Concat(msgs)
  }

  predicate Inv(msgs: seq<Bytes>, base: Bytes4, s: System) {
    && SenderInv(msgs, base, s.conn, s.sender, s.k)
    && ReceiverInv(msgs, s)
    && (forall f :: f in s.net ==> FrameInv(msgs, base, s.k, s.sender.waiting, f))
    && (forall a :: a in s.acks ==> AckInv(base, |s.accepted|, a))
  }

  /** The connection has just come up and nothing has been sent. */
  predicate Initial(base: Bytes4, s: System) {
    && s.conn.state.Established? && !s.conn.stopped && s.conn.len == 0 && s.conn.sndNxt == base
    && !s.sender.waiting && s.k == 0 && s.net == {} && s.acks == {} && s.accepted == []
  }

  lemma InitialInv(msgs: seq<Bytes>, base: Bytes4, s: System)
    requires Initial(base, s)
    ensures Inv(msgs, base, s)
  {
    PlusZero(base);
  }

  // ----- What a callback leads to -----

  lemma AppSendBytes(c: Conn, stale: U16, r: AppReply, area: Area)
    requires !r.sig.abort && !r.sig.close && r.data != [] && |r.data| <= c.mss
    requires r.sig.ackdata || c.len == 0
    ensures var c1 := c.(len := |r.data|, nrtx := 0, stopped := r.stopped);
            AppSend(c, stale, r, area) == (c1, Some(Packet(c1, PSH_ACK, false, r.data)))
  {}

  lemma AppSendNothing(c: Conn, r: AppReply, area: Area)
    requires !r.sig.abort && !r.sig.close && r.data == []
    ensures var c1 := c.(nrtx := 0, stopped := r.stopped);
            AppSend(c, 0, r, area) == (c1, if r.sig.newdata then Bare(c1, ACK) else None)
  {}

  /** The new sender state and the frame fit the connection the callback leaves. */
  predicate GoodStep(msgs: seq<Bytes>, base: Bytes4, s: System, t: Step) {
    var s1 := AfterStep(msgs, s, t);
    && SenderInv(msgs, base, s1.conn, s1.sender, s1.k)
    && s.k <= s1.k
    && (t.frame.Some? ==> FrameInv(msgs, base, s1.k, s1.sender.waiting, t.frame.value))
  }

  predicate Plain(sig: Signal) {
    !sig.abort && !sig.close && !sig.rexmit && !sig.timedout
  }

  /** A callback with no message pending: the next message, if any, goes out at once. */
  lemma CallWhenIdle(msgs: seq<Bytes>, base: Bytes4, s: System, c: Conn, sig: Signal, n: U16, stale: U16, area: Area)
    requires s.k <= |msgs| && !s.sender.waiting && Fit(msgs, c.mss) && Plain(sig)
    requires SenderInv(msgs, base, c, s.sender, s.k) && c.state.Established?
    requires stale == 0 || Off(msgs, s.k) < |Concat(msgs)|
    ensures GoodStep(msgs, base, s, CallAndSend(c, sig, n, stale, area, AppOf(msgs, s)))
    ensures var s1 := AfterStep(msgs, s, CallAndSend(c, sig, n, stale, area, AppOf(msgs, s)));
            Off(msgs, s1.k) == Off(msgs, s.k)
  {
    var call := CallFor(c, sig, n, area);
    ScriptFromIdle(msgs, s.k, s.sender, call);
    var p := Script(msgs, s.k, s.sender, call);
    var r := Answer(msgs, s.k, s.sender, call);
    assert r == AppReply(sig, p.data, false);
    if p.k < |msgs| {
      AppSendBytes(c, stale, r, area);
    } else {
      assert msgs[..|msgs|] == msgs;
      AppSendNothing(c, r, area);
    }
  }

  /** With message k acknowledged psock_send ends, and the next one that is not empty begins. */
  lemma ScriptWhenAcked(msgs: seq<Bytes>, s: System, call: AppCall)
    requires s.k < |msgs| && msgs[s.k] != [] && s.sender == Sent(msgs[s.k])
    requires Fit(msgs, call.mss) && call.sig.ackdata
    ensures var p := Script(msgs, s.k, s.sender, call);
            && s.k < p.k <= |msgs| && Off(msgs, p.k) == Off(msgs, s.k + 1)
            && (p.k < |msgs| ==> p.sender == Sent(msgs[p.k]) && p.data == msgs[p.k] != [])
            && (p.k == |msgs| ==> !p.sender.waiting && p.data == [])
  {
    var idle := Sender(NoState, |msgs[s.k]|, 0, false);
    SendOver(msgs[s.k], call);
    ScriptFromIdle(msgs, s.k + 1, idle, call);
    ScriptGoesOn(msgs, s.k, s.sender, idle, call);
  }

  lemma ScriptGoesOn(msgs: seq<Bytes>, k: nat, s: Sender, idle: Sender, call: AppCall)
    requires k < |msgs| && Ready(msgs, k, s) && !idle.waiting && call.mss > 0
    requires Send(s, msgs[k], call) == SendResult(idle, Ended, [])
    ensures Script(msgs, k, s, call) == Script(msgs, k + 1, idle, call)
  {}

  /** The callback that brings the acknowledgement of message k: psock_send ends, the next begins. */
  lemma CallWhenAcked(msgs: seq<Bytes>, base: Bytes4, s: System, c: Conn, sig: Signal, n: U16, area: Area)
    requires s.k < |msgs| && msgs[s.k] != [] && s.sender == Sent(msgs[s.k])
    requires Fit(msgs, c.mss) && Plain(sig) && sig.ackdata
    requires c.state.Established? && !c.stopped && c.len == 0 && c.sndNxt == Plus(base, Off(msgs, s.k + 1))
    ensures GoodStep(msgs, base, s, CallAndSend(c, sig, n, 0, area, AppOf(msgs, s)))
    ensures var s1 := AfterStep(msgs, s, CallAndSend(c, sig, n, 0, area, AppOf(msgs, s)));
            s.k < s1.k && Off(msgs, s1.k) == Off(msgs, s.k + 1)
  {
    var call := CallFor(c, sig, n, area);
    ScriptWhenAcked(msgs, s, call);
    var p := Script(msgs, s.k, s.sender, call);
    var r := Answer(msgs, s.k, s.sender, call);
    assert r == AppReply(sig, p.data, false);
    if p.k < |msgs| {
      AppSendBytes(c, 0, r, area);
    } else {
      AppSendNothing(c, r, area);
    }
  }

  /** Any other callback while message k is pending changes nothing; a retransmission repeats it. */
  lemma ScriptWhenWaiting(msgs: seq<Bytes>, s: System, call: AppCall)
    requires s.k < |msgs| && msgs[s.k] != [] && s.sender == Sent(msgs[s.k])
    requires Fit(msgs, call.mss) && !call.sig.ackdata
    ensures Script(msgs, s.k, s.sender, call)
            == Progress(s.k, s.sender, if call.sig.rexmit then msgs[s.k] else [])
  {
    SendAgain(msgs[s.k], call);
  }

  lemma CallWhenWaiting(msgs: seq<Bytes>, base: Bytes4, s: System, c: Conn, sig: Signal, n: U16, area: Area)
    requires s.sender.waiting && SenderInv(msgs, base, c, s.sender, s.k)
    requires Fit(msgs, c.mss) && Plain(sig) && !sig.ackdata
    ensures GoodStep(msgs, base, s, CallAndSend(c, sig, n, 0, area, AppOf(msgs, s)))
    ensures AfterStep(msgs, s, CallAndSend(c, sig, n, 0, area, AppOf(msgs, s))).k == s.k
    ensures AfterStep(msgs, s, CallAndSend(c, sig, n, 0, area, AppOf(msgs, s))).sender == s.sender
  {
    var call := CallFor(c, sig, n, area);
    ScriptWhenWaiting(msgs, s, call);
    AppSendNothing(c, Answer(msgs, s.k, s.sender, call), area);
  }

  // ----- Every action keeps the invariant -----

  /** An acknowledgement of the outstanding bytes proves that the receiver has them all. */
  lemma AckMeansAccepted(msgs: seq<Bytes>, base: Bytes4, s: System, g: Segment)
    requires Inv(msgs, base, s) && |Concat(msgs)| < TWO32
    requires Acks(s.conn, g) && g.ackno in s.acks && s.conn.state.Established?
    ensures s.sender.waiting && |s.accepted| == Off(msgs, s.k + 1)
  {
    OffNext(msgs, s.k);
    MessageInStream(msgs, s.k);
    assert AckInv(base, |s.accepted|, g.ackno);
    var x :| 0 <= x <= |s.accepted| && g.ackno == Plus(base, x);
    SameOffset(base, Off(msgs, s.k), s.conn.len, x);
  }

  /** GoodStep, with the receiver not overtaken by the sender. */
  predicate KeepsPace(msgs: seq<Bytes>, base: Bytes4, s: System, t: Step) {
    && GoodStep(msgs, base, s, t)
    && var s1 := AfterStep(msgs, s, t);
       if s1.k == s.k then (s.sender.waiting ==> s1.sender.waiting)
       else Off(msgs, s1.k) == |s.accepted|
  }

  lemma ArriveStep(msgs: seq<Bytes>, base: Bytes4, s: System, g: Segment, area: Area)
    requires Inv(msgs, base, s) && |Concat(msgs)| < TWO32 && Enabled(msgs, base, s, Arrive(g, area))
    requires Fit(msgs, s.conn.mss) && Fit(msgs, Input(s.conn, g, area, AppOf(msgs, s)).conn.mss)
    ensures KeepsPace(msgs, base, s, Input(s.conn, g, area, AppOf(msgs, s)))
  {
    if !g.ctl.rst && !OutOfSequence(s.conn, g) {
      if !s.conn.state.Established? {
        ArriveWhenDown(msgs, base, s, g, area);
      } else if g.ctl.fin {
        FinStep(msgs, base, s, g, area);
      } else {
        ArriveWhenUp(msgs, base, s, g, area);
      }
    }
  }

  lemma ArriveWhenUp(msgs: seq<Bytes>, base: Bytes4, s: System, g: Segment, area: Area)
    requires Inv(msgs, base, s) && |Concat(msgs)| < TWO32 && Enabled(msgs, base, s, Arrive(g, area))
    requires s.conn.state.Established? && !g.ctl.fin && !g.ctl.rst && !OutOfSequence(s.conn, g)
    requires Fit(msgs, Input(s.conn, g, area, AppOf(msgs, s)).conn.mss)
    ensures KeepsPace(msgs, base, s, Input(s.conn, g, area, AppOf(msgs, s)))
  {
    var c := s.conn;
    HeardMss(c, g, area, AppOf(msgs, s));
    if Acks(c, g) {
      AckStep(msgs, base, s, g, area);
    } else {
      var n := g.DataLen();
      var c1 := Heard(c, g);
      var sig := QUIET.(newdata := n > 0);
      InputWhenUp(c, g, area, AppOf(msgs, s));
      if n > 0 && s.sender.waiting {
        CallWhenWaiting(msgs, base, s, c1, sig, n, area);
      } else if n > 0 {
        CallWhenIdle(msgs, base, s, c1, sig, n, 0, area);
      }
    }
  }

  /** A callback of a connection on its way down: whatever the script offers then goes nowhere. */
  lemma LastCall(msgs: seq<Bytes>, base: Bytes4, s: System, t: Step)
    requires Inv(msgs, base, s) && (t.conn.state.LastAck? || t.conn.state.Closed?) && !t.conn.stopped
    requires (t.frame.Some? ==> t.frame.value.data == []) && t.call.Some? && Fit(msgs, t.call.value.mss)
    requires s.sender.waiting && t.call.value.sig.ackdata ==> |s.accepted| == Off(msgs, s.k + 1)
    ensures KeepsPace(msgs, base, s, t)
    ensures s.sender.waiting && t.call.value.sig.ackdata ==> AfterStep(msgs, s, t).k > s.k
  {
    var call := t.call.value;
    if !s.sender.waiting {
      ScriptFromIdle(msgs, s.k, s.sender, call);
    } else if !call.sig.ackdata {
      ScriptWhenWaiting(msgs, s, call);
    } else {
      ScriptWhenAcked(msgs, s, call);
    }
  }

  /** The peer's FIN is ignored while something is outstanding, and otherwise closes the connection. */
  lemma FinStep(msgs: seq<Bytes>, base: Bytes4, s: System, g: Segment, area: Area)
    requires Inv(msgs, base, s) && |Concat(msgs)| < TWO32 && Enabled(msgs, base, s, Arrive(g, area))
    requires s.conn.state.Established? && g.ctl.fin && !g.ctl.rst && !OutOfSequence(s.conn, g) && Fit(msgs, s.conn.mss)
    ensures KeepsPace(msgs, base, s, Input(s.conn, g, area, AppOf(msgs, s)))
    ensures Acks(s.conn, g) ==> AfterStep(msgs, s, Input(s.conn, g, area, AppOf(msgs, s))).k > s.k
  {
    var c, acked := s.conn, Acks(s.conn, g);
    AckedEffect(c);
    if acked {
      AckMeansAccepted(msgs, base, s, g);
    }
    if acked || c.len == 0 {
      LastCall(msgs, base, s, Input(c, g, area, AppOf(msgs, s)));
    }
  }

  lemma ArriveWhenDown(msgs: seq<Bytes>, base: Bytes4, s: System, g: Segment, area: Area)
    requires Inv(msgs, base, s) && !s.conn.state.Established? && Fit(msgs, s.conn.mss)
    requires !g.ctl.rst && !OutOfSequence(s.conn, g)
    ensures KeepsPace(msgs, base, s, Input(s.conn, g, area, AppOf(msgs, s)))
  {
    AckedEffect(s.conn);
    if s.conn.state.LastAck? && Acks(s.conn, g) {
      LastCall(msgs, base, s, Input(s.conn, g, area, AppOf(msgs, s)));
    }
  }

  lemma AckStep(msgs: seq<Bytes>, base: Bytes4, s: System, g: Segment, area: Area)
    requires Inv(msgs, base, s) && |Concat(msgs)| < TWO32 && Enabled(msgs, base, s, Arrive(g, area))
    requires s.conn.state.Established? && !g.ctl.fin && !g.ctl.rst && !OutOfSequence(s.conn, g) && Acks(s.conn, g)
    requires Fit(msgs, Heard(s.conn, g).mss)
    ensures KeepsPace(msgs, base, s, Input(s.conn, g, area, AppOf(msgs, s)))
    ensures AfterStep(msgs, s, Input(s.conn, g, area, AppOf(msgs, s))).k > s.k
  {
    var c, n := s.conn, g.DataLen();
    InputWhenUp(c, g, area, AppOf(msgs, s));
    AckMeansAccepted(msgs, base, s, g);
    AckedNumber(msgs, base, s.k);
    CallWhenAcked(msgs, base, s, Heard(c, g), QUIET.(ackdata := true, newdata := n > 0), n, area);
  }

  lemma AckedNumber(msgs: seq<Bytes>, base: Bytes4, k: nat)
    requires k < |msgs|
    ensures Plus(Plus(base, Off(msgs, k)), |msgs[k]|) == Plus(base, Off(msgs, k + 1))
  {
    OffNext(msgs, k);
    PlusPlus(base, Off(msgs, k), |msgs[k]|);
  }

  /** The connection once an in-sequence segment without FIN has been looked at. */
  function Heard(c: Conn, g: Segment): Conn {
    var c1 := if Acks(c, g) then Tcp.Acked(c) else c;
    c1.(mss := Window(c1, g), rcvNxt := if g.DataLen() > 0 then Plus(c1.rcvNxt, g.DataLen()) else c1.rcvNxt)
  }

  lemma InputWhenUp(c: Conn, g: Segment, area: Area, app: App)
    requires c.state.Established? && !c.stopped && !g.ctl.fin && !g.ctl.rst && !OutOfSequence(c, g)
    ensures var c1 := Heard(c, g);
            && c1.state.Established? && !c1.stopped
            && c1.len == (if Acks(c, g) then 0 else c.len)
            && c1.sndNxt == (if Acks(c, g) then Plus(c.sndNxt, c.len) else c.sndNxt)
            && Input(c, g, area, app) ==
               if Acks(c, g) || g.DataLen() > 0 then
                 CallAndSend(c1, QUIET.(ackdata := Acks(c, g), newdata := g.DataLen() > 0), g.DataLen(), 0, area, app)
               else Drop(c1)
  {
    AckedEffect(c);
  }

  lemma HeardMss(c: Conn, g: Segment, area: Area, app: App)
    requires c.state.Established? && !c.stopped && !g.ctl.fin && !g.ctl.rst && !OutOfSequence(c, g)
    ensures Input(c, g, area, app).conn.mss == Heard(c, g).mss
  {
    InputWhenUp(c, g, area, app);
    CallKeepsMss(Heard(c, g), QUIET.(ackdata := Acks(c, g), newdata := g.DataLen() > 0), g.DataLen(), area, app);
  }

  lemma CallKeepsMss(c: Conn, sig: Signal, n: U16, area: Area, app: App)
    ensures CallAndSend(c, sig, n, 0, area, app).conn.mss == c.mss
  {}

  lemma TickStep(msgs: seq<Bytes>, base: Bytes4, s: System, area: Area)
    requires Inv(msgs, base, s) && Fit(msgs, s.conn.mss)
    ensures KeepsPace(msgs, base, s, Timer(s.conn, area, AppOf(msgs, s)))
  {
    var c := s.conn;
    if c.state.Established? && c.len == 0 {
      CallWhenIdle(msgs, base, s, c, QUIET.(poll := true), 0, 0, area);
    } else if !c.state.Closed? && c.len != 0 && c.timer == 0 {
      ExpiryStep(msgs, base, s, area);
    }
  }

  lemma ExpiryStep(msgs: seq<Bytes>, base: Bytes4, s: System, area: Area)
    requires Inv(msgs, base, s) && Fit(msgs, s.conn.mss)
    requires !s.conn.state.Closed? && s.conn.len != 0
    ensures KeepsPace(msgs, base, s, Expired(s.conn, area, AppOf(msgs, s)))
  {
    var c := s.conn;
    if GivesUp(c) {
      LastCall(msgs, base, s, Expired(c, area, AppOf(msgs, s)));
    } else if c.state.Established? {
      RexmitStep(msgs, base, s, area);
    }
  }

  /** The outstanding message goes out again under its own number. */
  lemma RexmitStep(msgs: seq<Bytes>, base: Bytes4, s: System, area: Area)
    requires Inv(msgs, base, s) && Fit(msgs, s.conn.mss)
    requires s.conn.state.Established? && s.conn.len != 0 && !GivesUp(s.conn)
    ensures KeepsPace(msgs, base, s, Expired(s.conn, area, AppOf(msgs, s)))
  {
    var call := RexmitIs(msgs, base, s, area);
    ScriptWhenWaiting(msgs, s, call);
  }

  lemma RexmitIs(msgs: seq<Bytes>, base: Bytes4, s: System, area: Area) returns (call: AppCall)
    requires SenderInv(msgs, base, s.conn, s.sender, s.k) && Fit(msgs, s.conn.mss)
    requires s.conn.state.Established? && s.conn.len != 0 && !GivesUp(s.conn)
    ensures call.sig == QUIET.(rexmit := true) && call.mss == s.conn.mss
    ensures var c1 := s.conn.(timer := Backoff(s.conn.nrtx), nrtx := (s.conn.nrtx + 1) % 0x100);
            s.k < |msgs| &&
            Expired(s.conn, area, AppOf(msgs, s)) == Step(c1, Some(call), Some(Packet(c1, PSH_ACK, false, msgs[s.k])))
  {
    var c1 := s.conn.(timer := Backoff(s.conn.nrtx), nrtx := (s.conn.nrtx + 1) % 0x100);
    call := CallFor(c1, QUIET.(rexmit := true), 0, area);
    ScriptWhenWaiting(msgs, s, call);
    var r := AppReply(call.sig, msgs[s.k], false);
    assert Answer(msgs, s.k, s.sender, call) == r;
    assert Overlay(area, r.data)[..c1.len] == msgs[s.k];
  }

  lemma PollStep(msgs: seq<Bytes>, base: Bytes4, s: System, uipLen: U16, stale: U16, area: Area)
    requires Inv(msgs, base, s) && Fit(msgs, s.conn.mss) && Harmless(msgs, s, stale)
    ensures KeepsPace(msgs, base, s, Poll(s.conn, uipLen, stale, area, AppOf(msgs, s)))
  {
    if s.conn.state.Established? && s.conn.len == 0 {
      CallWhenIdle(msgs, base, s, s.conn, QUIET.(poll := true), uipLen, stale, area);
    }
  }

  lemma PaceKeepsInv(msgs: seq<Bytes>, base: Bytes4, s: System, t: Step)
    requires Inv(msgs, base, s) && KeepsPace(msgs, base, s, t)
    ensures Inv(msgs, base, AfterStep(msgs, s, t))
  {
    var s1 := AfterStep(msgs, s, t);
    forall f | f in s1.net ensures FrameInv(msgs, base, s1.k, s1.sender.waiting, f) {
      if f in s.net && f.data != [] {
        assert FrameInv(msgs, base, s.k, s.sender.waiting, f);
        var j :| 0 <= j < |msgs| && Emitted(j, s.k, s.sender.waiting)
                 && f.seqno == Plus(base, Off(msgs, j)) && f.data == msgs[j];
        assert Emitted(j, s1.k, s1.sender.waiting);
      }
    }
  }

  /** Whatever the receiver takes from a frame continues the stream. */
  lemma DeliverKeepsInv(msgs: seq<Bytes>, base: Bytes4, s: System, f: Frame, offset: nat, n: nat)
    requires Inv(msgs, base, s) && |Concat(msgs)| < TWO32 && Enabled(msgs, base, s, Deliver(f, offset, n))
    ensures Inv(msgs, base, Next(msgs, base, s, Deliver(f, offset, n)))
  {
    DeliverExtends(msgs, base, s, f, offset, n);
    var s1 := Next(msgs, base, s, Deliver(f, offset, n));
    forall a | a in s1.acks ensures AckInv(base, |s1.accepted|, a) {
      assert AckInv(base, |s.accepted|, a);
      var x :| 0 <= x <= |s.accepted| && a == Plus(base, x);
      assert x <= |s1.accepted|;
    }
  }

  lemma DeliverExtends(msgs: seq<Bytes>, base: Bytes4, s: System, f: Frame, offset: nat, n: nat)
    requires SenderInv(msgs, base, s.conn, s.sender, s.k) && ReceiverInv(msgs, s) && |Concat(msgs)| < TWO32
    requires FrameInv(msgs, base, s.k, s.sender.waiting, f) && Enabled(msgs, base, s, Deliver(f, offset, n))
    ensures ReceiverInv(msgs, s.(accepted := s.accepted + f.data[offset..offset + n]))
  {
    var j :| 0 <= j < |msgs| && Emitted(j, s.k, s.sender.waiting)
             && f.seqno == Plus(base, Off(msgs, j)) && f.data == msgs[j];
    MessageInStream(msgs, j);
    SameOffset(base, Off(msgs, j), offset, |s.accepted|);
    PartExtends(msgs, s, j, offset, n);
  }

  lemma PartExtends(msgs: seq<Bytes>, s: System, j: nat, offset: nat, n: nat)
    requires s.k <= |msgs| && (s.sender.waiting ==> s.k < |msgs|) && ReceiverInv(msgs, s)
    requires j < |msgs| && Emitted(j, s.k, s.sender.waiting)
    requires |s.accepted| == Off(msgs, j) + offset && 0 < n && offset + n <= |msgs[j]|
    ensures ReceiverInv(msgs, s.(accepted := s.accepted + msgs[j][offset..offset + n]))
  {
    MessageInStream(msgs, j);
    Continues(Concat(msgs), s.accepted, Off(msgs, j), msgs[j], offset, n);
    NotYetAccepted(msgs, s, j, offset, n);
  }

  lemma SameOffset(base: Bytes4, off: nat, o: nat, x: nat)
    requires Plus(Plus(base, off), o) == Plus(base, x) && off + o < TWO32 && x < TWO32
    ensures x == off + o
  {
    PlusPlus(base, off, o);
    PlusInjective(base, off + o, x);
  }

  lemma Continues(flat: Bytes, accepted: Bytes, off: nat, msg: Bytes, o: nat, n: nat)
    requires accepted <= flat && |accepted| == off + o && o + n <= |msg|
    requires off + |msg| <= |flat| && flat[off..off + |msg|] == msg
    ensures accepted + msg[o..o + n] <= flat
  {
    var all := accepted + msg[o..o + n];
    forall i | |accepted| <= i < |all| ensures all[i] == flat[i] {
      assert flat[off..off + |msg|][i - off] == flat[i];
    }
  }

  /** New bytes can only come from the message that is pending. */
  lemma NotYetAccepted(msgs: seq<Bytes>, s: System, j: nat, offset: nat, n: nat)
    requires s.k <= |msgs| && (s.sender.waiting ==> s.k < |msgs|) && ReceiverInv(msgs, s)
    requires j < |msgs| && Emitted(j, s.k, s.sender.waiting)
    requires |s.accepted| == Off(msgs, j) + offset && 0 < n && offset + n <= |msgs[j]|
    ensures j == s.k && s.sender.waiting
  {
    if j < s.k {
      OffNext(msgs, j);
      OffMonotone(msgs, j + 1, s.k);
    }
  }

  lemma NextKeepsInv(msgs: seq<Bytes>, base: Bytes4, s: System, a: Action)
    requires Inv(msgs, base, s) && |Concat(msgs)| < TWO32 && Enabled(msgs, base, s, a)
    requires Fit(msgs, s.conn.mss) && Fit(msgs, Next(msgs, base, s, a).conn.mss)
    ensures Inv(msgs, base, Next(msgs, base, s, a))
  {
    match a
    case Arrive(g, area) =>
      ArriveStep(msgs, base, s, g, area);
      PaceKeepsInv(msgs, base, s, Input(s.conn, g, area, AppOf(msgs, s)));
    case Tick(area) =>
      TickStep(msgs, base, s, area);
      PaceKeepsInv(msgs, base, s, Timer(s.conn, area, AppOf(msgs, s)));
    case PollRequest(uipLen, stale, area) =>
      PollStep(msgs, base, s, uipLen, stale, area);
      PaceKeepsInv(msgs, base, s, Poll(s.conn, uipLen, stale, area, AppOf(msgs, s)));
    case Deliver(f, offset, n) => DeliverKeepsInv(msgs, base, s, f, offset, n);
    case Acknowledge =>
      var s1 := Next(msgs, base, s, Acknowledge);
      assert AckInv(base, |s1.accepted|, RcvNxt(base, s));
  }

  /** A run in which the mss never drops below the length of a message. */
  predicate IsRun(msgs: seq<Bytes>, base: Bytes4, states: seq<System>, actions: seq<Action>) {
    IsRunFrom(msgs, base, states, actions) && Initial(base, states[0])
  }

  /** The same from any state. */
  predicate IsRunFrom(msgs: seq<Bytes>, base: Bytes4, states: seq<System>, actions: seq<Action>) {
    && |states| == |actions| + 1
    && (forall i :: 0 <= i < |states| ==> Fit(msgs, states[i].conn.mss))
    && forall i :: 0 <= i < |actions| ==>
         Enabled(msgs, base, states[i], actions[i]) && states[i + 1] == Next(msgs, base, states[i], actions[i])
  }

  lemma {:induction false} PrefixOfFlat(msgs: seq<Bytes>, k: nat)
    requires k <= |msgs|
    ensures Concat(msgs[..k]) <= Concat(msgs)
    decreases |msgs| - k
  {
    if k < |msgs| {
      OffNext(msgs, k);
      PrefixOfFlat(msgs, k + 1);
    } else {
      assert msgs[..k] == msgs;
    }
  }

  lemma {:induction false} RunInv(msgs: seq<Bytes>, base: Bytes4, states: seq<System>, actions: seq<Action>, i: nat)
    requires IsRun(msgs, base, states, actions) && |Concat(msgs)| < TWO32 && i < |states|
    ensures Inv(msgs, base, states[i])
  {
    if i == 0 {
      InitialInv(msgs, base, states[0]);
    } else {
      RunInv(msgs, base, states, actions, i - 1);
      assert states[i - 1 + 1] == Next(msgs, base, states[i - 1], actions[i - 1]);
      NextKeepsInv(msgs, base, states[i - 1], actions[i - 1]);
    }
  }

  /**
   Reliable sending over whole runs. Whatever is lost, repeated or reordered, the bytes the
   receiver has accepted are always a prefix of the messages given to psock_send; and the
   psock_send of a message has ended only if the receiver has accepted that message and all
   before it.
   */
  lemma {:induction false} ReliableSending(msgs: seq<Bytes>, base: Bytes4, states: seq<System>, actions: seq<Action>)
    requires IsRun(msgs, base, states, actions) && |Concat(msgs)| < TWO32
    ensures forall i :: 0 <= i < |states| ==>
              && states[i].accepted <= Concat(msgs)
              && states[i].k <= |msgs|
              && Concat(msgs[..states[i].k]) <= states[i].accepted
  {
    forall i | 0 <= i < |states|
      ensures states[i].accepted <= Concat(msgs) && states[i].k <= |msgs|
              && Concat(msgs[..states[i].k]) <= states[i].accepted
    {
      RunInv(msgs, base, states, actions, i);
      PrefixOfFlat(msgs, states[i].k);
    }
  }

  /** And it does end: by the acknowledgement that the receiver sends once it has the message. */
  lemma AckEndsSend(msgs: seq<Bytes>, base: Bytes4, s: System, g: Segment, area: Area)
    requires Inv(msgs, base, s) && |Concat(msgs)| < TWO32 && Enabled(msgs, base, s, Arrive(g, area))
    requires s.conn.state.Established? && s.sender.waiting && |s.accepted| == Off(msgs, s.k) + |msgs[s.k]|
    requires g.ctl.ack && !g.ctl.rst && !OutOfSequence(s.conn, g) && g.ackno == RcvNxt(base, s)
    requires Fit(msgs, s.conn.mss) && Fit(msgs, Heard(s.conn, g).mss)
    ensures Next(msgs, base, s, Arrive(g, area)).k > s.k
  {
    RcvNxtAcks(msgs, base, s, g);
    if g.ctl.fin {
      FinStep(msgs, base, s, g, area);
    } else {
      AckStep(msgs, base, s, g, area);
    }
  }

  lemma RcvNxtAcks(msgs: seq<Bytes>, base: Bytes4, s: System, g: Segment)
    requires SenderInv(msgs, base, s.conn, s.sender, s.k) && s.conn.state.Established? && s.sender.waiting
    requires |s.accepted| == Off(msgs, s.k) + |msgs[s.k]| && g.ctl.ack && g.ackno == RcvNxt(base, s)
    ensures Acks(s.conn, g)
  {
    AckedNumber(msgs, base, s.k);
    OffNext(msgs, s.k);
  }

  /**
   Why messages must not exceed the mss: the acknowledged flag stays set for the whole
   callback, so the first acknowledgement ends psock_send however much is left. It ends with
   bytes only just handed to uip_send, and so not acknowledged, exactly if more than one
   segment was left.
   */
  lemma {:induction false} FirstAckEndsSend(s: Sender, msg: Bytes, call: AppCall, data: Bytes)
    requires Within(s, msg) && s.waiting && s.state.DataSent? && s.sendlen > 0
    requires call.sig.ackdata && call.mss > 0
    ensures var r := SendLoop(s, msg, call, data);
            r.pt.Ended? && (s.sendlen <= call.mss ==> r.data == data) && (s.sendlen > call.mss ==> r.data != [])
    ensures data == [] ==> (SendLoop(s, msg, call, data).data != [] <==> s.sendlen > call.mss)
    decreases s.sendlen
  {
    var t := SendTurn(s, msg, call, data);
    assert SendLoop(s, msg, call, data) == SendLoop(t.sender, msg, call, t.data);
    if t.sender.sendlen > 0 {
      FirstAckEndsSend(t.sender, msg, call, t.data);
    }
  }
}
