/**
 What one TCP event does to one uIP connection, as functions on values.

 `Input` is the `found` part of uip_process (a segment for an existing
 connection), `Timer` its UIP_TIMER part, `Poll` its UIP_POLL_REQUEST part.
 Class `Uip` in Uip.dfy carries the same steps out in place and is proved
 against these functions; the theorems about runs are about the functions.

 The application callback is a function argument: whatever it may do with the
 uIP macros is the value it leaves in uip_flags, in the bytes it passes to
 uip_send and in the STOPPED bit.
 */
module Tcp {
  import opened Words

  const BUFSIZE := 4200
  const LLH_LEN := 14
  const IPTCPH_LEN := 40
  const TCP_MSS := BUFSIZE - LLH_LEN - IPTCPH_LEN
  const RTO := 3
  const MAXRTX := 8
  const MAXSYNRTX := 5
  const TIME_WAIT_TIMEOUT := 120

  datatype TcpState =
    Closed | SynRcvd | SynSent | Established | FinWait1 | FinWait2 | Closing | TimeWait | LastAck

  datatype IpAddr = IpAddr(hi: U16, lo: U16)

  /** struct uip_conn; `state` and `stopped` are the two parts of tcpstateflags. */
  datatype Conn = Conn(
    ripaddr: IpAddr, lport: U16, rport: U16,
    rcvNxt: Bytes4, sndNxt: Bytes4,
    len: U16, mss: U16, initialMss: U16,
    sa: U8, sv: U8, rto: U8,
    state: TcpState, stopped: bool,
    timer: U8, nrtx: U8)
  {
    /** The source's unmasked test tcpstateflags == s. */
    predicate Is(s: TcpState) {
      state == s && !stopped
    }
  }

  datatype Control = Control(fin: bool, syn: bool, rst: bool, psh: bool, ack: bool, urg: bool)

  const ACK := Control(false, false, false, false, true, false)
  const PSH_ACK := Control(false, false, false, true, true, false)
  const FIN_ACK := Control(true, false, false, false, true, false)
  const RST_ACK := Control(false, false, true, false, true, false)
  const SYN := Control(false, true, false, false, false, false)
  const SYN_ACK := Control(false, true, false, false, true, false)

  /** The bytes at uip_appdata, from the end of a 20-byte TCP header to the end of uip_buf. */
  type Area = a: Bytes | |a| == TCP_MSS witness seq(TCP_MSS, _ => 0)

  /**
   An arriving segment. `offset` is the header-length nibble, `rest` all bytes after the
   fixed 20-byte header, options included; `mssOption` is what parsing the options yields.
   */
  datatype Segment = Segment(
    srcIp: IpAddr, srcPort: U16, destPort: U16,
    seqno: Bytes4, ackno: Bytes4, offset: U8, ctl: Control, wnd: U16,
    rest: Bytes, mssOption: Option<U16>)
  {
    /** A packet that fits uip_buf and a header length of four bits. */
    predicate Fits() {
      |rest| <= TCP_MSS && offset < 16
    }

    /** uip_len after both headers have been taken off it, in 16 bits. */
    function DataLen(): U16 {
      (|rest| + 20 - 4 * (offset as int)) % TWO16
    }

    function Mss(): Option<U16> {
      if offset <= 5 || mssOption.None? then None
      else Some(if mssOption.value > TCP_MSS then TCP_MSS else mssOption.value)
    }
  }

  /** The bits of uip_flags. */
  datatype Signal = Signal(
    ackdata: bool, newdata: bool, rexmit: bool, poll: bool,
    close: bool, abort: bool, connected: bool, timedout: bool)

  const QUIET := Signal(false, false, false, false, false, false, false, false)

  datatype AppCall = AppCall(sig: Signal, mss: U16, stopped: bool, dataLen: U16, area: Area)

  /** What the application leaves behind: uip_flags, the bytes sent, the STOPPED bit. */
  datatype AppReply = AppReply(sig: Signal, data: AppData, stopped: bool)

  type AppData = d: Bytes | |d| <= TCP_MSS
  type App = AppCall -> AppReply

  /** A TCP packet left in uip_buf for transmission. */
  datatype Frame = Frame(
    dest: IpAddr, srcPort: U16, destPort: U16,
    seqno: Bytes4, ackno: Bytes4, ctl: Control, wnd: U16,
    mssOption: bool, data: Bytes)
  {
    /** uip_len at the end of uip_process plus the link-level header. */
    function Size(): nat {
      LLH_LEN + IPTCPH_LEN + (if mssOption then 4 else 0) + |data|
    }
  }

  datatype Step = Step(conn: Conn, call: Option<AppCall>, frame: Option<Frame>)

  function Drop(c: Conn): Step {
    Step(c, None, None)
  }

  /** Label tcp_send: a packet with the connection's own numbers in it. */
  function Packet(c: Conn, ctl: Control, mssOption: bool, data: Bytes): Frame {
    Frame(c.ripaddr, c.lport, c.rport, c.sndNxt, c.rcvNxt, ctl,
          if c.stopped then 0 else TCP_MSS, mssOption, data)
  }

  function Bare(c: Conn, ctl: Control): Option<Frame> {
    Some(Packet(c, ctl, false, []))
  }

  /** Label reset: the segment's own numbers turned round. */
  function Reset(g: Segment): Frame {
    Frame(g.srcIp, g.destPort, g.srcPort, g.ackno, Plus(g.seqno, 1), RST_ACK, g.wnd, false, [])
  }

  /** uip_send writes its bytes over the start of the application area. */
  function Overlay(area: Area, data: AppData): (r: Area)
    ensures |data| <= |r| && r[..|data|] == data
  {
    data + area[|data|..]
  }

  /** Conversion to the signed char of the round-trip estimator. */
  function S8(x: int): int {
    (x + 0x80) % 0x100 - 0x80
  }

  function Rtt(c: Conn): Conn {
    var m0 := S8(S8((c.rto as int) - c.timer) - c.sa / 8);
    var sa: U8 := (c.sa + m0) % 0x100;
    var m1 := S8(S8(if m0 < 0 then -m0 else m0) - c.sv / 4);
    var sv: U8 := (c.sv + m1) % 0x100;
    c.(sa := sa, sv := sv, rto := (sa / 8 + (sv as int)) % 0x100)
  }

  /** The outstanding bytes are acknowledged. */
  function Acked(c: Conn): Conn {
    var c1 := c.(sndNxt := Plus(c.sndNxt, c.len));
    var c2 := if c.nrtx == 0 then Rtt(c1) else c1;
    c2.(timer := c2.rto, len := 0)
  }

  predicate Acks(c: Conn, g: Segment) {
    g.ctl.ack && c.len != 0 && g.ackno == Plus(c.sndNxt, c.len)
  }

  /** The segment takes sequence space but does not start at rcv_nxt. */
  predicate OutOfSequence(c: Conn, g: Segment) {
    && !(c.state.SynSent? && g.ctl == SYN_ACK)
    && (g.DataLen() > 0 || g.ctl.syn || g.ctl.fin)
    && g.seqno != c.rcvNxt
  }

  function CallFor(c: Conn, sig: Signal, dataLen: U16, area: Area): AppCall {
    AppCall(sig, c.mss, c.stopped, dataLen, area)
  }

  /**
   Labels appsend and apprexmit, for the reply r of an application called on c when
   uip_slen was `stale`; uip_send leaves uip_slen alone if it is given no bytes.
   */
  function AppSend(c: Conn, stale: U16, r: AppReply, area: Area): (Conn, Option<Frame>) {
    var c0 := c.(stopped := r.stopped);
    if r.sig.abort then
      var c1 := c0.(state := Closed, stopped := false);
      (c1, Bare(c1, RST_ACK))
    else if r.sig.close then
      var c1 := c0.(len := 1, state := FinWait1, stopped := false, nrtx := 0);
      (c1, Bare(c1, FIN_ACK))
    else
      var offered := if r.data == [] then stale else |r.data|;
      var held := if r.sig.ackdata then 0 else c.len;
      var slen := if offered == 0 then 0 else if held == 0 then Min(offered, c.mss) else held;
      var c1 := c0.(len := if offered == 0 then c.len else slen, nrtx := 0);
      (c1, AppRexmit(c1, slen, r, area))
  }

  function AppRexmit(c: Conn, slen: nat, r: AppReply, area: Area): Option<Frame> {
    if slen > 0 && c.len > 0 then
      Some(Packet(c, PSH_ACK, false, Overlay(area, r.data)[..Min(c.len, TCP_MSS)]))
    else if r.sig.newdata then Bare(c, ACK)
    else None
  }

  function CallAndSend(c: Conn, sig: Signal, dataLen: U16, stale: U16, area: Area, app: App): Step {
    var call := CallFor(c, sig, dataLen, area);
    var (c1, frame) := AppSend(c, stale, app(call), area);
    Step(c1, Some(call), frame)
  }

  // ----- uip_slen, which is the stack's and not the connection's -----

  function Offered(stale: U16, r: AppReply): U16 {
    if r.data == [] then stale else |r.data|
  }

  /** After appsend: nothing, or what is now outstanding. */
  function SentLen(stale: U16, r: AppReply, c: Conn): U16 {
    if r.sig.abort || r.sig.close || Offered(stale, r) == 0 then 0 else c.len
  }

  /** Callbacks that appsend does not follow. */
  predicate Notice(sig: Signal) {
    sig.abort || sig.close || sig.timedout || sig.rexmit
  }

  /** uip_slen after the step s, which began with `before`: it is reset before every callback but a notice and a poll. */
  function SlenAfter(before: U16, s: Step, app: App): U16 {
    if s.call.None? then before
    else
      var sig, r := s.call.value.sig, app(s.call.value);
      if Notice(sig) then Offered(before, r) else SentLen(if sig.poll then before else 0, r, s.conn)
  }

  /**
   uip_process(UIP_POLL_REQUEST) on connection c. Unlike the other events this one does
   not reset uip_len and uip_slen, so the application and appsend see the old values.
   */
  function Poll(c: Conn, uipLen: U16, stale: U16, area: Area, app: App): Step {
    if c.state.Established? && c.len == 0 then
      CallAndSend(c, QUIET.(poll := true), uipLen, stale, area, app)
    else Drop(c)
  }

  /** uip_process on a segment that belongs to connection c. */
  function Input(c: Conn, g: Segment, area: Area, app: App): Step {
    if g.ctl.rst then Drop(c)
    else if OutOfSequence(c, g) then Step(c, None, Bare(c, ACK))
    else InSequence(if Acks(c, g) then Acked(c) else c, Acks(c, g), g, area, app)
  }

  /** The switch over the connection states; `acked` is the UIP_ACKDATA flag. */
  function InSequence(c: Conn, acked: bool, g: Segment, area: Area, app: App): Step {
    var n := g.DataLen();
    match c.state
    case SynRcvd =>
      if acked then
        var c1 := c.(state := Established, stopped := false, len := 0, rcvNxt := Plus(c.rcvNxt, n));
        CallAndSend(c1, QUIET.(connected := true, newdata := n > 0), n, 0, area, app)
      else Drop(c)
    case SynSent =>
      if acked && g.ctl == SYN_ACK then
        var mss := if g.Mss().Some? then g.Mss().value else c.mss;
        var initial := if g.Mss().Some? then g.Mss().value else c.initialMss;
        var c1 := c.(state := Established, stopped := false, mss := mss, initialMss := initial,
                     rcvNxt := Plus(g.seqno, 1), len := 0);
        CallAndSend(c1, QUIET.(connected := true, newdata := true), 0, 0, area, app)
      else
        var call := CallFor(c, QUIET.(abort := true), n, area);
        Step(c.(state := Closed, stopped := false), Some(call), Some(Reset(g)))
    case Established => OnEstablished(c, acked, g, area, app)
    case LastAck =>
      if acked then
        var c1 := c.(state := Closed, stopped := false);
        var call := CallFor(c1, QUIET.(close := true), n, area);
        Step(c1.(stopped := app(call).stopped), Some(call), None)
      else Drop(c)
    case FinWait1 =>
      var c1 := c.(rcvNxt := Plus(c.rcvNxt, n));
      if g.ctl.fin then
        var c2 := if acked then c1.(state := TimeWait, stopped := false, timer := 0, len := 0)
                  else c1.(state := Closing, stopped := false);
        PeerClosed(c2, n, area, app)
      else if acked then Drop(c1.(state := FinWait2, stopped := false, len := 0))
      else if n > 0 then Step(c1, None, Bare(c1, ACK))
      else Drop(c1)
    case FinWait2 =>
      var c1 := c.(rcvNxt := Plus(c.rcvNxt, n));
      if g.ctl.fin then
        PeerClosed(c1.(state := TimeWait, stopped := false, timer := 0), n, area, app)
      else if n > 0 then Step(c1, None, Bare(c1, ACK))
      else Drop(c1)
    case TimeWait => Step(c, None, Bare(c, ACK))
    case Closing =>
      if acked then Drop(c.(state := TimeWait, stopped := false, timer := 0)) else Drop(c)
    case Closed => Drop(c)
  }

  /** The peer's FIN after our own: count it, tell the application, acknowledge. */
  function PeerClosed(c: Conn, n: U16, area: Area, app: App): Step {
    var c1 := c.(rcvNxt := Plus(c.rcvNxt, 1));
    var call := CallFor(c1, QUIET.(close := true), n, area);
    var c2 := c1.(stopped := app(call).stopped);
    Step(c2, Some(call), Bare(c2, ACK))
  }

  function Window(c: Conn, g: Segment): U16 {
    if g.wnd > c.initialMss || g.wnd == 0 then c.initialMss else g.wnd
  }

  /** The peer's FIN in ESTABLISHED: tell the application, send our own FIN, go to LAST_ACK. */
  function FinArrived(c: Conn, acked: bool, n: U16, area: Area): Step {
    var c1 := c.(rcvNxt := Plus(c.rcvNxt, (1 + n) % TWO16));
    var call := CallFor(c1, QUIET.(ackdata := acked, close := true, newdata := n > 0), n, area);
    var c2 := c1.(len := 1, state := LastAck, stopped := false, nrtx := 0);
    Step(c2, Some(call), Bare(c2, FIN_ACK))
  }

  function OnEstablished(c: Conn, acked: bool, g: Segment, area: Area, app: App): Step {
    var n := g.DataLen();
    if g.ctl.fin && !c.stopped then
      if c.len != 0 then Drop(c) else FinArrived(c, acked, n, area)
    else
      var news := n > 0 && !c.stopped;
      var c1 := c.(mss := Window(c, g), rcvNxt := if news then Plus(c.rcvNxt, n) else c.rcvNxt);
      if news || acked then
        CallAndSend(c1, QUIET.(ackdata := acked, newdata := news), n, 0, area, app)
      else Drop(c1)
  }

  /** uip_process(UIP_TIMER) on connection c. */
  function Timer(c: Conn, area: Area, app: App): Step {
    if c.Is(TimeWait) || c.Is(FinWait2) then
      var t: U8 := (c.timer + 1) % 0x100;
      Drop(c.(timer := t, state := if t == TIME_WAIT_TIMEOUT then Closed else c.state))
    else if c.Is(Closed) then Drop(c)
    else if c.len != 0 then
      if c.timer == 0 then Expired(c, area, app) else Drop(c.(timer := c.timer - 1))
    else if c.state.Established? then CallAndSend(c, QUIET.(poll := true), 0, 0, area, app)
    else Drop(c)
  }

  predicate GivesUp(c: Conn) {
    c.nrtx == MAXRTX || ((c.Is(SynSent) || c.Is(SynRcvd)) && c.nrtx == MAXSYNRTX)
  }

  /** The next retransmission timeout, UIP_RTO << min(nrtx, 4). */
  function Backoff(nrtx: U8): (t: U8)
    ensures t <= 48
  {
    if nrtx == 0 then 3 else if nrtx == 1 then 6 else if nrtx == 2 then 12 else if nrtx == 3 then 24 else 48
  }

  /** The retransmission timer ran out. */
  function Expired(c: Conn, area: Area, app: App): Step {
    if GivesUp(c) then
      var c1 := c.(timer := 0xff, state := Closed, stopped := false);
      var call := CallFor(c1, QUIET.(timedout := true), 0, area);
      var c2 := c1.(stopped := app(call).stopped);
      Step(c2, Some(call), Bare(c2, RST_ACK))
    else
      var c1 := c.(timer := Backoff(c.nrtx), nrtx := (c.nrtx + 1) % 0x100);
      match c.state
      case SynRcvd => Step(c1, None, Some(Packet(c1, SYN_ACK, true, [])))
      case SynSent => Step(c1, None, Some(Packet(c1, SYN, true, [])))
      case Established =>
        var call := CallFor(c1, QUIET.(rexmit := true), 0, area);
        var r := app(call);
        var c2 := c1.(stopped := r.stopped);
        Step(c2, Some(call), AppRexmit(c2, |r.data|, r, area))
      case FinWait1 => Step(c1, None, Bare(c1, FIN_ACK))
      case Closing => Step(c1, None, Bare(c1, FIN_ACK))
      case LastAck => Step(c1, None, Bare(c1, FIN_ACK))
      case _ => Drop(c1)
  }

  /** Where a SYN to a listening port starts connection, in the slot that held c. */
  function Accept(c: Conn, g: Segment, iss: Bytes4): Conn {
    var mss := if g.Mss().Some? then g.Mss().value else c.mss;
    var initial := if g.Mss().Some? then g.Mss().value else c.initialMss;
    Conn(g.srcIp, g.destPort, g.srcPort, Plus(g.seqno, 1), iss, 1, mss, initial,
         0, 4, RTO, SynRcvd, false, RTO, 0)
  }

  /** Where uip_connect starts a connection, in the slot that held c. */
  function Open(c: Conn, lport: U16, rport: U16, ripaddr: IpAddr, iss: Bytes4): Conn {
    Conn(ripaddr, lport, rport, c.rcvNxt, iss, 1, TCP_MSS, TCP_MSS,
         0, 16, RTO, SynSent, false, 1, 0)
  }
}
