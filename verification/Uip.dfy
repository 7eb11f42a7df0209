/**
 The stack itself: uIP's globals as fields, updated in place the way uip_process,
 uip_connect and their helpers do, each method proved to act on the table as the
 functions of modules Tcp and Table say.
 */
module Uip {
  import opened Words
  import opened Tcp
  import opened Table

  class Uip {
    const conns: array<Conn>       // uip_conns
    const listenports: array<U16>  // uip_listenports
    const iss: array<U8>
    const acc32: array<U8>         // uip_acc32
    const appdata: array<U8>       // uip_buf from the end of a 20-byte TCP header on
    var lastport: U16
    var flags: Signal              // uip_flags
    var len: U16                   // uip_len
    var slen: U16                  // uip_slen
    var sent: Option<Frame>        // the packet uip_process leaves in uip_buf
    var called: Option<AppCall>    // the last UIP_APPCALL of this uip_process

    ghost predicate Valid()
      reads this
    {
      && conns.Length == CONNS && listenports.Length == LISTENPORTS
      && iss.Length == 4 && acc32.Length == 4 && appdata.Length == TCP_MSS
      && iss != acc32 && iss != appdata && acc32 != appdata
    }

    ghost function View(): Table
      requires Valid()
      reads this, conns, listenports, iss
    {
      Table(conns[..], lastport, iss[..], listenports[..])
    }

    /** Connection i made the step s; `before` is the array of connections as it was, slen0 uip_slen. */
    ghost predicate After(i: nat, before: seq<Conn>, slen0: U16, s: Step, app: App)
      requires i < |before|
      reads this`called, this`sent, this`slen, conns
    {
      && conns[..] == before[i := s.conn] && called == s.call && sent == s.frame
      && slen == SlenAfter(slen0, s, app)
    }

    /** uip_init on cleared memory. */
    constructor ()
      ensures Valid() && Initial(View())
      ensures fresh(conns) && fresh(listenports) && fresh(iss) && fresh(acc32) && fresh(appdata)
    {
      var blank := Conn(IpAddr(0, 0), 0, 0, [0, 0, 0, 0], [0, 0, 0, 0], 0, 0, 0, 0, 0, 0, Closed, false, 0, 0);
      conns := new Conn[CONNS](_ => blank);
      listenports := new U16[LISTENPORTS](_ => 0);
      iss := new U8[4](_ => 0);
      acc32 := new U8[4](_ => 0);
      appdata := new U8[TCP_MSS](_ => 0);
      lastport := 1024;
      flags, len, slen, sent, called := QUIET, 0, 0, None, None;
    }

    /** One is carried into byte k, and on into the bytes before it as long as they overflow. */
    method Carry(b: array<U8>, k: nat)
      requires b.Length == 4 && k < 4
      modifies b
      ensures forall j :: k < j < 4 ==> b[j] == old(b[j])
      ensures Value(b[..]) == (old(Value(b[..])) + Weight(k)) % TWO32
      decreases k
    {
      var x: U8 := (b[k] as int + 1) % 0x100;
      CarryStep(b[..], k, x);
      b[k] := x;
      assert b[..] == old(b[..])[k := x];
      if x == 0 && k > 0 {
        Carry(b, k - 1);
      }
    }

    /** uip_add32: a 16-bit number onto a 32-bit one, byte by byte with carries. */
    method Add32(op32: Bytes4, op16: U16)
      requires Valid()
      modifies acc32
      ensures acc32[..] == Plus(op32, op16)
    {
      acc32[3] := (op32[3] as int + op16 % 0x100) % 0x100;
      acc32[2] := (op32[2] as int + op16 / 0x100) % 0x100;
      acc32[1] := op32[1];
      acc32[0] := op32[0];
      ghost var r: Bytes4 := acc32[..];
      assert r == BytewiseSum(op32, op16);
      if acc32[2] < op16 / 0x100 {
        Carry(acc32, 1);
      }
      ghost var r1: Bytes4 := acc32[..];
      if acc32[3] < op16 % 0x100 {
        Carry(acc32, 2);
      }
      AddBytes(op32, op16, r1, acc32[..]);
    }

    /** uip_add_rcv_nxt */
    method AddRcvNxt(i: nat, n: U16)
      requires Valid() && i < CONNS
      modifies acc32, conns
      ensures var c := old(conns[i]);
              conns[..] == old(conns[..])[i := c.(rcvNxt := Plus(c.rcvNxt, n))]
    {
      Add32(conns[i].rcvNxt, n);
      conns[i] := conns[i].(rcvNxt := acc32[..]);
    }

    /** uip_send */
    method Send(data: AppData)
      requires Valid()
      modifies this`slen, appdata
      ensures appdata[..] == Overlay(old(appdata[..]), data)
      ensures slen == if data == [] then old(slen) else |data|
    {
      if |data| > 0 {
        slen := |data|;
        var k := 0;
        while k < |data|
          invariant 0 <= k <= |data| && slen == |data|
          invariant forall j :: 0 <= j < k ==> appdata[j] == data[j]
          invariant forall j :: k <= j < appdata.Length ==> appdata[j] == old(appdata[j])
        {
          appdata[k] := data[k];
          k := k + 1;
        }
      }
    }

    /** UIP_APPCALL for connection i: the application sees uip_flags and uip_len and uses the macros. */
    method Appcall(i: nat, app: App)
      requires Valid() && i < CONNS
      modifies this`flags, this`slen, this`called, conns, appdata
      ensures called == Some(CallFor(old(conns[i]), old(flags), old(len), old(appdata[..])))
      ensures var r := app(called.value);
              && flags == r.sig
              && slen == (if r.data == [] then old(slen) else |r.data|)
              && appdata[..] == Overlay(old(appdata[..]), r.data)
              && conns[..] == old(conns[..])[i := old(conns[i]).(stopped := r.stopped)]
    {
      var call := CallFor(conns[i], flags, len, appdata[..]);
      var r := app(call);
      called := Some(call);
      flags := r.sig;
      conns[i] := conns[i].(stopped := r.stopped);
      Send(r.data);
    }

    /** Label tcp_send with n bytes of application data. */
    method TcpSend(i: nat, ctl: Control, mssOption: bool, n: nat)
      requires Valid() && i < CONNS && n <= TCP_MSS
      modifies this`sent
      ensures sent == Some(Packet(conns[i], ctl, mssOption, appdata[..n]))
    {
      var c := conns[i];
      var wnd := if c.stopped then 0 else TCP_MSS;
      sent := Some(Frame(c.ripaddr, c.lport, c.rport, c.sndNxt, c.rcvNxt, ctl, wnd, mssOption, appdata[..n]));
    }

    /** Label apprexmit */
    method ApprexmitLabel(i: nat, ghost r: AppReply, ghost area: Area)
      requires Valid() && i < CONNS && sent == None
      requires flags == r.sig && appdata[..] == Overlay(area, r.data)
      modifies this`sent
      ensures sent == AppRexmit(conns[i], slen, r, area)
    {
      if slen > 0 && conns[i].len > 0 {
        TcpSend(i, PSH_ACK, false, Min(conns[i].len, TCP_MSS));
      } else if flags.newdata {
        TcpSend(i, ACK, false, 0);
      }
    }

    /** Label appsend, after a callback that answered r to connection c. */
    method AppsendLabel(i: nat, ghost c: Conn, ghost stale: U16, ghost r: AppReply, ghost area: Area)
      requires Valid() && i < CONNS && sent == None
      requires flags == r.sig && slen == (if r.data == [] then stale else |r.data|)
      requires appdata[..] == Overlay(area, r.data) && conns[i] == c.(stopped := r.stopped)
      modifies this`slen, this`sent, conns
      ensures conns[..] == old(conns[..])[i := AppSend(c, stale, r, area).0]
      ensures sent == AppSend(c, stale, r, area).1 && slen == SentLen(stale, r, conns[i])
    {
      if flags.abort {
        slen := 0;
        conns[i] := conns[i].(state := Closed, stopped := false);
        TcpSend(i, RST_ACK, false, 0);
        return;
      }
      if flags.close {
        slen := 0;
        conns[i] := conns[i].(len := 1, state := FinWait1, stopped := false, nrtx := 0);
        TcpSend(i, FIN_ACK, false, 0);
        return;
      }
      ClampLength(i);
      conns[i] := conns[i].(nrtx := 0);
      ApprexmitLabel(i, r, area);
    }

    /** How much appsend sends: at most the mss, or what is outstanding already. */
    method ClampLength(i: nat)
      requires Valid() && i < CONNS
      modifies this`slen, conns
      ensures var c := old(conns[i]);
              var held := if flags.ackdata then 0 else c.len;
              && slen == (if old(slen) == 0 then 0 else if held == 0 then Min(old(slen), c.mss) else held)
              && conns[..] == old(conns[..])[i := if old(slen) == 0 then c else c.(len := slen)]
    {
      if slen > 0 {
        if flags.ackdata {
          conns[i] := conns[i].(len := 0);
        }
        if conns[i].len == 0 {
          if slen > conns[i].mss {
            slen := conns[i].mss;
          }
          conns[i] := conns[i].(len := slen);
        } else {
          slen := conns[i].len;
        }
      }
    }

    /** UIP_APPCALL followed by appsend. */
    method AppcallAndSend(i: nat, app: App)
      requires Valid() && i < CONNS && sent == None && !Notice(flags) && (flags.poll || slen == 0)
      modifies this`flags, this`slen, this`called, this`sent, conns, appdata
      ensures After(i, old(conns[..]), old(slen), CallAndSend(old(conns[i]), old(flags), old(len), old(slen), old(appdata[..]), app), app)
    {
      ghost var c, area := conns[i], appdata[..];
      Appcall(i, app);
      AppsendLabel(i, c, old(slen), app(called.value), area);
    }

    /** The acknowledgement check of uip_process; sets UIP_ACKDATA. */
    method CheckAck(i: nat, g: Segment)
      requires Valid() && i < CONNS && flags == QUIET
      modifies this`flags, acc32, conns
      ensures var c := old(conns[i]);
              && conns[..] == old(conns[..])[i := if Acks(c, g) then Acked(c) else c]
              && flags == QUIET.(ackdata := Acks(c, g))
    {
      if g.ctl.ack && conns[i].len != 0 {
        Add32(conns[i].sndNxt, conns[i].len);
        if g.ackno == acc32[..] {
          conns[i] := conns[i].(sndNxt := acc32[..]);
          if conns[i].nrtx == 0 {
            conns[i] := Rtt(conns[i]);
          }
          flags := QUIET.(ackdata := true);
          conns[i] := conns[i].(timer := conns[i].rto);
          conns[i] := conns[i].(len := 0);
        }
      }
    }

    method OnSynRcvd(i: nat, g: Segment, app: App)
      requires Valid() && i < CONNS && sent == None && called == None
      requires conns[i].state.SynRcvd?
      requires flags == QUIET.(ackdata := flags.ackdata) && len == g.DataLen()
      modifies this`flags, this`slen, this`called, this`sent, acc32, conns, appdata
      ensures After(i, old(conns[..]), old(slen), InSequence(old(conns[i]), old(flags.ackdata), g, old(appdata[..]), app), app)
    {
      if flags.ackdata {
        PlusZero(conns[i].rcvNxt);
        conns[i] := conns[i].(state := Established, stopped := false, len := 0);
        flags := QUIET.(connected := true);
        if len > 0 {
          flags := flags.(newdata := true);
          AddRcvNxt(i, len);
        }
        slen := 0;
        ghost var c1 := old(conns[i]).(state := Established, stopped := false, len := 0,
                                       rcvNxt := Plus(old(conns[i]).rcvNxt, len));
        assert conns[..] == old(conns[..])[i := c1];
        AppcallAndSend(i, app);
      }
    }

    method OnSynSent(i: nat, g: Segment, app: App)
      requires Valid() && i < CONNS && sent == None && called == None
      requires conns[i].state.SynSent?
      requires flags == QUIET.(ackdata := flags.ackdata) && len == g.DataLen()
      modifies this`flags, this`len, this`slen, this`called, this`sent, acc32, conns, appdata
      ensures After(i, old(conns[..]), old(slen), InSequence(old(conns[i]), old(flags.ackdata), g, old(appdata[..]), app), app)
    {
      if flags.ackdata && g.ctl == SYN_ACK {
        Opened(i, g);
        AppcallAndSend(i, app);
      } else {
        flags := QUIET.(abort := true);
        Appcall(i, app);
        conns[i] := conns[i].(state := Closed, stopped := false);
        SendReset(g);
      }
    }

    /** The SYN-ACK that was waited for. */
    method Opened(i: nat, g: Segment)
      requires Valid() && i < CONNS
      modifies this`flags, this`len, this`slen, acc32, conns
      ensures flags == QUIET.(connected := true, newdata := true) && len == 0 && slen == 0
      ensures var c := old(conns[i]);
              var mss := if g.Mss().Some? then g.Mss().value else c.mss;
              var initial := if g.Mss().Some? then g.Mss().value else c.initialMss;
              conns[..] == old(conns[..])[i := c.(state := Established, stopped := false, mss := mss, initialMss := initial,
                                                  rcvNxt := Plus(g.seqno, 1), len := 0)]
    {
      TakeMss(i, g);
      conns[i] := conns[i].(state := Established, stopped := false, rcvNxt := g.seqno);
      AddRcvNxt(i, 1);
      flags := QUIET.(connected := true, newdata := true);
      conns[i] := conns[i].(len := 0);
      len := 0;
      slen := 0;
    }

    /** The MSS option of a SYN or SYN-ACK, if it has one. */
    method TakeMss(i: nat, g: Segment)
      requires Valid() && i < CONNS
      modifies conns
      ensures var c := old(conns[i]);
              conns[..] == old(conns[..])[i := c.(mss := if g.Mss().Some? then g.Mss().value else c.mss,
                                                  initialMss := if g.Mss().Some? then g.Mss().value else c.initialMss)]
    {
      if g.Mss().Some? {
        conns[i] := conns[i].(mss := g.Mss().value, initialMss := g.Mss().value);
      }
    }

    /** Label reset, for a segment that is not itself a reset. */
    method SendReset(g: Segment)
      modifies this`sent
      ensures sent == Some(Reset(g))
    {
      sent := Some(Frame(g.srcIp, g.destPort, g.srcPort, g.ackno, Plus(g.seqno, 1), RST_ACK, g.wnd, false, []));
    }

    /** A FIN in ESTABLISHED with nothing outstanding: close this side as well. */
    method OnFin(i: nat, app: App)
      requires Valid() && i < CONNS
      requires flags == QUIET.(ackdata := flags.ackdata)
      modifies this`flags, this`slen, this`called, this`sent, acc32, conns, appdata
      ensures After(i, old(conns[..]), old(slen), FinArrived(old(conns[i]), old(flags.ackdata), len, old(appdata[..])), app)
    {
      NoteFin(i);
      ghost var c1 := conns[i];
      Appcall(i, app);
      conns[i] := conns[i].(len := 1, state := LastAck, stopped := false, nrtx := 0);
      assert conns[..] == old(conns[..])[i := c1.(len := 1, state := LastAck, stopped := false, nrtx := 0)];
      TcpSend(i, FIN_ACK, false, 0);
    }

    /** Count the FIN and its data, and flag both for the application. */
    method NoteFin(i: nat)
      requires Valid() && i < CONNS && flags == QUIET.(ackdata := flags.ackdata)
      modifies this`flags, acc32, conns
      ensures flags == old(flags).(close := true, newdata := len > 0)
      ensures var c := old(conns[i]);
              conns[..] == old(conns[..])[i := c.(rcvNxt := Plus(c.rcvNxt, (1 + len as int) % TWO16))]
    {
      AddRcvNxt(i, (1 + len as int) % TWO16);
      flags := flags.(close := true);
      if len > 0 {
        flags := flags.(newdata := true);
      }
    }

    method OnEstablishedState(i: nat, g: Segment, app: App)
      requires Valid() && i < CONNS && sent == None && called == None
      requires flags == QUIET.(ackdata := flags.ackdata) && len == g.DataLen()
      modifies this`flags, this`slen, this`called, this`sent, acc32, conns, appdata
      ensures After(i, old(conns[..]), old(slen), OnEstablished(old(conns[i]), old(flags.ackdata), g, old(appdata[..]), app), app)
    {
      if g.ctl.fin && !conns[i].stopped {
        if conns[i].len != 0 {
          return;
        }
        OnFin(i, app);
        return;
      }
      OnNoFin(i, g, app);
    }

    method OnNoFin(i: nat, g: Segment, app: App)
      requires Valid() && i < CONNS && sent == None && called == None && !(g.ctl.fin && !conns[i].stopped)
      requires flags == QUIET.(ackdata := flags.ackdata) && len == g.DataLen()
      modifies this`flags, this`slen, this`called, this`sent, acc32, conns, appdata
      ensures After(i, old(conns[..]), old(slen), OnEstablished(old(conns[i]), old(flags.ackdata), g, old(appdata[..]), app), app)
    {
      OnData(i, g);
      if flags.newdata || flags.ackdata {
        slen := 0;
        AppcallAndSend(i, app);
      }
    }

    /** New data in ESTABLISHED is counted, and the window of the segment bounds the mss. */
    method OnData(i: nat, g: Segment)
      requires Valid() && i < CONNS && flags == QUIET.(ackdata := flags.ackdata)
      modifies this`flags, acc32, conns
      ensures var c, news := old(conns[i]), len > 0 && !old(conns[i]).stopped;
              && conns[..] == old(conns[..])[i := c.(mss := Window(c, g),
                                                     rcvNxt := if news then Plus(c.rcvNxt, len) else c.rcvNxt)]
              && flags == old(flags).(newdata := news)
    {
      if len > 0 && !conns[i].stopped {
        flags := flags.(newdata := true);
        AddRcvNxt(i, len);
      }
      var tmp16 := g.wnd;
      if tmp16 > conns[i].initialMss || tmp16 == 0 {
        tmp16 := conns[i].initialMss;
      }
      conns[i] := conns[i].(mss := tmp16);
    }

    /** The peer's FIN in FIN_WAIT_1 or FIN_WAIT_2, once the state is set. */
    method OnPeerClosed(i: nat, app: App)
      requires Valid() && i < CONNS && sent == None
      modifies this`flags, this`slen, this`called, this`sent, acc32, conns, appdata
      ensures After(i, old(conns[..]), old(slen), PeerClosed(old(conns[i]), len, old(appdata[..]), app), app)
    {
      AddRcvNxt(i, 1);
      flags := QUIET.(close := true);
      Appcall(i, app);
      TcpSend(i, ACK, false, 0);
    }

    /** The data of a segment after our own FIN: counted, not passed on. */
    method CountData(i: nat)
      requires Valid() && i < CONNS
      modifies acc32, conns
      ensures var c := old(conns[i]); conns[..] == old(conns[..])[i := c.(rcvNxt := Plus(c.rcvNxt, len))]
    {
      PlusZero(conns[i].rcvNxt);
      if len > 0 {
        AddRcvNxt(i, len);
      }
    }

    method OnFinWait1(i: nat, g: Segment, app: App)
      requires Valid() && i < CONNS && sent == None && called == None
      requires conns[i].state.FinWait1? && len == g.DataLen()
      modifies this`flags, this`slen, this`called, this`sent, acc32, conns, appdata
      ensures After(i, old(conns[..]), old(slen), InSequence(old(conns[i]), old(flags.ackdata), g, old(appdata[..]), app), app)
    {
      CountData(i);
      if g.ctl.fin {
        OnBothClosed(i, app);
      } else if flags.ackdata {
        conns[i] := conns[i].(state := FinWait2, stopped := false, len := 0);
      } else if len > 0 {
        TcpSend(i, ACK, false, 0);
      }
    }

    /** The peer's FIN while our own may still be on its way. */
    method OnBothClosed(i: nat, app: App)
      requires Valid() && i < CONNS && sent == None
      modifies this`flags, this`slen, this`called, this`sent, acc32, conns, appdata
      ensures var c := old(conns[i]);
              var c2 := if old(flags.ackdata) then c.(state := TimeWait, stopped := false, timer := 0, len := 0)
                        else c.(state := Closing, stopped := false);
              After(i, old(conns[..]), old(slen), PeerClosed(c2, len, old(appdata[..]), app), app)
    {
      if flags.ackdata {
        conns[i] := conns[i].(state := TimeWait, stopped := false, timer := 0, len := 0);
      } else {
        conns[i] := conns[i].(state := Closing, stopped := false);
      }
      OnPeerClosed(i, app);
    }

    method OnFinWait2(i: nat, g: Segment, app: App)
      requires Valid() && i < CONNS && sent == None && called == None
      requires conns[i].state.FinWait2? && len == g.DataLen()
      modifies this`flags, this`slen, this`called, this`sent, acc32, conns, appdata
      ensures After(i, old(conns[..]), old(slen), InSequence(old(conns[i]), old(flags.ackdata), g, old(appdata[..]), app), app)
    {
      CountData(i);
      if g.ctl.fin {
        conns[i] := conns[i].(state := TimeWait, stopped := false, timer := 0);
        OnPeerClosed(i, app);
      } else if len > 0 {
        TcpSend(i, ACK, false, 0);
      }
    }

    /** The states in which nothing is received any more. */
    method OnLast(i: nat, g: Segment, app: App)
      requires Valid() && i < CONNS && sent == None && called == None
      requires var s := conns[i].state; s.LastAck? || s.TimeWait? || s.Closing? || s.Closed?
      requires len == g.DataLen()
      modifies this`flags, this`slen, this`called, this`sent, acc32, conns, appdata
      ensures After(i, old(conns[..]), old(slen), InSequence(old(conns[i]), old(flags.ackdata), g, old(appdata[..]), app), app)
    {
      match conns[i].state
      case LastAck =>
        if flags.ackdata {
          conns[i] := conns[i].(state := Closed, stopped := false);
          flags := QUIET.(close := true);
          Appcall(i, app);
        }
      case TimeWait => TcpSend(i, ACK, false, 0);
      case Closing =>
        if flags.ackdata {
          conns[i] := conns[i].(state := TimeWait, stopped := false, timer := 0);
        }
      case _ =>
    }

    /** Label found: a segment for connection i. */
    method Found(i: nat, g: Segment, app: App)
      requires Valid() && i < CONNS && sent == None && called == None
      modifies this`flags, this`len, this`slen, this`called, this`sent, acc32, conns, appdata
      ensures After(i, old(conns[..]), old(slen), Input(old(conns[i]), g, old(appdata[..]), app), app)
    {
      flags := QUIET;
      if g.ctl.rst {
        return;
      }
      len := g.DataLen();
      if !(conns[i].state.SynSent? && g.ctl == SYN_ACK) {
        if (len > 0 || g.ctl.syn || g.ctl.fin) && g.seqno != conns[i].rcvNxt {
          TcpSend(i, ACK, false, 0);
          return;
        }
      }
      CheckAck(i, g);
      InState(i, g, app);
    }

    /** The switch over the connection states. */
    method InState(i: nat, g: Segment, app: App)
      requires Valid() && i < CONNS && sent == None && called == None
      requires flags == QUIET.(ackdata := flags.ackdata) && len == g.DataLen()
      modifies this`flags, this`len, this`slen, this`called, this`sent, acc32, conns, appdata
      ensures After(i, old(conns[..]), old(slen), InSequence(old(conns[i]), old(flags.ackdata), g, old(appdata[..]), app), app)
    {
      if conns[i].state.Established? {
        OnEstablishedState(i, g, app);
      } else if conns[i].state.SynRcvd? {
        OnSynRcvd(i, g, app);
      } else if conns[i].state.SynSent? {
        OnSynSent(i, g, app);
      } else if conns[i].state.FinWait1? {
        OnFinWait1(i, g, app);
      } else if conns[i].state.FinWait2? {
        OnFinWait2(i, g, app);
      } else {
        OnLast(i, g, app);
      }
    }

    method OnGiveUp(i: nat, app: App)
      requires Valid() && i < CONNS && sent == None && len == 0
      modifies this`flags, this`slen, this`called, this`sent, conns, appdata
      ensures var c := old(conns[i]).(state := Closed, stopped := false);
              var call := CallFor(c, QUIET.(timedout := true), 0, old(appdata[..]));
              var c1 := c.(stopped := app(call).stopped);
              After(i, old(conns[..]), old(slen), Step(c1, Some(call), Bare(c1, RST_ACK)), app)
    {
      conns[i] := conns[i].(state := Closed, stopped := false);
      flags := QUIET.(timedout := true);
      Appcall(i, app);
      TcpSend(i, RST_ACK, false, 0);
    }

    /** The retransmission timer of connection i ran out. */
    method OnExpiry(i: nat, app: App)
      requires Valid() && i < CONNS && sent == None && called == None
      requires len == 0 && slen == 0 && conns[i].timer == 0xff
      modifies this`flags, this`slen, this`called, this`sent, conns, appdata
      ensures After(i, old(conns[..]), old(slen), Expired(old(conns[i]).(timer := 0), old(appdata[..]), app), app)
    {
      var c := conns[i];
      if c.nrtx == MAXRTX || ((c.Is(SynSent) || c.Is(SynRcvd)) && c.nrtx == MAXSYNRTX) {
        OnGiveUp(i, app);
        return;
      }
      conns[i] := conns[i].(timer := Backoff(c.nrtx), nrtx := (c.nrtx as int + 1) % 0x100);
      match conns[i].state
      case SynRcvd => TcpSend(i, SYN_ACK, true, 0);
      case SynSent => TcpSend(i, SYN, true, 0);
      case Established => Rexmit(i, app);
      case FinWait1 => TcpSend(i, FIN_ACK, false, 0);
      case Closing => TcpSend(i, FIN_ACK, false, 0);
      case LastAck => TcpSend(i, FIN_ACK, false, 0);
      case _ =>
    }

    /** Label apprexmit after asking the application for its data again. */
    method Rexmit(i: nat, app: App)
      requires Valid() && i < CONNS && sent == None && len == 0 && slen == 0
      modifies this`flags, this`slen, this`called, this`sent, conns, appdata
      ensures var call := CallFor(old(conns[i]), QUIET.(rexmit := true), 0, old(appdata[..]));
              var r := app(call);
              var c := old(conns[i]).(stopped := r.stopped);
              After(i, old(conns[..]), old(slen), Step(c, Some(call), AppRexmit(c, |r.data|, r, old(appdata[..]))), app)
    {
      flags := QUIET.(rexmit := true);
      ghost var area := appdata[..];
      Appcall(i, app);
      ApprexmitLabel(i, app(called.value), area);
    }

    /** uip_periodic(i), which is uip_process(UIP_TIMER) for connection i. */
    method Periodic(i: nat, app: App)
      requires Valid() && i < CONNS
      modifies this, iss, conns, appdata
      ensures Valid()
      ensures var e := Event.Tick(i, old(appdata[..]), app);
              && Result(View(), called, sent) == Next(old(View()), e)
              && slen == SlenNext(old(View()), old(slen), e)
    {
      sent, called := None, None;
      Carry(iss, 3);
      PlusIs(iss[..], old(iss[..]), 1);
      len, slen := 0, 0;
      OnTimer(i, app);
      flags := QUIET;
    }

    /** The UIP_TIMER branch of uip_process after the lengths are reset. */
    method OnTimer(i: nat, app: App)
      requires Valid() && i < CONNS && sent == None && called == None
      requires len == 0 && slen == 0
      modifies this`flags, this`slen, this`called, this`sent, conns, appdata
      ensures After(i, old(conns[..]), old(slen), Timer(old(conns[i]), old(appdata[..]), app), app)
    {
      var c := conns[i];
      if c.Is(TimeWait) || c.Is(FinWait2) {
        conns[i] := conns[i].(timer := (c.timer as int + 1) % 0x100);
        if conns[i].timer == TIME_WAIT_TIMEOUT {
          conns[i] := conns[i].(state := Closed);
        }
      } else if !c.Is(Closed) {
        if c.len != 0 {
          conns[i] := conns[i].(timer := (c.timer as int - 1) % 0x100);
          if c.timer == 0 {
            OnExpiry(i, app);
          }
        } else if c.state.Established? {
          flags := QUIET.(poll := true);
          AppcallAndSend(i, app);
        }
      }
    }

    /** uip_poll_conn, which leaves uip_len and uip_slen as they were. */
    method PollConn(i: nat, app: App)
      requires Valid() && i < CONNS
      modifies this, conns, appdata
      ensures Valid()
      ensures var e := PollRequest(i, old(len), old(slen), old(appdata[..]), app);
              && Result(View(), called, sent) == Next(old(View()), e)
              && slen == SlenNext(old(View()), old(slen), e)
    {
      sent, called := None, None;
      if conns[i].state.Established? && conns[i].len == 0 {
        flags := QUIET.(poll := true);
        AppcallAndSend(i, app);
      }
      flags := QUIET;
    }

    /** The search for a slot: an unused one, or the oldest in TIME_WAIT. */
    method FindSlot() returns (slot: Option<nat>)
      requires Valid()
      ensures slot == Pick(conns[..])
    {
      slot := None;
      var c := 0;
      while c < CONNS
        invariant 0 <= c <= CONNS
        invariant slot.Some? ==> slot.value < CONNS
        invariant PickFrom(conns[..], c, slot) == Pick(conns[..])
      {
        if conns[c].Is(Closed) {
          return Some(c);
        }
        if conns[c].Is(TimeWait) {
          if slot.None? || conns[c].timer > conns[slot.value].timer {
            slot := Some(c);
          }
        }
        c := c + 1;
      }
    }

    /** Find an unused local port: the loop through label `again` of uip_connect. */
    method ChoosePort()
      requires Valid() && 1024 <= lastport < 32000
      modifies this`lastport
      ensures FreePort(conns[..], old(lastport), CONNS + 1) == Some(lastport)
    {
      ghost var tries: nat := CONNS + 1;
      PortSearchEnds(conns[..], lastport);
      while true
        invariant 0 <= tries
        invariant FreePort(conns[..], lastport, tries) == FreePort(conns[..], old(lastport), CONNS + 1)
        invariant FreePort(conns[..], lastport, tries).Some?
        decreases tries
      {
        lastport := (lastport as int + 1) % TWO16;
        if lastport >= 32000 {
          lastport := 4096;
        }
        var busy := PortInUse();
        if !busy {
          return;
        }
        tries := tries - 1;
      }
    }

    /** uip_connect; returns the slot, or none where the source returns a null pointer. */
    method ConnectTo(ripaddr: IpAddr, rport: U16) returns (slot: Option<nat>)
      requires Valid() && 1024 <= lastport < 32000
      modifies this`lastport, conns
      ensures (View(), slot) == OnConnect(old(View()), ripaddr, rport)
    {
      ChoosePort();
      slot := FindSlot();
      if slot.Some? {
        var c := conns[slot.value];
        conns[slot.value] := Conn(ripaddr, Htons(lastport), rport, c.rcvNxt, iss[..], 1, TCP_MSS, TCP_MSS,
                                  0, 16, RTO, SynSent, false, 1, 0);
      }
    }

    method PortInUse() returns (busy: bool)
      requires Valid()
      ensures busy == PortBusy(conns[..], lastport)
    {
      var c := 0;
      while c < CONNS
        invariant 0 <= c <= CONNS
        invariant forall j :: 0 <= j < c ==> !(Active(conns[j]) && conns[j].lport == Htons(lastport))
      {
        if !conns[c].Is(Closed) && conns[c].lport == Htons(lastport) {
          assert conns[..][c] == conns[c];
          return true;
        }
        c := c + 1;
      }
      return false;
    }

    /** uip_process(UIP_DATA) from label tcp_input on, the checksum having been found good. */
    method TcpInput(g: Segment, app: App)
      requires Valid()
      modifies this, acc32, conns, appdata
      ensures Valid()
      ensures var e := Arrives(g, old(appdata[..]), app);
              && Result(View(), called, sent) == Next(old(View()), e)
              && slen == SlenNext(old(View()), old(slen), e)
    {
      sent, called := None, None;
      var i := FindConn(g);
      if i < CONNS {
        Found(i, g, app);
        flags := QUIET;
        return;
      }
      var listening := false;
      if g.ctl == SYN {
        listening := Listening(g.destPort);
      }
      if listening {
        FoundListen(g);
      } else if !g.ctl.rst {
        SendReset(g);
      }
      flags := QUIET;
    }

    /** The connection that a segment belongs to, if there is one. */
    method FindConn(g: Segment) returns (i: nat)
      requires Valid()
      ensures i == Demux(conns[..], g, 0)
    {
      i := 0;
      while i < CONNS
        invariant 0 <= i <= CONNS
        invariant Demux(conns[..], g, i) == Demux(conns[..], g, 0)
      {
        var c := conns[i];
        if !c.Is(Closed) && g.destPort == c.lport && g.srcPort == c.rport && g.srcIp == c.ripaddr {
          return;
        }
        i := i + 1;
      }
    }

    method Listening(port: U16) returns (yes: bool)
      requires Valid()
      ensures yes == (port in listenports[..])
    {
      var c := 0;
      while c < LISTENPORTS
        invariant 0 <= c <= LISTENPORTS
        invariant forall j :: 0 <= j < c ==> listenports[j] != port
      {
        if port == listenports[c] {
          return true;
        }
        c := c + 1;
      }
      return false;
    }

    /** Label found_listen: a connection for a SYN, answered by a SYN-ACK. */
    method FoundListen(g: Segment)
      requires Valid() && sent == None && called == None
      modifies this`sent, acc32, conns
      ensures var r := OnSyn(old(View()), g); View() == r.table && called == r.call && sent == r.frame
    {
      var slot := FindSlot();
      if slot.Some? {
        var i := slot.value;
        conns[i] := conns[i].(rto := RTO, timer := RTO, sa := 0, sv := 4, nrtx := 0,
                              lport := g.destPort, rport := g.srcPort, ripaddr := g.srcIp,
                              state := SynRcvd, stopped := false, sndNxt := iss[..], len := 1,
                              rcvNxt := g.seqno);
        AddRcvNxt(i, 1);
        TakeMss(i, g);
        assert conns[..] == old(conns[..])[i := Accept(old(conns[i]), g, iss[..])];
        TcpSend(i, SYN_ACK, true, 0);
      }
    }

    /** uip_listen */
    method ListenOn(port: U16)
      requires Valid()
      modifies listenports
      ensures View() == Next(old(View()), Listen(port)).table
    {
      ReplaceListenPort(0, port);
    }

    /** uip_unlisten */
    method StopListening(port: U16)
      requires Valid()
      modifies listenports
      ensures View() == Next(old(View()), Unlisten(port)).table
    {
      ReplaceListenPort(port, 0);
    }

    /** Their loop: the first entry equal to `from` becomes `to`. */
    method ReplaceListenPort(from: U16, to: U16)
      requires Valid()
      modifies listenports
      ensures listenports[..] == ReplaceFirst(old(listenports[..]), from, to, 0)
    {
      var c := 0;
      while c < LISTENPORTS
        invariant 0 <= c <= LISTENPORTS
        invariant listenports[..] == old(listenports[..])
        invariant ReplaceFirst(listenports[..], from, to, c) == ReplaceFirst(old(listenports[..]), from, to, 0)
      {
        if listenports[c] == from {
          listenports[c] := to;
          return;
        }
        c := c + 1;
      }
    }
  }

  lemma CarryStep(b: Bytes4, k: nat, x: U8)
    requires k < 4 && x == (b[k] as int + 1) % 0x100
    ensures (if x == 0 && k > 0 then Value(b[k := x]) + Weight(k - 1) else Value(b[k := x])) % TWO32
            == (Value(b) + Weight(k)) % TWO32
    ensures x != 0 || k == 0 ==> Value(b[k := x]) == (Value(b) + Weight(k)) % TWO32
  {
    CarryValue(b, k, x);
    CarryOut(k);
    ModOf(Value(b[k := x]));
  }

  lemma CarryValue(b: Bytes4, k: nat, x: U8)
    requires k < 4 && x == (b[k] as int + 1) % 0x100
    ensures Value(b) + Weight(k) == Value(b[k := x]) + if x == 0 then 0x100 * Weight(k) else 0
  {
    ValueOfUpdate(b, k, x);
    if x == 0 {
      assert b[k] == 0xff;
    } else {
      assert x as int - b[k] == 1;
    }
  }

  lemma ModOf(v: nat)
    requires v < TWO32
    ensures v % TWO32 == v && (v + TWO32) % TWO32 == v
  {}

  lemma CarryOut(k: nat)
    requires k < 4
    ensures 0x100 * Weight(k) == if k == 0 then TWO32 else Weight(k - 1)
  {}

  function BytewiseSum(a: Bytes4, n: U16): Bytes4 {
    [a[0], a[1], (a[2] as int + n / 0x100) % 0x100, (a[3] as int + n % 0x100) % 0x100]
  }

  predicate CarryTo(r: Bytes4, carry: bool, weight: nat, s: Bytes4) {
    if carry then Value(s) == (Value(r) + weight) % TWO32 else s == r
  }

  /** Adding bytewise and then the carries out of bytes 2 and 3 is addition modulo 2^32. */
  lemma AddBytes(a: Bytes4, n: U16, r: Bytes4, s: Bytes4)
    requires CarryTo(BytewiseSum(a, n), BytewiseSum(a, n)[2] < n / 0x100, 0x1_0000, r)
    requires CarryTo(r, BytewiseSum(a, n)[3] < n % 0x100, 0x100, s)
    ensures s == Plus(a, n)
  {
    var b := BytewiseSum(a, n);
    var c2 := if b[2] < n / 0x100 then 0x1_0000 else 0;
    var c3 := if b[3] < n % 0x100 then 0x100 else 0;
    BytewiseSumValue(a, n);
    ModSum(Value(b), c2, c3);
    PlusIs(s, a, n);
  }

  lemma BytewiseSumValue(a: Bytes4, n: U16)
    ensures var r := BytewiseSum(a, n);
            Value(a) + n == Value(r) + (if r[2] < n / 0x100 then 0x1_0000 else 0)
                                     + (if r[3] < n % 0x100 then 0x100 else 0)
  {}

  lemma ModSum(x: nat, y: nat, z: nat)
    ensures ((x + y) % TWO32 + z) % TWO32 == (x + y + z) % TWO32
  {}
}
