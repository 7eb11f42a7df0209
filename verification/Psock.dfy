/**
 Protosockets: psock_send and psock_readto as the protothreads they are, each call
 running from the stored continuation to the next wait.
 */
module Psock {
  import opened Words
  import opened Tcp

  datatype State = NoState | Acked | Read | BlockedNewdata | BlockedClose | BlockedSend | DataSent

  /** What a protothread call returns. */
  datatype Pt = Waiting | Exited | Ended

  // ----- psock_send -----

  /**
   The sending half of struct psock. `sendptr` is the distance of the pointer from the start of
   the caller's buffer; `waiting` says that psockpt is at line 207 rather than at the start.
   */
  datatype Sender = Sender(state: State, sendptr: nat, sendlen: U16, waiting: bool)

  /** A sender's new state, the protothread's result and the bytes it gave to uip_send, if any. */
  datatype SendResult = SendResult(sender: Sender, pt: Pt, data: Bytes)

  predicate Acknowledged(s: Sender, call: AppCall) {
    s.state.DataSent? && call.sig.ackdata
  }

  /** data_acked */
  function DataAcked(s: Sender, call: AppCall): Sender {
    if !Acknowledged(s, call) then s
    else if s.sendlen > call.mss then
      s.(sendlen := s.sendlen - call.mss, sendptr := s.sendptr + call.mss, state := Acked)
    else s.(sendptr := s.sendptr + s.sendlen, sendlen := 0, state := Acked)
  }

  predicate MaySend(s: Sender, call: AppCall) {
    !s.state.DataSent? || call.sig.rexmit
  }

  /** The bytes send_data passes to uip_send. */
  function Offer(s: Sender, msg: Bytes, call: AppCall): Bytes
    requires s.sendptr + s.sendlen <= |msg|
  {
    if MaySend(s, call) then msg[s.sendptr..s.sendptr + Min(s.sendlen, call.mss)] else []
  }

  predicate Within(s: Sender, msg: Bytes) {
    s.sendptr + s.sendlen <= |msg|
  }

  /**
   One evaluation of the wait condition data_acked(s) & send_data(s), both operands, left to
   right; uip_send keeps the last bytes it was given. Ended means that the wait is over.
   */
  function SendTurn(s: Sender, msg: Bytes, call: AppCall, data: Bytes): (r: SendResult)
    requires Within(s, msg) && s.sendlen > 0
    ensures Within(r.sender, msg) && r.sender.waiting
    ensures r.pt.Ended? && call.mss > 0 ==> r.sender.sendlen < s.sendlen
  {
    var s1 := DataAcked(s, call);
    var offer := Offer(s1, msg, call);
    SendResult(s1.(state := if MaySend(s1, call) then DataSent else s1.state, waiting := true),
               if Acknowledged(s, call) && MaySend(s1, call) then Ended else Waiting,
               if offer == [] then data else offer)
  }

  /** What the loop of psock_send relies on, and what every callback of the stack has: see module Mss. */
  predicate Bounded(call: AppCall) {
    call.mss > 0 || !call.sig.ackdata
  }

  /** The loop of psock_send in one call. */
  function SendLoop(s: Sender, msg: Bytes, call: AppCall, data: Bytes): (r: SendResult)
    requires Within(s, msg) && Bounded(call)
    ensures r.pt.Waiting? <==> r.sender.waiting
    ensures r.pt.Waiting? ==> Within(r.sender, msg)
    decreases s.sendlen
  {
    if s.sendlen == 0 then SendResult(s.(state := NoState, waiting := false), Ended, data)
    else
      var turn := SendTurn(s, msg, call, data);
      if turn.pt.Waiting? then turn else SendLoop(turn.sender, msg, call, turn.data)
  }

  lemma TurnFromStart(s: Sender, msg: Bytes, call: AppCall, data: Bytes)
    requires Within(s, msg) && s.sendlen > 0
    ensures SendTurn(s, msg, call, data) == SendTurn(s.(waiting := true), msg, call, data)
  {}

  /** psock_send(s, msg, |msg|) during the callback `call`. */
  function Send(s: Sender, msg: Bytes, call: AppCall): (r: SendResult)
    requires s.waiting ==> Within(s, msg)
    requires Bounded(call)
    ensures r.pt.Waiting? <==> r.sender.waiting
    ensures r.pt.Waiting? ==> Within(r.sender, msg)
  {
    if s.waiting then SendLoop(s, msg, call, [])
    else if msg == [] then SendResult(s, Exited, [])
    else SendLoop(Sender(NoState, 0, |msg| % TWO16, false), msg, call, [])
  }

  // ----- psock_readto -----

  /**
   The reading half of struct psock. `readptr` is the distance of the pointer from uip_appdata;
   `stored` the bytes put into the caller's buffer so far and `left` the room left in it;
   `waiting` says that psockpt is at line 283 rather than at the start.
   */
  datatype Reader = Reader(state: State, readptr: nat, readlen: U16, stored: Bytes, left: U16, waiting: bool)

  /** buf_bufto on the unread bytes: the new store and room, how much was read, whether the marker was. */
  datatype BufResult = BufResult(stored: Bytes, left: U16, read: nat, found: bool)

  /** The place of the first x in data, or |data|. */
  function First(x: U8, data: Bytes): (q: nat)
    ensures q <= |data|
    ensures q < |data| ==> data[q] == x
    ensures forall j :: 0 <= j < q ==> data[j] != x
    decreases |data|
  {
    if data == [] || data[0] == x then 0 else First(x, data[1..]) + 1
  }

  lemma FirstIs(x: U8, data: Bytes, k: nat)
    requires k <= |data| && x !in data[..k] && (k < |data| ==> data[k] == x)
    ensures First(x, data) == k
  {
  }

  /** Read through the first marker; of what is read, as much as there is room for is stored. */
  function BufTo(stored: Bytes, left: U16, marker: U8, data: Bytes): (r: BufResult)
    ensures r.read <= |data|
  {
    var q := First(marker, data);
    var read := Min(q + 1, |data|);
    BufResult(stored + data[..Min(left, read)], left - Min(left, read), read, q < |data|)
  }

  /** The first n bytes were searched: the last of them is the first marker, or there is none. */
  predicate Scanned(data: Bytes, marker: U8, n: nat, found: bool) {
    && n <= |data|
    && if found then n > 0 && data[n - 1] == marker && marker !in data[..n - 1] else marker !in data[..n]
  }

  /** n bytes of `data` are stored and m read. */
  function Taken(r: Reader, data: Bytes, n: nat, m: nat): Reader
    requires n <= |data| && n <= r.left && m <= r.readlen
  {
    r.(stored := r.stored + data[..n], left := r.left - n, readptr := r.readptr + m, readlen := r.readlen - m)
  }

  /** Both loops of buf_bufto together. */
  lemma BothLoops(r: Reader, marker: U8, data: Bytes, n: nat, m: nat, found: bool)
    requires |data| == r.readlen && Scanned(data, marker, m, found) && (found || m == |data|) && n == Min(r.left, m)
    ensures var b := BufTo(r.stored, r.left, marker, data);
            b.read <= r.readlen && b.found == found && Taken(r, data, n, m) == Buffered(r, b)
  {
    FirstIs(marker, data, if found then m - 1 else m);
  }

  datatype ReadResult = ReadResult(reader: Reader, pt: Pt)

  predicate Readable(r: Reader, call: AppCall) {
    call.dataLen <= |call.area| && r.readptr + r.readlen <= |call.area|
  }

  /** After PT_WAIT_UNTIL: the packet in uip_appdata becomes the unread data. */
  function Fetched(r: Reader, call: AppCall): Reader {
    r.(state := Read, readptr := 0, readlen := call.dataLen, waiting := true)
  }

  function Buffered(r: Reader, b: BufResult): Reader
    requires b.read <= r.readlen
  {
    r.(stored := b.stored, left := b.left, readptr := r.readptr + b.read, readlen := r.readlen - b.read)
  }

  function Unread(r: Reader, call: AppCall): Bytes
    requires Readable(r, call)
  {
    call.area[r.readptr..r.readptr + r.readlen]
  }

  /** The next byte the loops look at. */
  lemma NextByte(r: Reader, call: AppCall, marker: U8, data: Bytes, n: nat, m: nat)
    requires Readable(r, call) && data == Unread(r, call) && n <= m < |data| && n <= r.left
    requires Scanned(data, marker, m, false)
    ensures var r1 := Taken(r, data, n, m);
            && r1.readlen > 0 && call.area[r1.readptr] == data[m]
            && Taken(r, data, n, m + 1) == r1.(readptr := r1.readptr + 1, readlen := r1.readlen - 1)
    ensures Scanned(data, marker, m + 1, data[m] == marker)
  {
    assert data[..m + 1] == data[..m] + [data[m]];
  }

  lemma NextStored(r: Reader, data: Bytes, n: nat)
    requires n < |data| == r.readlen && n < r.left
    ensures var r1 := Taken(r, data, n, n);
            Taken(r, data, n + 1, n + 1) == r1.(stored := r1.stored + [data[n]], left := r1.left - 1,
                                                readptr := r1.readptr + 1, readlen := r1.readlen - 1)
  {
    assert data[..n + 1] == data[..n] + [data[n]];
    assert r.stored + data[..n + 1] == r.stored + data[..n] + [data[n]];
  }

  datatype TurnResult = Blocked(reader: Reader) | Continue(reader: Reader) | Found(reader: Reader)

  /** One turn of the do-while loop of psock_readto, entered at its top or at the wait. */
  function ReadTurn(r: Reader, marker: U8, call: AppCall): (t: TurnResult)
    requires Readable(r, call)
    ensures t.Continue? ==> t.reader.readlen == 0 && Readable(t.reader, call) &&
                            (if r.readlen == 0 then t.reader.state.Read? else t.reader.state == r.state)
  {
    if r.readlen == 0 && r.state.Read? then Blocked(r.(state := BlockedNewdata, waiting := true))
    else if r.readlen == 0 && !call.sig.newdata then Blocked(r.(waiting := true))
    else
      var r1 := if r.readlen == 0 then Fetched(r, call) else r;
      var b := BufTo(r1.stored, r1.left, marker, Unread(r1, call));
      if b.found then Found(Buffered(r1, b)) else Continue(Buffered(r1, b))
  }

  function ReadLoop(r: Reader, bufsize: U16, marker: U8, call: AppCall): ReadResult
    requires Readable(r, call)
    decreases (if r.readlen > 0 then 1 else 0) + (if r.state.Read? then 0 else 2)
  {
    match ReadTurn(r, marker, call)
    case Blocked(r1) => ReadResult(r1, Waiting)
    case Continue(r1) => ReadLoop(r1, bufsize, marker, call)
    case Found(r1) => EndRead(r1, bufsize)
  }

  /** The end of psock_readto, which starts over if nothing could be stored. */
  function EndRead(r: Reader, bufsize: U16): ReadResult {
    if bufsize == r.left then ReadResult(r.(state := NoState, waiting := false), Waiting)
    else ReadResult(r.(waiting := false), Ended)
  }

  /** psock_readto(psock, marker) during the callback `call`, into a buffer of bufsize bytes. */
  function ReadTo(r: Reader, bufsize: U16, marker: U8, call: AppCall): ReadResult
    requires Readable(r, call)
  {
    ReadLoop(if r.waiting then r else r.(stored := [], left := bufsize), bufsize, marker, call)
  }

  // ----- The protosocket in place -----

  class Psock {
    var state: State
    var psockpt: nat          // 0, or the line the protothread waits at
    var sendptr: nat
    var sendlen: U16
    var readptr: nat
    var readlen: U16
    const bufptr: array<U8>
    var left: U16             // buf.left; buf.ptr is bufptr + (bufsize - left)

    ghost predicate Valid()
      reads this
    {
      && bufptr.Length < TWO16 && left <= bufptr.Length
      && (psockpt == 0 || psockpt == 207 || psockpt == 283)
    }

    ghost function AsSender(): Sender
      reads this
    {
      Sender(state, sendptr, sendlen, psockpt == 207)
    }

    ghost function AsReader(): Reader
      requires Valid()
      reads this, bufptr
    {
      Reader(state, readptr, readlen, Stored(), left, psockpt == 283)
    }

    /** What the buffer holds so far. */
    ghost function Stored(): Bytes
      requires left <= bufptr.Length
      reads this`left, bufptr
    {
      bufptr[..bufptr.Length - left]
    }

    /** psock_init */
    constructor (buffer: array<U8>)
      requires buffer.Length < TWO16
      ensures Valid() && bufptr == buffer && state == NoState && readlen == 0 && psockpt == 0
    {
      state, readlen, bufptr, left := NoState, 0, buffer, buffer.Length;
      psockpt, sendptr, sendlen, readptr := 0, 0, 0, 0;
    }

    /** psock_send; `data` is what uip_send was given last. */
    method SendBuf(msg: Bytes, call: AppCall) returns (pt: Pt, data: Bytes)
      requires Valid() && psockpt != 283
      requires psockpt == 207 ==> Within(AsSender(), msg)
      requires Bounded(call)
      modifies this`state, this`psockpt, this`sendptr, this`sendlen
      ensures Valid()
      ensures SendResult(AsSender(), pt, data) == Send(old(AsSender()), msg, call)
    {
      data := [];
      if psockpt == 0 {
        if |msg| == 0 {
          return Exited, [];
        }
        sendptr, sendlen := 0, |msg| % TWO16;
        state := NoState;
      }
      while sendlen > 0
        invariant Valid() && psockpt != 283 && Within(AsSender(), msg)
        invariant SendLoop(AsSender(), msg, call, data) == Send(old(AsSender()), msg, call)
        decreases sendlen
      {
        TurnFromStart(AsSender(), msg, call, data);
        psockpt := 207;
        pt, data := WaitCondition(msg, call, data);
        if pt.Waiting? {
          return;
        }
      }
      state := NoState;
      psockpt := 0;
      return Ended, data;
    }

    /** The condition psock_send waits for: both of its functions are called, whatever the first gives. */
    method WaitCondition(msg: Bytes, call: AppCall, before: Bytes) returns (pt: Pt, data: Bytes)
      requires Within(AsSender(), msg) && sendlen > 0 && psockpt == 207
      modifies this`state, this`sendptr, this`sendlen
      ensures SendResult(AsSender(), pt, data) == SendTurn(old(AsSender()), msg, call, before)
    {
      var acked := PsockDataAcked(call);
      var sending, bytes := PsockSendData(msg, call);
      data := if bytes == [] then before else bytes;
      pt := if acked && sending then Ended else Waiting;
    }

    /** data_acked */
    method PsockDataAcked(call: AppCall) returns (acked: bool)
      modifies this`state, this`sendptr, this`sendlen
      ensures AsSender() == DataAcked(old(AsSender()), call) && acked == Acknowledged(old(AsSender()), call)
    {
      acked := false;
      if state == DataSent && call.sig.ackdata {
        if sendlen > call.mss {
          sendlen := sendlen - call.mss;
          sendptr := sendptr + call.mss;
        } else {
          sendptr := sendptr + sendlen;
          sendlen := 0;
        }
        state := Acked;
        return true;
      }
    }

    /** send_data */
    method PsockSendData(msg: Bytes, call: AppCall) returns (sending: bool, bytes: Bytes)
      requires Within(AsSender(), msg)
      modifies this`state
      ensures bytes == Offer(old(AsSender()), msg, call) && sending == MaySend(old(AsSender()), call)
      ensures AsSender() == old(AsSender()).(state := if sending then DataSent else old(state))
    {
      sending, bytes := false, [];
      if state != DataSent || call.sig.rexmit {
        var n := if sendlen > call.mss then call.mss else sendlen;
        bytes := msg[sendptr..sendptr + n];
        state := DataSent;
        sending := true;
      }
    }

    /** psock_newdata */
    method NewData(call: AppCall) returns (yes: bool)
      modifies this`state
      ensures yes == (readlen > 0 || (!old(state).Read? && call.sig.newdata))
      ensures state == if readlen == 0 && old(state).Read? then BlockedNewdata else old(state)
    {
      if readlen > 0 {
        return true;
      } else if state == Read {
        state := BlockedNewdata;
        return false;
      } else {
        return call.sig.newdata;
      }
    }

    /** buf_bufto: fill the buffer up to the marker, then go on without storing. */
    method BufBufto(marker: U8, call: AppCall, ghost r: Reader) returns (found: bool)
      requires Valid() && r == AsReader() && Readable(r, call)
      modifies this`readptr, this`readlen, this`left, bufptr
      ensures Valid()
      ensures var b := BufTo(r.stored, r.left, marker, Unread(r, call));
              b.read <= r.readlen && AsReader() == Buffered(r, b) && found == b.found
    {
      ghost var data := Unread(r, call);
      ghost var n, m;
      found, n := Fill(marker, call, r, data);
      found, m := Skip(found, marker, call, r, data, n);
      BothLoops(r, marker, data, n, m, found);
    }

    /** The first loop of buf_bufto. */
    method Fill(marker: U8, call: AppCall, ghost r: Reader, ghost data: Bytes) returns (found: bool, ghost n: nat)
      requires Valid() && r == AsReader() && Readable(r, call) && data == Unread(r, call)
      modifies this`readptr, this`readlen, this`left, bufptr
      ensures Valid() && n <= |data| && n <= r.left && AsReader() == Taken(r, data, n, n)
      ensures Scanned(data, marker, n, found) && (found || n == r.left || n == |data|)
    {
      n := 0;
      assert Taken(r, data, 0, 0) == r;
      while left > 0 && readlen > 0
        invariant Valid() && n <= |data| && n <= r.left && AsReader() == Taken(r, data, n, n)
        invariant Scanned(data, marker, n, false)
        decreases readlen
      {
        var c := call.area[readptr];
        NextByte(r, call, marker, data, n, n);
        NextStored(r, data, n);
        StoreByte(c);
        n := n + 1;
        if c == marker {
          return true, n;
        }
      }
      return false, n;
    }

    /** A byte from the packet into the buffer. */
    method StoreByte(c: U8)
      requires Valid() && left > 0 && readlen > 0
      modifies this`readptr, this`readlen, this`left, bufptr
      ensures Valid()
      ensures var r := old(AsReader());
              AsReader() == r.(stored := r.stored + [c], left := r.left - 1, readptr := r.readptr + 1,
                               readlen := r.readlen - 1)
    {
      bufptr[bufptr.Length - left] := c;
      readptr := readptr + 1;
      readlen := readlen - 1;
      left := left - 1;
    }

    /** The second loop of buf_bufto, unless the marker was found. */
    method Skip(found0: bool, marker: U8, call: AppCall, ghost r: Reader, ghost data: Bytes, ghost n: nat)
      returns (found: bool, ghost m: nat)
      requires Valid() && Readable(r, call) && data == Unread(r, call)
      requires n <= |data| && n <= r.left && AsReader() == Taken(r, data, n, n) && Scanned(data, marker, n, found0)
      modifies this`readptr, this`readlen
      ensures Valid() && n <= m <= |data| && AsReader() == Taken(r, data, n, m)
      ensures Scanned(data, marker, m, found) && (if found0 then m == n && found else found || m == |data|)
    {
      m := n;
      if found0 {
        return true, m;
      }
      while readlen > 0
        invariant Valid() && n <= m <= |data| && AsReader() == Taken(r, data, n, m)
        invariant Scanned(data, marker, m, false)
        decreases readlen
      {
        var c := call.area[readptr];
        NextByte(r, call, marker, data, n, m);
        readlen := readlen - 1;
        readptr := readptr + 1;
        m := m + 1;
        if c == marker {
          return true, m;
        }
      }
      return false, m;
    }

    /** One turn of the loop of psock_readto. */
    method Turn(marker: U8, call: AppCall) returns (blocked: bool, found: bool)
      requires Valid() && psockpt != 207 && Readable(AsReader(), call)
      requires psockpt == 283 ==> readlen == 0
      modifies this`state, this`psockpt, this`readptr, this`readlen, this`left, bufptr
      ensures Valid() && psockpt != 207 && (blocked || !found ==> readlen == 0)
      ensures (if blocked then Blocked(AsReader()) else if found then Found(AsReader()) else Continue(AsReader()))
              == ReadTurn(old(AsReader()), marker, call)
    {
      if readlen == 0 {
        psockpt := 283;
        var yes := NewData(call);
        if !yes {
          return true, false;
        }
        state, readptr, readlen := Read, 0, call.dataLen;
      }
      blocked := false;
      ghost var r1 := AsReader();
      assert r1 == if old(readlen) == 0 then Fetched(old(AsReader()), call) else old(AsReader());
      found := BufBufto(marker, call, r1);
    }

    /** psock_readto */
    method ReadToMarker(marker: U8, call: AppCall) returns (pt: Pt)
      requires Valid() && psockpt != 207 && Readable(AsReader(), call)
      requires psockpt == 283 ==> readlen == 0
      modifies this`state, this`psockpt, this`readptr, this`readlen, this`left, bufptr
      ensures Valid() && (psockpt == 283 ==> readlen == 0)
      ensures ReadResult(AsReader(), pt) == ReadTo(old(AsReader()), bufptr.Length, marker, call)
    {
      if psockpt == 0 {
        left := bufptr.Length;
      }
      ghost var goal := ReadTo(old(AsReader()), bufptr.Length, marker, call);
      assert ReadLoop(AsReader(), bufptr.Length, marker, call) == goal;
      while true
        invariant Valid() && psockpt != 207 && Readable(AsReader(), call)
        invariant psockpt == 283 ==> readlen == 0
        invariant ReadLoop(AsReader(), bufptr.Length, marker, call) == goal
        decreases (if readlen > 0 then 1 else 0) + (if state.Read? then 0 else 2)
      {
        var blocked, found := Turn(marker, call);
        if blocked {
          return Waiting;
        }
        if found {
          break;
        }
      }
      pt := FinishRead();
    }

    method FinishRead() returns (pt: Pt)
      requires Valid()
      modifies this`state, this`psockpt
      ensures Valid() && psockpt == 0
      ensures ReadResult(AsReader(), pt) == EndRead(old(AsReader()), bufptr.Length)
    {
      psockpt := 0;
      if bufptr.Length - left == 0 {
        state := NoState;
        return Waiting;
      }
      return Ended;
    }
  }
}
