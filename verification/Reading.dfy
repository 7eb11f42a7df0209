/**
 psock_readto over whole sequences of callbacks: what it reads depends on the byte
 stream alone, not on how the stream was cut into packets.
 */
module Reading {
  import opened Words
  import opened Tcp
  import opened Psock

  /** A callback whose data lies within uip_buf. */
  predicate Sound(call: AppCall) {
    call.dataLen <= |call.area|
  }

  /** The new bytes a callback brings. */
  function Payload(call: AppCall): Bytes
    requires Sound(call)
  {
    if call.sig.newdata then call.area[..call.dataLen] else []
  }

  predicate AllSound(calls: seq<AppCall>) {
    forall k :: 0 <= k < |calls| ==> Sound(calls[k])
  }

  /** The bytes all callbacks bring, one after the other. */
  function Stream(calls: seq<AppCall>): Bytes
    requires AllSound(calls)
  {
    if calls == [] then [] else Payload(calls[0]) + Stream(calls[1..])
  }

  /** Where a run of psock_readto stands: over or not, and after how many callbacks. */
  datatype Outcome = Outcome(reader: Reader, ended: bool, used: nat)

  predicate InBuffer(r: Reader) {
    r.readptr + r.readlen <= TCP_MSS
  }

  /** psock_readto is scheduled in every callback until it ends. */
  function Run(r: Reader, bufsize: U16, marker: U8, calls: seq<AppCall>): (o: Outcome)
    requires AllSound(calls) && InBuffer(r)
    ensures o.used <= |calls|
    decreases |calls|
  {
    if calls == [] then Outcome(r, false, 0)
    else
      var res := ReadTo(r, bufsize, marker, calls[0]);
      if res.pt.Ended? then Outcome(res.reader, true, 1)
      else
        StaysInBuffer(if r.waiting then r else r.(stored := [], left := bufsize), bufsize, marker, calls[0]);
        var o := Run(res.reader, bufsize, marker, calls[1..]);
        o.(used := o.used + 1)
  }

  lemma StaysInBuffer(r: Reader, bufsize: U16, marker: U8, call: AppCall)
    requires InBuffer(r) && Sound(call)
    ensures InBuffer(ReadLoop(r, bufsize, marker, call).reader)
    decreases (if r.readlen > 0 then 1 else 0) + (if r.state.Read? then 0 else 2)
  {
    var t := ReadTurn(r, marker, call);
    if t.Continue? {
      StaysInBuffer(t.reader, bufsize, marker, call);
    }
  }

  /** psock_readto has consumed exactly `got`, found no marker in it, and has nothing unread. */
  predicate Midway(r: Reader, bufsize: U16, marker: U8, got: Bytes) {
    && r.readlen == 0 && r.readptr <= TCP_MSS && !r.state.Read?
    && marker !in got
    && r.stored == got[..Min(bufsize, |got|)] && r.left == bufsize - |r.stored|
  }

  /** psock_readto has consumed through the first marker in all, which ends at the place `end`. */
  predicate Done(r: Reader, bufsize: U16, marker: U8, all: Bytes, end: nat) {
    && 0 < end <= |all| && all[end - 1] == marker && marker !in all[..end - 1]
    && r.stored == all[..Min(bufsize, end)] && r.left == bufsize - |r.stored|
    && r.readlen == |all| - end && !r.waiting
  }

  lemma ReadPacket(r: Reader, bufsize: U16, marker: U8, got: Bytes, call: AppCall)
    requires Midway(r, bufsize, marker, got) && Sound(call) && call.sig.newdata
    ensures var p := Payload(call); var q := First(marker, p);
            var t := ReadTurn(r, marker, call);
            if q == |p| then
              && t.Continue? && t.reader.state.Read? && t.reader.readlen == 0
              && Midway(t.reader.(state := BlockedNewdata), bufsize, marker, got + p)
            else
              && t.Found? && t.reader.readptr == q + 1
              && Done(t.reader.(waiting := false), bufsize, marker, got + p, |got| + q + 1)
  {
    PacketTurn(r, marker, call);
    if marker in Payload(call) {
      StoredThrough(r, bufsize, marker, got, call);
    } else {
      StoredAll(r, bufsize, marker, got, call);
    }
  }

  /** The reader after buf_bufto on a new packet. */
  function Stored(r: Reader, marker: U8, call: AppCall): Reader
    requires Sound(call)
  {
    var r1 := Fetched(r, call);
    var p := call.area[..call.dataLen];
    Buffered(r1, BufTo(r1.stored, r1.left, marker, p))
  }

  lemma PacketTurn(r: Reader, marker: U8, call: AppCall)
    requires r.readlen == 0 && r.readptr <= TCP_MSS && !r.state.Read? && Sound(call) && call.sig.newdata
    ensures ReadTurn(r, marker, call)
         == if marker in Payload(call) then Found(Stored(r, marker, call)) else Continue(Stored(r, marker, call))
  {
    assert Unread(Fetched(r, call), call) == Payload(call);
    if marker in Payload(call) {
      FirstFound(marker, Payload(call));
    }
  }

  /** The marker is in this packet. */
  lemma StoredThrough(r: Reader, bufsize: U16, marker: U8, got: Bytes, call: AppCall)
    requires Midway(r, bufsize, marker, got) && Sound(call) && call.sig.newdata && marker in Payload(call)
    ensures var p, r2 := Payload(call), Stored(r, marker, call); var q := First(marker, p);
            q < |p| && r2.readptr == q + 1 && Done(r2.(waiting := false), bufsize, marker, got + p, |got| + q + 1)
  {
    var p := Payload(call);
    MarkerAfter(got, p, marker);
    StoreMore(got, p, bufsize, First(marker, p) + 1);
  }

  lemma MarkerAfter(got: Bytes, p: Bytes, marker: U8)
    requires marker !in got && marker in p
    ensures var q := First(marker, p);
            q < |p| && (got + p)[|got| + q] == marker && marker !in (got + p)[..|got| + q]
  {
    FirstFound(marker, p);
    var q := First(marker, p);
    assert (got + p)[..|got| + q] == got + p[..q];
    assert marker !in p[..q];
  }

  lemma FirstFound(x: U8, data: Bytes)
    requires x in data
    ensures First(x, data) < |data|
  {
    var j :| 0 <= j < |data| && data[j] == x;
    assert First(x, data) <= j;
  }

  /** The marker is not in it. */
  lemma StoredAll(r: Reader, bufsize: U16, marker: U8, got: Bytes, call: AppCall)
    requires Midway(r, bufsize, marker, got) && Sound(call) && call.sig.newdata && marker !in Payload(call)
    ensures var p, r2 := Payload(call), Stored(r, marker, call);
            && First(marker, p) == |p| && r2.state.Read? && r2.readlen == 0
            && Midway(r2.(state := BlockedNewdata), bufsize, marker, got + p)
  {
    StoreMore(got, Payload(call), bufsize, |Payload(call)|);
  }

  /** Storing the first `read` bytes of p after those of got, as far as there is room. */
  lemma StoreMore(got: Bytes, p: Bytes, bufsize: U16, read: nat)
    requires read <= |p|
    ensures var room := bufsize - Min(bufsize, |got|);
            got[..Min(bufsize, |got|)] + p[..Min(room, read)] == (got + p)[..Min(bufsize, |got| + read)]
  {}

  lemma OneCall(r: Reader, bufsize: U16, marker: U8, got: Bytes, call: AppCall)
    requires Midway(r, bufsize, marker, got) && Sound(call) && bufsize > 0
    ensures var res := ReadLoop(r, bufsize, marker, call);
            var p := Payload(call); var q := First(marker, p);
            if q == |p| then
              res.pt.Waiting? && res.reader.waiting && Midway(res.reader, bufsize, marker, got + p)
            else
              && res.pt.Ended? && res.reader.readptr == q + 1
              && Done(res.reader, bufsize, marker, got + p, |got| + q + 1)
  {
    if call.sig.newdata {
      ReadPacket(r, bufsize, marker, got, call);
      var t := ReadTurn(r, marker, call);
      if t.Continue? {
        assert ReadLoop(r, bufsize, marker, call) == ReadLoop(t.reader, bufsize, marker, call);
        assert ReadTurn(t.reader, marker, call) == Blocked(t.reader.(state := BlockedNewdata, waiting := true));
      }
    } else {
      assert got + [] == got;
    }
  }

  /** What a run from midway, having got `got`, comes to after the callbacks `calls`. */
  predicate Result(o: Outcome, bufsize: U16, marker: U8, got: Bytes, calls: seq<AppCall>)
    requires AllSound(calls) && o.used <= |calls|
  {
    var all := got + Stream(calls);
    if marker in all then
      var end := First(marker, all) + 1;
      && o.ended && o.used > 0
      && |got + Stream(calls[..o.used - 1])| < end
      && Done(o.reader, bufsize, marker, got + Stream(calls[..o.used]), end)
      && o.reader.readptr + o.reader.readlen == |Payload(calls[o.used - 1])|
    else !o.ended && o.used == |calls| && Midway(o.reader, bufsize, marker, all)
  }

  lemma {:induction false} RunFromMidway(r: Reader, bufsize: U16, marker: U8, got: Bytes, calls: seq<AppCall>)
    requires Midway(r, bufsize, marker, got) && r.waiting && bufsize > 0 && AllSound(calls)
    ensures Result(Run(r, bufsize, marker, calls), bufsize, marker, got, calls)
    decreases |calls|, 2
  {
    if calls == [] {
      assert got + Stream(calls) == got;
    } else {
      RunOneMore(r, bufsize, marker, got, calls);
    }
  }

  /** psock_readto from its start begins with an empty buffer. */
  function Begun(r: Reader, bufsize: U16): Reader {
    if r.waiting then r else r.(stored := [], left := bufsize)
  }

  /** The induction step, also for a reader that starts afresh. */
  lemma {:induction false} RunOneMore(r: Reader, bufsize: U16, marker: U8, got: Bytes, calls: seq<AppCall>)
    requires bufsize > 0 && calls != [] && AllSound(calls) && InBuffer(r)
    requires Midway(Begun(r, bufsize), bufsize, marker, got)
    ensures Result(Run(r, bufsize, marker, calls), bufsize, marker, got, calls)
    decreases |calls|, 1
  {
    if marker in Payload(calls[0]) {
      EndsNow(r, bufsize, marker, got, calls);
    } else {
      EndsLater(r, bufsize, marker, got, calls);
    }
  }

  lemma {:induction false} EndsNow(r: Reader, bufsize: U16, marker: U8, got: Bytes, calls: seq<AppCall>)
    requires bufsize > 0 && calls != [] && AllSound(calls) && InBuffer(r)
    requires Midway(Begun(r, bufsize), bufsize, marker, got) && marker in Payload(calls[0])
    ensures Result(Run(r, bufsize, marker, calls), bufsize, marker, got, calls)
  {
    OneCall(Begun(r, bufsize), bufsize, marker, got, calls[0]);
    RunStep(r, bufsize, marker, calls);
    FoundNow(ReadLoop(Begun(r, bufsize), bufsize, marker, calls[0]).reader, bufsize, marker, got, calls);
  }

  lemma {:induction false} EndsLater(r: Reader, bufsize: U16, marker: U8, got: Bytes, calls: seq<AppCall>)
    requires bufsize > 0 && calls != [] && AllSound(calls) && InBuffer(r)
    requires Midway(Begun(r, bufsize), bufsize, marker, got) && marker !in Payload(calls[0])
    ensures Result(Run(r, bufsize, marker, calls), bufsize, marker, got, calls)
    decreases |calls|, 0
  {
    OneCall(Begun(r, bufsize), bufsize, marker, got, calls[0]);
    RunStep(r, bufsize, marker, calls);
    var r1 := ReadLoop(Begun(r, bufsize), bufsize, marker, calls[0]).reader;
    RunFromMidway(r1, bufsize, marker, got + Payload(calls[0]), calls[1..]);
    FoundLater(Run(r1, bufsize, marker, calls[1..]), bufsize, marker, got, calls);
  }

  lemma RunStep(r: Reader, bufsize: U16, marker: U8, calls: seq<AppCall>)
    requires calls != [] && AllSound(calls) && InBuffer(r)
    ensures var res := ReadLoop(Begun(r, bufsize), bufsize, marker, calls[0]);
            if res.pt.Ended? then Run(r, bufsize, marker, calls) == Outcome(res.reader, true, 1)
            else InBuffer(res.reader) &&
                 var o := Run(res.reader, bufsize, marker, calls[1..]);
                 Run(r, bufsize, marker, calls) == o.(used := o.used + 1)
  {
    StaysInBuffer(if r.waiting then r else r.(stored := [], left := bufsize), bufsize, marker, calls[0]);
  }

  lemma FoundNow(r: Reader, bufsize: U16, marker: U8, got: Bytes, calls: seq<AppCall>)
    requires calls != [] && AllSound(calls) && marker !in got
    requires var p := Payload(calls[0]); var q := First(marker, p);
             q < |p| && r.readptr == q + 1 && Done(r, bufsize, marker, got + p, |got| + q + 1)
    ensures Result(Outcome(r, true, 1), bufsize, marker, got, calls)
  {
    MarkerInFirst(marker, got, calls);
    FirstCall(calls);
    assert got + Stream(calls[..0]) == got;
  }

  lemma MarkerInFirst(marker: U8, got: Bytes, calls: seq<AppCall>)
    requires calls != [] && AllSound(calls) && marker !in got && First(marker, Payload(calls[0])) < |Payload(calls[0])|
    ensures var all := got + Stream(calls);
            marker in all && First(marker, all) == |got| + First(marker, Payload(calls[0]))
  {
    Assoc(got, Payload(calls[0]), Stream(calls[1..]));
    FirstInMiddle(marker, got, Payload(calls[0]), Stream(calls[1..]));
  }

  lemma FirstCall(calls: seq<AppCall>)
    requires calls != [] && AllSound(calls)
    ensures Stream(calls[..0]) == [] && Stream(calls[..1]) == Payload(calls[0])
  {
    StreamOfOne(calls[0]);
    assert calls[..1] == [calls[0]];
  }

  lemma FirstInMiddle(x: U8, a: Bytes, b: Bytes, c: Bytes)
    requires x !in a && First(x, b) < |b|
    ensures First(x, a + b + c) == |a| + First(x, b) && x in a + b + c
  {
    var all, q := a + b + c, First(x, b);
    assert all[|a| + q] == b[q];
    assert all[..|a| + q] == a + b[..q];
    FirstIs(x, all, |a| + q);
  }

  lemma StreamOfOne(call: AppCall)
    requires Sound(call)
    ensures Stream([call]) == Payload(call)
  {
    assert [call][1..] == [];
  }

  lemma FoundLater(o: Outcome, bufsize: U16, marker: U8, got: Bytes, calls: seq<AppCall>)
    requires calls != [] && AllSound(calls) && o.used < |calls|
    requires Result(o, bufsize, marker, got + Payload(calls[0]), calls[1..])
    ensures Result(o.(used := o.used + 1), bufsize, marker, got, calls)
  {
    Assoc(got, Payload(calls[0]), Stream(calls[1..]));
    PrefixStream(got, calls, o.used);
    if o.used > 0 {
      PrefixStream(got, calls, o.used - 1);
    }
  }

  lemma PrefixStream(got: Bytes, calls: seq<AppCall>, n: nat)
    requires calls != [] && AllSound(calls) && n <= |calls| - 1
    ensures got + Stream(calls[..n + 1]) == (got + Payload(calls[0])) + Stream(calls[1..][..n])
  {
    assert calls[..n + 1][1..] == calls[1..][..n];
    Assoc(got, Payload(calls[0]), Stream(calls[1..][..n]));
  }

  /** The packet of the current callback counts only if it has not been read already. */
  function Offered(r: Reader, calls: seq<AppCall>): seq<AppCall>
    requires calls != []
  {
    if r.state.Read? then calls[1..] else calls
  }

  /**
   psock_readto, started with nothing unread, over any callbacks - packets cut anywhere,
   empty ones, polls in between: it ends exactly if the marker is in the stream of new
   bytes, in the callback that brings the first one; it has then stored the first
   min(bufsize, n) of the n bytes through that marker, and what is unread is the rest of
   that packet. Otherwise it has read all of the stream and stored what fits.
   */
  lemma ReadToIgnoresSegmentation(r: Reader, bufsize: U16, marker: U8, calls: seq<AppCall>)
    requires bufsize > 0 && calls != [] && AllSound(calls)
    requires r.readlen == 0 && r.readptr <= TCP_MSS && !r.waiting
    ensures var offered := Offered(r, calls);
            var o := Run(r, bufsize, marker, calls);
            && |calls| - |offered| <= o.used
            && Result(o.(used := o.used - (|calls| - |offered|)), bufsize, marker, [], offered)
  {
    if r.state.Read? {
      var r1 := r.(stored := [], left := bufsize, state := BlockedNewdata, waiting := true);
      assert ReadTo(r, bufsize, marker, calls[0]) == ReadResult(r1, Waiting);
      RunFromMidway(r1, bufsize, marker, [], calls[1..]);
    } else {
      RunOneMore(r, bufsize, marker, [], calls);
    }
  }

  /** With no room at all psock_readto never ends, even on a packet that is just the marker. */
  lemma NoBufferNeverEnds(r: Reader, marker: U8, calls: seq<AppCall>)
    requires AllSound(calls) && InBuffer(r) && (r.waiting ==> r.left == 0)
    ensures !Run(r, 0, marker, calls).ended
    decreases |calls|
  {
    if calls != [] {
      var r0 := if r.waiting then r else r.(stored := [], left := 0);
      NoRoom(r0, marker, calls[0]);
      StaysInBuffer(r0, 0, marker, calls[0]);
      NoBufferNeverEnds(ReadTo(r, 0, marker, calls[0]).reader, marker, calls[1..]);
    }
  }

  lemma NoRoom(r: Reader, marker: U8, call: AppCall)
    requires InBuffer(r) && Sound(call) && r.left == 0
    ensures var res := ReadLoop(r, 0, marker, call); res.pt.Waiting? && res.reader.left == 0
    decreases (if r.readlen > 0 then 1 else 0) + (if r.state.Read? then 0 else 2)
  {
    var t := ReadTurn(r, marker, call);
    if t.Continue? {
      NoRoom(t.reader, marker, call);
    }
  }
}
