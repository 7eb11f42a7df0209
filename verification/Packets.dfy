/**
 Packets in uip_buf: the headers that the send path of uip_process writes, byte by byte, with
 their checksums, and the checks of the receive path. A buffer here begins with the IP header,
 that is, UIP_LLH_LEN bytes into uip_buf.

   0 vhl   2 len    6 ipoffset   9 proto      12 srcipaddr   20 srcport    24 seqno   32 tcpoffset  36 tcpchksum
   1 tos   4 ipid   8 ttl       10 ipchksum   16 destipaddr  22 destport   28 ackno   33 flags      38 urgp
                                                                                      34 wnd
 */
module Packets {
  import opened Words
  import opened Checksum
  import opened Tcp

  const PROTO_TCP: U8 := 6
  const PROTO_UDP: U8 := 17
  const TTL: U8 := 64

  // ----- Fields -----

  /** A u16_t field, as the little-endian host keeps it. */
  function Field(p: Bytes, at: nat): U16
    requires at + 2 <= |p|
  {
    Word(p[at + 1], p[at])
  }

  /** An address of two u16_t. */
  function Addr(p: Bytes, at: nat): IpAddr
    requires at + 4 <= |p|
  {
    IpAddr(Field(p, at), Field(p, at + 2))
  }

  /** The length of the packet from its IP header. */
  function Len(p: Bytes): U16
    requires |p| >= 4
  {
    Word(p[2], p[3])
  }

  function Bit(b: bool): nat { if b then 1 else 0 }

  function FlagByte(c: Control): U8 {
    Bit(c.fin) + 2 * Bit(c.syn) + 4 * Bit(c.rst) + 8 * Bit(c.psh) + 16 * Bit(c.ack) + 32 * Bit(c.urg)
  }

  /** The six bits from the lowest up. */
  function Flags(b: U8): Control {
    var b1 := b / 2;
    var b2 := b1 / 2;
    var b3 := b2 / 2;
    var b4 := b3 / 2;
    var b5 := b4 / 2;
    Control(b % 2 == 1, b1 % 2 == 1, b2 % 2 == 1, b3 % 2 == 1, b4 % 2 == 1, b5 % 2 == 1)
  }

  /** The control bits of section 3.1 of RFC 793, by their masks. */
  ghost predicate HasFlags(b: U8, c: Control) {
    && (And(b, 0x01) != 0 <==> c.fin) && (And(b, 0x02) != 0 <==> c.syn) && (And(b, 0x04) != 0 <==> c.rst)
    && (And(b, 0x08) != 0 <==> c.psh) && (And(b, 0x10) != 0 <==> c.ack) && (And(b, 0x20) != 0 <==> c.urg)
  }

  lemma FlagsOfByte(c: Control)
    ensures Flags(FlagByte(c)) == c
  {
    var b5 := Bit(c.urg);
    var b4 := LowBit(c.ack, b5);
    var b3 := LowBit(c.psh, b4);
    var b2 := LowBit(c.rst, b3);
    var b1 := LowBit(c.syn, b2);
    var b := LowBit(c.fin, b1);
    assert b == FlagByte(c);
  }

  lemma LowBit(bit: bool, rest: nat) returns (b: nat)
    ensures b == Bit(bit) + 2 * rest && b / 2 == rest && (b % 2 == 1 <==> bit)
  {
    b := Bit(bit) + 2 * rest;
  }

  lemma FlagsByMask(b: U8)
    ensures HasFlags(b, Flags(b))
  {
    var b1 := b / 2;
    var b2 := b1 / 2;
    var b3 := b2 / 2;
    var b4 := b3 / 2;
    MaskOne(b);
    MaskHalf(b, 0x01);
    MaskOne(b1);
    MaskHalf(b, 0x02);
    MaskHalf(b1, 0x01);
    MaskOne(b2);
    MaskHalf(b, 0x04);
    MaskHalf(b1, 0x02);
    MaskHalf(b2, 0x01);
    MaskOne(b3);
    UpperMasks(b, b1, b2, b3, b4);
  }

  lemma UpperMasks(b: nat, b1: nat, b2: nat, b3: nat, b4: nat)
    requires b1 == b / 2 && b2 == b1 / 2 && b3 == b2 / 2 && b4 == b3 / 2
    ensures And(b, 0x10) != 0 <==> b4 % 2 == 1
    ensures And(b, 0x20) != 0 <==> b4 / 2 % 2 == 1
  {
    MaskHalf(b, 0x08);
    MaskHalf(b1, 0x04);
    MaskHalf(b2, 0x02);
    MaskHalf(b3, 0x01);
    MaskOne(b4);
    MaskHalf(b, 0x10);
    MaskHalf(b1, 0x08);
    MaskHalf(b2, 0x04);
    MaskHalf(b3, 0x02);
    MaskHalf(b4, 0x01);
    MaskOne(b4 / 2);
  }

  lemma MaskOne(x: nat)
    ensures And(x, 1) != 0 <==> x % 2 == 1
  {
    AndNothing(x / 2);
  }

  lemma {:induction false} AndNothing(x: nat)
    ensures And(x, 0) == 0
  {
    if x > 0 {
      AndNothing(x / 2);
    }
  }

  lemma MaskHalf(x: nat, mask: nat)
    ensures And(x, 2 * mask) == 2 * And(x / 2, mask)
  {}

  lemma FieldOfStored(v: U16)
    ensures Word(High(v), Low(v)) == v
  {}

  // ----- Sums -----

  /** The words that the checksum of a TCP segment or UDP datagram covers: pseudo header and packet. */
  function UpperSum(p: Bytes, proto: U8): nat
    requires |p| >= 20 && 20 <= Len(p) <= |p|
  {
    Len(p) as int - 20 + proto + WordSum(p[12..20]) + WordSum(p[20..Len(p)])
  }

  /** uip_ipchksum */
  method IpChksum(b: array<U8>) returns (r: U16)
    requires b.Length >= 20
    ensures r == Returned(Fold(WordSum(b[..20])))
    ensures r == 0xFFFF <==> Checks(WordSum(b[..20]))
  {
    var sum := Chksum(0, b, 0, 20);
    assert b[0..20] == b[..20];
    ReturnedChecks(WordSum(b[..20]));
    r := Returned(sum);
  }

  /** upper_layer_chksum, for TCP and UDP. */
  method UpperLayerChksum(b: array<U8>, proto: U8) returns (r: U16)
    requires b.Length >= 20 && 20 <= Len(b[..]) <= b.Length && proto <= PROTO_UDP
    ensures r == Returned(Fold(UpperSum(b[..], proto)))
    ensures r == 0xFFFF <==> Checks(UpperSum(b[..], proto))
  {
    var len := Word(b[2], b[3]) as int - 20;
    var sum: U16 := len + proto;
    ghost var s, t := WordSum(b[12..20]), WordSum(b[20..20 + len]);
    var sum1 := Chksum(sum, b, 12, 8);
    var sum2 := Chksum(sum1, b, 20, len);
    FoldFold(sum as int + s, t);
    assert b[..][12..20] == b[12..20] && b[..][20..Len(b[..])] == b[20..20 + len];
    ReturnedChecks(UpperSum(b[..], proto));
    r := Returned(sum2);
  }

  method Store(b: array<U8>, at: nat, v: U16)
    requires at + 2 <= b.Length
    modifies b
    ensures b[at] == Low(v) && b[at + 1] == High(v)
    ensures forall i :: 0 <= i < b.Length && i != at && i != at + 1 ==> b[i] == old(b[i])
  {
    b[at], b[at + 1] := v % 0x100, v / 0x100;
  }

  /** Fill in the checksum of the IP header. */
  method SealIp(b: array<U8>)
    requires b.Length >= 20
    modifies b
    ensures Checks(WordSum(b[..20]))
    ensures forall i :: 0 <= i < b.Length && i != 10 && i != 11 ==> b[i] == old(b[i])
  {
    Store(b, 10, 0);
    ghost var pre, post := b[..10], b[12..20];
    assert b[..20] == pre + [0, 0] + post;
    WordSumAround(pre, 0, 0, post);
    ComplementChecks(WordSum(b[..20]));
    var r := IpChksum(b);
    Store(b, 10, Not(r));
    assert b[..20] == pre + [Low(Not(r)), High(Not(r))] + post;
    WordSumAround(pre, Low(Not(r)), High(Not(r)), post);
  }

  /** The sum of a packet with a word of its upper layer taken out. */
  lemma UpperSumAround(p: Bytes, proto: U8, at: nat)
    requires |p| >= 20 && 20 <= Len(p) <= |p| && 20 <= at && at + 2 <= Len(p) && at % 2 == 0
    ensures UpperSum(p, proto)
         == Len(p) as int - 20 + proto + WordSum(p[12..20]) + WordSum(p[20..at]) + WordSum(p[at + 2..Len(p)])
            + Word(p[at], p[at + 1])
  {
    assert p[20..Len(p)] == p[20..at] + [p[at], p[at + 1]] + p[at + 2..Len(p)];
    WordSumAround(p[20..at], p[at], p[at + 1], p[at + 2..Len(p)]);
  }

  /** Storing v in a checksum field that was zero adds the word it makes. */
  lemma UpperSumStored(p: Bytes, q: Bytes, proto: U8, at: nat, v: U16)
    requires |p| == |q| >= 20 && 20 <= Len(p) <= |p| && 20 <= at && at + 2 <= Len(p) && at % 2 == 0
    requires p[at] == 0 && p[at + 1] == 0 && q[at] == Low(v) && q[at + 1] == High(v)
    requires forall i :: 0 <= i < |p| && i != at && i != at + 1 ==> p[i] == q[i]
    ensures Len(q) == Len(p) && UpperSum(q, proto) == UpperSum(p, proto) + Word(Low(v), High(v))
  {
    UpperSumAround(p, proto, at);
    UpperSumAround(q, proto, at);
    assert p[12..20] == q[12..20] && p[20..at] == q[20..at] && p[at + 2..Len(p)] == q[at + 2..Len(p)];
  }

  /** Fill in the checksum of a TCP segment. */
  method SealTcp(b: array<U8>)
    requires b.Length >= 40 && 40 <= Len(b[..]) <= b.Length
    modifies b
    ensures Len(b[..]) == old(Len(b[..])) && Checks(UpperSum(b[..], PROTO_TCP))
    ensures forall i :: 0 <= i < b.Length && i != 36 && i != 37 ==> b[i] == old(b[i])
  {
    Store(b, 36, 0);
    ghost var p := b[..];
    var r := UpperLayerChksum(b, PROTO_TCP);
    ComplementChecks(UpperSum(p, PROTO_TCP));
    Store(b, 36, Not(r));
    UpperSumStored(p, b[..], PROTO_TCP, 36, Not(r));
  }

  /** The same for UDP, where a zero field would mean that there is no checksum (RFC 768). */
  method SealUdp(b: array<U8>)
    requires b.Length >= 28 && 28 <= Len(b[..]) <= b.Length
    modifies b
    ensures Len(b[..]) == old(Len(b[..])) && Checks(UpperSum(b[..], PROTO_UDP)) && Field(b[..], 26) != 0
    ensures forall i :: 0 <= i < b.Length && i != 26 && i != 27 ==> b[i] == old(b[i])
  {
    Store(b, 26, 0);
    ghost var p := b[..];
    var r := UpperLayerChksum(b, PROTO_UDP);
    ComplementChecks(UpperSum(p, PROTO_UDP));
    var v := Not(r);
    if v == 0 {
      v := 0xFFFF;
    }
    AllOnesChecks(UpperSum(p, PROTO_UDP));
    assert Checks(UpperSum(p, PROTO_UDP) + Word(Low(v), High(v)));
    Store(b, 26, v);
    FieldOfStored(v);
    UpperSumStored(p, b[..], PROTO_UDP, 26, v);
  }

  /** All ones are as good as zero. */
  lemma AllOnesChecks(n: nat)
    ensures Checks(n + Word(Low(0xFFFF), High(0xFFFF))) <==> Checks(n)
  {}

  // ----- The send path -----

  /** What ip_send_nolen and the lines before it write, for a packet of len bytes. */
  ghost predicate IpHeader(p: Bytes, len: U16, proto: U8, src: IpAddr, dst: IpAddr)
  {
    && |p| >= 20 && p[0] == 0x45 && Len(p) == len && p[6] == 0 && p[7] == 0 && p[9] == proto
    && Addr(p, 12) == src && Addr(p, 16) == dst
  }

  method StoreLen(b: array<U8>, len: U16)
    requires b.Length >= 20
    modifies b
    ensures Len(b[..]) == len
    ensures forall i :: 0 <= i < b.Length && i != 2 && i != 3 ==> b[i] == old(b[i])
  {
    b[2], b[3] := len / 0x100, len % 0x100;
    FieldOfStored(len);
  }

  method StoreAddr(b: array<U8>, at: nat, a: IpAddr)
    requires at + 4 <= b.Length
    modifies b
    ensures Addr(b[..], at) == a
    ensures forall i :: 0 <= i < b.Length && !(at <= i < at + 4) ==> b[i] == old(b[i])
  {
    Store(b, at, a.hi);
    Store(b, at + 2, a.lo);
    FieldOfStored(a.hi);
    FieldOfStored(a.lo);
  }

  /** The fields of the IP header that differ from packet to packet. */
  method StoreIp(b: array<U8>, len: U16, proto: U8, ttl: U8, src: IpAddr, dst: IpAddr)
    requires b.Length >= 20
    modifies b
    ensures Len(b[..]) == len && b[9] == proto && Addr(b[..], 12) == src && Addr(b[..], 16) == dst
    ensures forall i :: 20 <= i < b.Length ==> b[i] == old(b[i])
  {
    b[8], b[9] := ttl, proto;
    StoreAddr(b, 12, src);
    StoreAddr(b, 16, dst);
    StoreLen(b, len);
  }

  method StoreBytes(b: array<U8>, at: nat, v: Bytes4)
    requires at + 4 <= b.Length
    modifies b
    ensures b[at..at + 4] == v
    ensures forall i :: 0 <= i < b.Length && !(at <= i < at + 4) ==> b[i] == old(b[i])
  {
    b[at], b[at + 1], b[at + 2], b[at + 3] := v[0], v[1], v[2], v[3];
  }

  /** The fields that tcp_send and what leads to it fill in from the connection. */
  method StoreTcp(b: array<U8>, f: Frame)
    requires b.Length >= 40
    modifies b
    ensures TcpHeader(b[..], f)
    ensures forall i :: 0 <= i < b.Length && !(20 <= i < 36 || 38 <= i < 40) ==> b[i] == old(b[i])
  {
    b[33] := FlagByte(f.ctl);
    b[32] := if f.mssOption then 0x60 else 0x50;
    StoreBytes(b, 28, f.ackno);
    StoreBytes(b, 24, f.seqno);
    Store(b, 20, f.srcPort);
    Store(b, 22, f.destPort);
    b[34], b[35] := f.wnd / 0x100, f.wnd % 0x100;
    b[38], b[39] := 0, 0;
    FieldOfStored(f.srcPort);
    FieldOfStored(f.destPort);
    FieldOfStored(f.wnd);
    FlagsOfByte(f.ctl);
    FlagsByMask(b[33]);
    assert b[..][24..28] == b[24..28] && b[..][28..32] == b[28..32];
  }

  ghost predicate TcpHeader(p: Bytes, f: Frame) {
    && |p| >= 40 && Field(p, 20) == f.srcPort && Field(p, 22) == f.destPort
    && p[24..28] == f.seqno && p[28..32] == f.ackno
    && p[32] == (if f.mssOption then 0x60 else 0x50) && HasFlags(p[33], f.ctl) && Word(p[34], p[35]) == f.wnd
  }

  /** The four bytes of the MSS option in a SYN: kind, length, and UIP_TCP_MSS. */
  const MSS_OPTION: Bytes := [2, 4, TCP_MSS / 0x100, TCP_MSS % 0x100]

  function Options(f: Frame): Bytes { if f.mssOption then MSS_OPTION else [] }

  /** uip_len of a frame. */
  function LenOf(f: Frame): nat { IPTCPH_LEN + |Options(f)| + |f.data| }

  method StoreOption(b: array<U8>, f: Frame)
    requires b.Length >= 40 + |Options(f)|
    modifies b
    ensures b[40..40 + |Options(f)|] == Options(f)
    ensures forall i :: 0 <= i < b.Length && !(40 <= i < 40 + |Options(f)|) ==> b[i] == old(b[i])
  {
    if f.mssOption {
      b[40], b[41], b[42], b[43] := 2, 4, TCP_MSS / 0x100, TCP_MSS % 0x100;
    }
  }

  /** Both headers depend on no other bytes. */
  lemma TcpHeaderKept(p: Bytes, q: Bytes, f: Frame)
    requires |p| == |q| && TcpHeader(p, f) && forall i :: 20 <= i < 36 ==> p[i] == q[i]
    ensures TcpHeader(q, f)
  {
    assert p[24..28] == q[24..28] && p[28..32] == q[28..32];
  }

  lemma UpperSumKept(p: Bytes, q: Bytes, proto: U8)
    requires |p| == |q| >= 20 && 20 <= Len(p) <= |p| && p[2] == q[2] && p[3] == q[3]
    requires forall i :: 12 <= i < |p| ==> p[i] == q[i]
    ensures Len(q) == Len(p) && UpperSum(q, proto) == UpperSum(p, proto)
  {
    assert p[12..20] == q[12..20] && p[20..Len(p)] == q[20..Len(p)];
  }

  /** From ip_send_nolen on. */
  method FinishIp(b: array<U8>, ipid: U16)
    requires b.Length >= 20
    modifies b
    ensures b[0] == 0x45 && b[6] == 0 && b[7] == 0 && Checks(WordSum(b[..20]))
    ensures forall i :: 0 <= i < b.Length && (i == 2 || i == 3 || i == 8 || i == 9 || 12 <= i) ==> b[i] == old(b[i])
  {
    b[0], b[1], b[6], b[7] := 0x45, 0, 0, 0;
    b[4], b[5] := ipid / 0x100, ipid % 0x100;
    SealIp(b);
  }

  /**
   A frame in the buffer, from tcp_send on: headers, option and checksums round the data that the
   application left behind them.
   */
  method SendTcp(b: array<U8>, host: IpAddr, f: Frame, ipid: U16)
    requires LenOf(f) <= b.Length && LenOf(f) < TWO16 && b[40 + |Options(f)|..LenOf(f)] == f.data
    modifies b
    ensures IsFrame(b[..], host, f)
    ensures forall i :: LenOf(f) <= i < b.Length ==> b[i] == old(b[i])
  {
    StoreOption(b, f);
    StoreTcp(b, f);
    ghost var p := b[..];
    SendHeaders(b, host, f, ipid);
    TcpHeaderKept(p, b[..], f);
    SplitData(b[..], f);
  }

  /** The bytes from 40 on, as the option and the data. */
  lemma SplitData(p: Bytes, f: Frame)
    requires LenOf(f) <= |p| && p[40..40 + |Options(f)|] == Options(f) && p[40 + |Options(f)|..LenOf(f)] == f.data
    ensures p[40..LenOf(f)] == Options(f) + f.data
  {
    assert p[40..LenOf(f)] == p[40..40 + |Options(f)|] + p[40 + |Options(f)|..LenOf(f)];
  }

  /** The packet is this frame, sent from this host, and both its checksums are right. */
  ghost predicate IsFrame(p: Bytes, host: IpAddr, f: Frame) {
    && LenOf(f) <= |p| && LenOf(f) < TWO16
    && IpHeader(p, LenOf(f), PROTO_TCP, host, f.dest) && TcpHeader(p, f) && p[40..LenOf(f)] == Options(f) + f.data
    && Checks(WordSum(p[..20])) && Checks(UpperSum(p, PROTO_TCP))
  }

  /** Addresses, lengths and both checksums, the rest being in place. */
  method SendHeaders(b: array<U8>, host: IpAddr, f: Frame, ipid: U16)
    requires LenOf(f) <= b.Length && LenOf(f) < TWO16
    modifies b
    ensures IpHeader(b[..], LenOf(f), PROTO_TCP, host, f.dest)
    ensures Checks(WordSum(b[..20])) && Checks(UpperSum(b[..], PROTO_TCP))
    ensures forall i :: 20 <= i < b.Length && i != 36 && i != 37 ==> b[i] == old(b[i])
  {
    StoreIp(b, LenOf(f), PROTO_TCP, TTL, host, f.dest);
    SealTcp(b);
    ghost var q := b[..];
    FinishIp(b, ipid);
    UpperSumKept(q, b[..], PROTO_TCP);
  }

  /** From udp_send on; the datagram's data is already in the buffer. */
  method SendUdp(b: array<U8>, host: IpAddr, dest: IpAddr, lport: U16, rport: U16, ttl: U8, slen: U16, ipid: U16)
    requires slen as int + 28 <= b.Length && slen as int + 28 < TWO16
    modifies b
    ensures IpHeader(b[..], slen + 28, PROTO_UDP, host, dest)
    ensures Field(b[..], 20) == lport && Field(b[..], 22) == rport && Word(b[24], b[25]) == slen as int + 8
    ensures Checks(WordSum(b[..20])) && Checks(UpperSum(b[..], PROTO_UDP)) && Field(b[..], 26) != 0
    ensures forall i :: 28 <= i < b.Length ==> b[i] == old(b[i])
  {
    StoreUdp(b, lport, rport, slen);
    StoreIp(b, slen + 28, PROTO_UDP, ttl, host, dest);
    SealUdp(b);
    ghost var q := b[..];
    FinishIp(b, ipid);
    UpperSumKept(q, b[..], PROTO_UDP);
  }

  /** The ports and the length of the UDP header. */
  method StoreUdp(b: array<U8>, lport: U16, rport: U16, slen: U16)
    requires b.Length >= 28 && slen as int + 28 < TWO16
    modifies b
    ensures Field(b[..], 20) == lport && Field(b[..], 22) == rport && Word(b[24], b[25]) == slen as int + 8
    ensures forall i :: 0 <= i < b.Length && !(20 <= i < 26) ==> b[i] == old(b[i])
  {
    b[24], b[25] := (slen + 8) / 0x100, (slen + 8) % 0x100;
    Store(b, 20, lport);
    Store(b, 22, rport);
    FieldOfStored(lport);
    FieldOfStored(rport);
    FieldOfStored(slen + 8);
  }

  // ----- The receive path -----

  /** A buffer with uipLen bytes in it; where it says that it is a TCP packet, it says that both headers are in it. */
  predicate Readable(p: Bytes, uipLen: nat) {
    |p| >= 40 && uipLen <= |p| && (p[9] == PROTO_TCP ==> 40 <= Len(p))
  }

  predicate IsTcp(p: Bytes, uipLen: nat, host: IpAddr)
    requires Readable(p, uipLen)
  {
    && p[0] == 0x45 && Len(p) <= uipLen && p[6] % 64 == 0 && p[7] == 0
    && (host != IpAddr(0, 0) ==> Addr(p, 16) == host)
    && Checks(WordSum(p[..20])) && p[9] == PROTO_TCP && Checks(UpperSum(p, PROTO_TCP))
  }

  /** The segment that uip_process sees in a packet, given what its options parse to; none if it drops the packet. */
  function Decode(p: Bytes, uipLen: nat, host: IpAddr, mssOption: Option<U16>): Option<Segment>
    requires Readable(p, uipLen)
  {
    if !IsTcp(p, uipLen, host) then None
    else Some(Segment(Addr(p, 12), Field(p, 20), Field(p, 22), p[24..28], p[28..32], p[32] / 16,
                      Flags(p[33]), Word(p[34], p[35]), p[40..Len(p)], mssOption))
  }

  /** The checks in the order in which uip_process makes them, up to tcp_input. */
  method Receive(b: array<U8>, uipLen: nat, host: IpAddr, mssOption: Option<U16>) returns (g: Option<Segment>)
    requires Readable(b[..], uipLen)
    ensures g == Decode(b[..], uipLen, host, mssOption)
    ensures g.Some? ==> HasFlags(b[33], g.value.ctl)
  {
    ghost var p := b[..];
    FlagsByMask(b[33]);
    assert p[..20] == b[..20];
    g := None;
    if b[0] != 0x45 || Word(b[2], b[3]) > uipLen {
      return;
    }
    if b[6] % 64 != 0 || b[7] != 0 {
      return;
    }
    if host != IpAddr(0, 0) && IpAddr(Word(b[17], b[16]), Word(b[19], b[18])) != host {
      return;
    }
    var sum := IpChksum(b);
    if sum != 0xFFFF || b[9] != PROTO_TCP {
      return;
    }
    sum := UpperLayerChksum(b, PROTO_TCP);
    if sum != 0xFFFF {
      return;
    }
    g := Some(Segment(IpAddr(Word(b[13], b[12]), Word(b[15], b[14])), Word(b[21], b[20]), Word(b[23], b[22]),
                      b[24..28], b[28..32], b[32] / 16, Flags(b[33]), Word(b[34], b[35]), b[40..Word(b[2], b[3])],
                      mssOption));
    assert p[24..28] == b[24..28] && p[28..32] == b[28..32] && p[40..Len(p)] == b[40..Len(p)];
  }

  /** The segment that a frame is to its destination, given what its option parses to. */
  function AsSegment(host: IpAddr, f: Frame, mssOption: Option<U16>): Segment {
    Segment(host, f.srcPort, f.destPort, f.seqno, f.ackno, if f.mssOption then 6 else 5,
            f.ctl, f.wnd, Options(f) + f.data, mssOption)
  }

  /**
   What one stack sends another one takes for exactly what was meant: the packet that SendTcp makes of a
   frame passes every check at its destination, is read as that frame, and carries as much data.
   */
  lemma SentIsReceived(p: Bytes, host: IpAddr, f: Frame, uipLen: nat, mssOption: Option<U16>)
    requires IsFrame(p, host, f) && LenOf(f) <= uipLen <= |p|
    ensures Decode(p, uipLen, f.dest, mssOption) == Some(AsSegment(host, f, mssOption))
    ensures AsSegment(host, f, mssOption).DataLen() == |f.data|
  {
    Passes(p, host, f, uipLen);
    SameFlags(p[33], Flags(p[33]), f.ctl);
    assert p[32] / 16 == if f.mssOption then 6 else 5;
    var g := AsSegment(host, f, mssOption);
    assert |g.rest| + 20 - 4 * (g.offset as int) == |f.data|;
  }

  /** A byte has one set of flags. */
  lemma SameFlags(b: U8, c: Control, d: Control)
    requires c == Flags(b) && HasFlags(b, d)
    ensures c == d
  {
    FlagsByMask(b);
  }

  lemma Passes(p: Bytes, host: IpAddr, f: Frame, uipLen: nat)
    requires IsFrame(p, host, f) && LenOf(f) <= uipLen <= |p|
    ensures Readable(p, uipLen) && IsTcp(p, uipLen, f.dest)
  {}

  /** The same from buffer to buffer. */
  method Transmit(b: array<U8>, host: IpAddr, f: Frame, ipid: U16, mssOption: Option<U16>) returns (g: Option<Segment>)
    requires LenOf(f) <= b.Length && LenOf(f) < TWO16 && b[40 + |Options(f)|..LenOf(f)] == f.data
    modifies b
    ensures g == Some(AsSegment(host, f, mssOption))
  {
    SendTcp(b, host, f, ipid);
    SentIsReceived(b[..], host, f, LenOf(f), mssOption);
    g := Receive(b, LenOf(f), f.dest, mssOption);
  }

  // ----- ICMP echo in place -----

  /** On sums modulo 65535, swapping the bytes of a word is multiplying it by 256. */
  lemma SwapTimes256(v: U16)
    ensures Word(Low(v), High(v)) as int % 0xFFFF == 256 * (v as int) % 0xFFFF
  {
    var hi, lo := v / 0x100, v % 0x100;
    assert v == hi * 0x100 + lo;
    assert 256 * (v as int) == Word(Low(v), High(v)) as int + hi * 0xFFFF;
  }

  /** The incremental update of the ICMP checksum for a type that drops from 8 to 0. */
  function EchoChecksum(v: U16): U16 {
    if v >= 0xFFF7 then (v as int + 9) % TWO16 else v + 8
  }

  lemma EchoChecksumAdds(v: U16)
    ensures Word(Low(EchoChecksum(v)), High(EchoChecksum(v))) as int % 0xFFFF
         == (Word(Low(v), High(v)) as int + 0x800) % 0xFFFF
  {
    var w := EchoChecksum(v);
    SwapTimes256(v);
    SwapTimes256(w);
    assert w == v as int + 8 || w == v as int + 8 - 0xFFFF;
    var x := 256 * (v as int) + 0x800;
    assert 256 * (w as int) % 0xFFFF == x % 0xFFFF by {
      assert 256 * (w as int) == x || 256 * (w as int) == x - 256 * 0xFFFF;
      Multiples(x, 256);
    }
    ModSum(Word(Low(v), High(v)), 256 * (v as int), 0x800);
  }

  lemma Multiples(x: int, k: int)
    ensures (x - k * 0xFFFF) % 0xFFFF == x % 0xFFFF
  {}

  lemma ModSum(a: int, b: int, c: int)
    requires a % 0xFFFF == b % 0xFFFF
    ensures (a + c) % 0xFFFF == (b + c) % 0xFFFF
  {}

  function AddrSum(a: IpAddr): nat {
    Word(Low(a.hi), High(a.hi)) as int + Word(Low(a.lo), High(a.lo))
  }

  lemma AddrWords(p: Bytes, at: nat)
    requires at + 4 <= |p|
    ensures WordSum(p[at..at + 4]) == AddrSum(Addr(p, at))
  {
    assert p[at..at + 4] == [p[at], p[at + 1], p[at + 2], p[at + 3]];
    TwoWords(p[at], p[at + 1], p[at + 2], p[at + 3]);
    StoredField(p, at);
    StoredField(p, at + 2);
  }

  lemma TwoWords(a: U8, b: U8, c: U8, d: U8)
    ensures WordSum([a, b, c, d]) == Word(a, b) as int + Word(c, d)
  {
    assert WordSum([c, d]) == Word(c, d) by { assert [c, d][2..] == []; }
    assert [a, b, c, d][2..] == [c, d];
  }

  /** The header's sum, with the two addresses apart. */
  lemma HeaderSum(p: Bytes)
    requires |p| >= 20
    ensures WordSum(p[..20]) == WordSum(p[..12]) + AddrSum(Addr(p, 12)) + AddrSum(Addr(p, 16))
  {
    AddrWords(p, 12);
    AddrWords(p, 16);
    assert p[..20] == p[..12] + (p[12..16] + p[16..20]);
    WordSumSplit(p[..12], p[12..16] + p[16..20]);
    WordSumSplit(p[12..16], p[16..20]);
  }

  /** The words of an ICMP message. */
  function IcmpSum(p: Bytes): nat
    requires |p| >= 24 && 24 <= Len(p) <= |p|
  {
    WordSum(p[20..Len(p)])
  }

  lemma IcmpSumAround(p: Bytes)
    requires |p| >= 24 && 24 <= Len(p) <= |p|
    ensures IcmpSum(p) == Word(p[20], p[21]) as int + Word(p[22], p[23]) + WordSum(p[24..Len(p)])
  {
    assert p[20..Len(p)] == [p[20], p[21]] + [p[22], p[23]] + p[24..Len(p)];
    WordSumAround([p[20], p[21]], p[22], p[23], p[24..Len(p)]);
    WordSumAround([], p[20], p[21], []);
    assert [] + [p[20], p[21]] + [] == [p[20], p[21]];
  }

  /** What the echo code turns p into. */
  ghost predicate IsReply(p: Bytes, q: Bytes, host: IpAddr) {
    && |p| == |q| >= 24 && p[..12] == q[..12] && Addr(q, 12) == host && Addr(q, 16) == Addr(p, 12)
    && p[20] == 8 && q[20] == 0 && q[21] == p[21] && Field(q, 22) == EchoChecksum(Field(p, 22)) && q[24..] == p[24..]
  }

  /** The echo part of uip_process: the request becomes the reply. */
  method Echo(b: array<U8>, host: IpAddr) returns (ok: bool)
    requires b.Length >= 24
    modifies b
    ensures ok == (old(b[20]) == 8)
    ensures if ok then IsReply(old(b[..]), b[..], host) else b[..] == old(b[..])
  {
    ok := b[20] == 8;
    if !ok {
      return;
    }
    ghost var p := b[..];
    b[20] := 0;
    UpdateIcmp(b);
    StoreAddr(b, 16, IpAddr(Word(b[13], b[12]), Word(b[15], b[14])));
    StoreAddr(b, 12, host);
    assert b[..][..12] == p[..12] && b[..][24..] == p[24..];
  }

  /** The checksum of the message, for a type that drops from 8 to 0. */
  method UpdateIcmp(b: array<U8>)
    requires b.Length >= 24
    modifies b
    ensures Field(b[..], 22) == EchoChecksum(old(Field(b[..], 22)))
    ensures forall i :: 0 <= i < b.Length && i != 22 && i != 23 ==> b[i] == old(b[i])
  {
    var v := Word(b[23], b[22]);
    if v >= 0xFFF7 {
      v := (v as int + 9) % TWO16;
    } else {
      v := (v as int + 8) % TWO16;
    }
    Store(b, 22, v);
    FieldOfStored(v);
  }

  /** The reply's ICMP checksum is right if the request's was. */
  lemma EchoKeepsIcmpSum(p: Bytes, q: Bytes, host: IpAddr)
    requires IsReply(p, q, host) && 24 <= Len(p) <= |p|
    ensures Len(q) == Len(p) && IcmpSum(q) % 0xFFFF == IcmpSum(p) % 0xFFFF
  {
    assert Len(q) == Len(p) by {
      assert p[2] == p[..12][2] && p[3] == p[..12][3] && q[2] == q[..12][2] && q[3] == q[..12][3];
    }
    var rest := Word(0, p[21]) as int + WordSum(p[24..Len(p)]);
    ReplySum(p, q, host, rest);
    EchoChecksumAdds(Field(p, 22));
    StoredField(p, 22);
    StoredField(q, 22);
    ModSum(Word(q[22], q[23]), Word(p[22], p[23]) as int + 0x800, rest);
  }

  lemma StoredField(p: Bytes, at: nat)
    requires at + 2 <= |p|
    ensures Low(Field(p, at)) == p[at] && High(Field(p, at)) == p[at + 1]
  {}

  /**
   The reply's IP header checks whenever the request's did, if the host has an address. Without
   one, where uip_process answers for any destination, it checks exactly when the words of the
   request's destination address themselves add up to zero.
   */
  lemma EchoKeepsIpSum(p: Bytes, q: Bytes, host: IpAddr)
    requires IsReply(p, q, host) && Checks(WordSum(p[..20]))
    requires host == IpAddr(0, 0) || Addr(p, 16) == host
    ensures host != IpAddr(0, 0) ==> Checks(WordSum(q[..20]))
    ensures host == IpAddr(0, 0) ==> (Checks(WordSum(q[..20])) <==> Checks(AddrSum(Addr(p, 16))))
  {
    HeaderSum(p);
    HeaderSum(q);
    if host == IpAddr(0, 0) {
      ZeroDifference(WordSum(p[..20]), AddrSum(Addr(p, 16)));
    }
  }

  lemma ZeroDifference(a: nat, b: nat)
    requires b <= a && Checks(a)
    ensures Checks(a - b) <==> Checks(b)
  {}

  /**
   By the stricter reading of RFC 1071, that the folded sum be all ones, the reply is right exactly
   if the request carries a code, an identifier, a sequence number or data that is not all zero.
   */
  lemma EchoReplyAllOnes(p: Bytes, q: Bytes, host: IpAddr)
    requires IsReply(p, q, host) && 24 <= Len(p) <= |p| && Checks(IcmpSum(p))
    ensures Len(q) == Len(p)
    ensures Fold(IcmpSum(q)) == 0xFFFF <==> Word(0, p[21]) as int + WordSum(p[24..Len(p)]) != 0
    ensures WordSum(p[24..Len(p)]) == 0 <==> forall i :: 0 <= i < |p[24..Len(p)]| ==> p[24..Len(p)][i] == 0
  {
    EchoKeepsIcmpSum(p, q, host);
    WordSumZero(p[24..Len(p)]);
    var rest := Word(0, p[21]) as int + WordSum(p[24..Len(p)]);
    ReplySum(p, q, host, rest);
    if rest == 0 {
      ZeroRequest(p[22], p[23]);
      StoredField(q, 22);
    }
    AllOnes(IcmpSum(q));
  }

  /** The two sums apart from the word at 22 and the type. */
  lemma ReplySum(p: Bytes, q: Bytes, host: IpAddr, rest: nat)
    requires IsReply(p, q, host) && 24 <= Len(p) <= |p| && Len(q) == Len(p)
    requires rest == Word(0, p[21]) as int + WordSum(p[24..Len(p)])
    ensures IcmpSum(p) == 0x800 + rest + Word(p[22], p[23]) && IcmpSum(q) == rest + Word(q[22], q[23])
  {
    IcmpSumAround(p);
    IcmpSumAround(q);
    assert p[24..Len(p)] == p[24..][..Len(p) as int - 24] == q[24..][..Len(p) as int - 24] == q[24..Len(p)];
  }

  lemma AllOnes(n: nat)
    ensures Fold(n) == 0xFFFF <==> n != 0 && Checks(n)
  {
    FoldMod(n);
  }

  lemma ZeroRequest(lo: U8, hi: U8)
    requires Checks(0x800 + Word(lo, hi))
    ensures lo == 0xF7 && hi == 0xFF && EchoChecksum(Word(hi, lo)) == 0
  {}
}
