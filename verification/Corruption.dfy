/**
 What the checksums are for: a packet that differs in one byte from one that is accepted is not accepted.
 And the order in which ports go over the wire.
 */
module Corruption {
  import opened Words
  import opened Checksum
  import opened Tcp
  import opened Packets

  /** q is p with another byte at place i. */
  predicate OneByteOff(p: Bytes, q: Bytes, i: nat) {
    |p| == |q| && i < |p| && p[i] != q[i] && forall k :: 0 <= k < |p| && k != i ==> p[k] == q[k]
  }

  /** What a byte counts for in its word. */
  function Counts(i: nat): nat { if i % 2 == 0 then 0x100 else 1 }

  lemma {:induction false} SumOff(p: Bytes, q: Bytes, i: nat)
    requires OneByteOff(p, q, i)
    ensures WordSum(q) - WordSum(p) == (q[i] as int - p[i]) * Counts(i)
  {
    if i >= 2 {
      assert p[2..][i - 2] == p[i] && q[2..][i - 2] == q[i];
      assert forall k :: 0 <= k < |p| - 2 ==> p[2..][k] == p[k + 2] && q[2..][k] == q[k + 2];
      SumOff(p[2..], q[2..], i - 2);
    } else if |p| > 1 {
      assert p[2..] == q[2..];
    }
  }

  /** So little cannot make up a multiple of 65535. */
  lemma NotBoth(a: nat, b: nat)
    requires a != b && -0xFFFF < b as int - a < 0xFFFF
    ensures !(Checks(a) && Checks(b))
  {
    if Checks(a) && Checks(b) {
      var e := b / 0xFFFF - a / 0xFFFF;
      assert e * 0xFFFF == b as int - a;
      NoMultiple(e, 0xFFFF);
    }
  }

  lemma SmallStep(x: U8, y: U8, i: nat)
    requires x != y
    ensures var d := (y as int - x) * Counts(i); d != 0 && -0xFFFF < d < 0xFFFF
  {}

  lemma PartOff(p: Bytes, q: Bytes, i: nat, lo: nat, hi: nat)
    requires OneByteOff(p, q, i) && lo <= i < hi <= |p|
    ensures OneByteOff(p[lo..hi], q[lo..hi], i - lo)
  {}

  lemma HeaderOff(p: Bytes, q: Bytes, i: nat)
    requires OneByteOff(p, q, i) && i < 20 <= |p| && Checks(WordSum(p[..20]))
    ensures !Checks(WordSum(q[..20]))
  {
    PartOff(p, q, i, 0, 20);
    SumOff(p[0..20], q[0..20], i);
    SmallStep(p[i], q[i], i);
    assert p[0..20] == p[..20] && q[0..20] == q[..20];
    NotBoth(WordSum(p[..20]), WordSum(q[..20]));
  }

  lemma SegmentOff(p: Bytes, q: Bytes, i: nat, proto: U8)
    requires OneByteOff(p, q, i) && |p| >= 20 && 20 <= i < Len(p) <= |p| && Checks(UpperSum(p, proto))
    ensures Len(q) == Len(p) && !Checks(UpperSum(q, proto))
  {
    PartOff(p, q, i, 20, Len(p));
    SumOff(p[20..Len(p)], q[20..Len(p)], i - 20);
    SmallStep(p[i], q[i], i - 20);
    assert p[12..20] == q[12..20];
    NotBoth(UpperSum(p, proto), UpperSum(q, proto));
  }

  /** Whichever byte of an accepted packet is changed, in its headers or its data, it is not accepted any more. */
  lemma CorruptionIsNoticed(p: Bytes, q: Bytes, i: nat, uipLen: nat, host: IpAddr, mssOption: Option<U16>)
    requires Readable(p, uipLen) && Readable(q, uipLen) && OneByteOff(p, q, i) && i < Len(p)
    requires Decode(p, uipLen, host, mssOption).Some?
    ensures Decode(q, uipLen, host, mssOption).None?
  {
    if i < 20 {
      HeaderOff(p, q, i);
    } else {
      SegmentOff(p, q, i, PROTO_TCP);
    }
  }

  /** A port number goes over the wire with its most significant byte first. */
  lemma PortOnTheWire(p: Bytes, at: nat, port: U16)
    requires at + 2 <= |p|
    ensures Field(p, at) == Htons(port) <==> p[at] as int * 0x100 + p[at + 1] == port
  {
    var x: int, y: int := p[at], p[at + 1];
    assert Htons(port) == port % 0x100 * 0x100 + port / 0x100;
    if y * 0x100 + x == port % 0x100 * 0x100 + port / 0x100 {
      DigitUnique(y, x, port % 0x100, port / 0x100);
    }
  }

  /** A packet for another host is not taken, however right it is. */
  lemma NotForOthers(p: Bytes, host: IpAddr, f: Frame, uipLen: nat, own: IpAddr, mssOption: Option<U16>)
    requires IsFrame(p, host, f) && LenOf(f) <= uipLen <= |p| && own != IpAddr(0, 0) && own != f.dest
    ensures Readable(p, uipLen) && Decode(p, uipLen, own, mssOption).None?
  {
    Passes(p, host, f, uipLen);
  }
}
