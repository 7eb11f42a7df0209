/**
 The ARP cache of uip_arp.cpp: a table of eight entries that is updated, aged and searched in
 place, against the map from each address to the hardware address last supplied for it.
 */
module Arp {
  import opened Words
  import Tcp

  type IpAddr = Tcp.IpAddr
  const SIZE := 8
  const MAXAGE := 120

  type Mac = Bytes

  const BROADCAST := Tcp.IpAddr(0xFFFF, 0xFFFF)

  datatype Entry = Entry(ip: IpAddr, mac: Mac, time: U8)
  {
    predicate Used() { ip != BROADCAST }
  }

  type Table = t: seq<Entry> | |t| == SIZE witness seq(SIZE, _ => Entry(Tcp.IpAddr(0xFFFF, 0xFFFF), [], 0))

  /** The test of the first loop of uip_arp_update, which skips more than unused entries. */
  predicate Proper(ip: IpAddr) { ip.hi != 0xFFFF && ip.lo != 0xFFFF }

  // ----- The three searches of uip_arp_update -----

  function FindFrom(t: Table, ip: IpAddr, i: nat): (r: nat)
    requires i <= SIZE
    ensures i <= r <= SIZE && (r < SIZE ==> t[r].ip == ip && Proper(ip))
    ensures Proper(ip) ==> forall k :: i <= k < r ==> t[k].ip != ip
    decreases SIZE - i
  {
    if i == SIZE || (Proper(t[i].ip) && t[i].ip == ip) then i else FindFrom(t, ip, i + 1)
  }

  function UnusedFrom(t: Table, i: nat): (r: nat)
    requires i <= SIZE
    ensures i <= r <= SIZE && (r < SIZE ==> !t[r].Used()) && forall k :: i <= k < r ==> t[k].Used()
    decreases SIZE - i
  {
    if i == SIZE || !t[i].Used() then i else UnusedFrom(t, i + 1)
  }

  /** Ages are computed as plain integers. */
  function Age(e: Entry, now: U8): int { now as int - e.time }

  function OldestFrom(t: Table, now: U8, i: nat, age: nat, c: nat): (r: nat)
    requires i <= SIZE && c < SIZE
    ensures r < SIZE
    decreases SIZE - i
  {
    if i == SIZE then c
    else if Age(t[i], now) > age then OldestFrom(t, now, i + 1, Age(t[i], now), i)
    else OldestFrom(t, now, i + 1, age, c)
  }

  lemma OldestStep(t: Table, now: U8, i: nat, age: nat, c: nat)
    requires i < SIZE && c < SIZE
    ensures OldestFrom(t, now, i, age, c)
         == if Age(t[i], now) > age then OldestFrom(t, now, i + 1, Age(t[i], now), i)
            else OldestFrom(t, now, i + 1, age, c)
  {}

  /** The entry that an update fills. */
  function Slot(t: Table, now: U8, ip: IpAddr): (r: nat)
    ensures r < SIZE
  {
    var found, unused := FindFrom(t, ip, 0), UnusedFrom(t, 0);
    if found < SIZE then found else if unused < SIZE then unused else OldestFrom(t, now, 0, 0, 0)
  }

  function Updated(t: Table, now: U8, ip: IpAddr, mac: Mac): Table {
    t[Slot(t, now, ip) := Entry(ip, mac, now)]
  }

  function Aged(t: Table, now: U8): Table {
    seq(SIZE, i requires 0 <= i < SIZE => if t[i].Used() && Age(t[i], now) >= MAXAGE then t[i].(ip := BROADCAST) else t[i])
  }

  // ----- What the table stands for -----

  ghost predicate Unique(t: Table) {
    forall i, j :: 0 <= i < j < SIZE && t[i].Used() ==> t[i].ip != t[j].ip
  }

  ghost predicate Agrees(t: Table, latest: map<IpAddr, Mac>) {
    forall i :: 0 <= i < SIZE && t[i].Used() ==> t[i].ip in latest && t[i].mac == latest[t[i].ip]
  }

  /** No age below zero counts, as in the search for the oldest entry. */
  function Years(e: Entry, now: U8): nat { if Age(e, now) > 0 then Age(e, now) else 0 }

  /** Entry c is the first of the oldest. */
  predicate IsOldest(t: Table, now: U8, c: nat) {
    && c < SIZE
    && (forall k :: 0 <= k < SIZE ==> Years(t[k], now) <= Years(t[c], now))
    && (forall k :: 0 <= k < c ==> Years(t[k], now) < Years(t[c], now))
  }

  lemma {:induction false} OldestSoFar(t: Table, now: U8, i: nat, age: nat, c: nat)
    requires i <= SIZE && c < SIZE && (i == 0 ==> c == 0 && age == 0)
    requires i > 0 ==> c < i && age == Years(t[c], now)
    requires forall k :: 0 <= k < i ==> Years(t[k], now) <= age
    requires forall k :: 0 <= k < c ==> Years(t[k], now) < age
    ensures IsOldest(t, now, OldestFrom(t, now, i, age, c))
    decreases SIZE - i
  {
    if i < SIZE {
      if Age(t[i], now) > age {
        OldestSoFar(t, now, i + 1, Age(t[i], now), i);
      } else {
        OldestSoFar(t, now, i + 1, age, c);
      }
    }
  }

  /** With no entry free the one thrown away is the first of the oldest. */
  lemma OldestIs(t: Table, now: U8, c: nat)
    ensures OldestFrom(t, now, 0, 0, 0) == c <==> IsOldest(t, now, c)
  {
    OldestSoFar(t, now, 0, 0, 0);
  }

  predicate Full(t: Table) { forall k :: 0 <= k < SIZE ==> t[k].Used() }

  predicate Holds(t: Table, ip: IpAddr) { exists k :: 0 <= k < SIZE && t[k].ip == ip }

  /** The one entry for ip is the entry that has to go. */
  predicate Evicts(t: Table, now: U8, ip: IpAddr) {
    Full(t) && exists c :: 0 <= c < SIZE && t[c].ip == ip && IsOldest(t, now, c)
  }

  /**
   An update keeps addresses apart if and only if its address has no half of 0xffff, or is the broadcast
   address that marks free entries, or is not in the table yet, or is that of the entry that is thrown away.
   */
  lemma UpdateKeepsUnique(t: Table, now: U8, ip: IpAddr, mac: Mac)
    requires Unique(t)
    ensures Unique(Updated(t, now, ip, mac)) <==> Proper(ip) || ip == BROADCAST || !Holds(t, ip) || Evicts(t, now, ip)
  {
    if Proper(ip) || ip == BROADCAST || !Holds(t, ip) {
      OtherwiseUnique(t, now, ip, mac);
    } else {
      var k :| 0 <= k < SIZE && t[k].ip == ip;
      ImproperUpdate(t, now, ip, mac, k);
      if Full(t) {
        OldestIs(t, now, k);
      }
    }
  }

  lemma OtherwiseUnique(t: Table, now: U8, ip: IpAddr, mac: Mac)
    requires Unique(t) && (Proper(ip) || ip == BROADCAST || !Holds(t, ip))
    ensures Unique(Updated(t, now, ip, mac))
  {}

  /** An address with a half of 0xffff is stored a second time unless its entry is the slot filled. */
  lemma ImproperUpdate(t: Table, now: U8, ip: IpAddr, mac: Mac, k: nat)
    requires Unique(t) && !Proper(ip) && ip != BROADCAST && k < SIZE && t[k].ip == ip
    ensures Slot(t, now, ip) == if Full(t) then OldestFrom(t, now, 0, 0, 0) else UnusedFrom(t, 0)
    ensures Unique(Updated(t, now, ip, mac)) <==> Slot(t, now, ip) == k
  {
    var s, u := Slot(t, now, ip), Updated(t, now, ip, mac);
    if k != s {
      assert u[k].ip == u[s].ip == ip && u[k].Used() && u[s].Used();
      assert u[if k < s then k else s].ip == u[if k < s then s else k].ip;
    }
  }

  lemma UpdateKeepsAgreement(t: Table, latest: map<IpAddr, Mac>, now: U8, ip: IpAddr, mac: Mac)
    requires Unique(t) && Agrees(t, latest) && Proper(ip)
    ensures Unique(Updated(t, now, ip, mac)) && Agrees(Updated(t, now, ip, mac), latest[ip := mac])
  {
    UpdateKeepsUnique(t, now, ip, mac);
    var s, u := Slot(t, now, ip), Updated(t, now, ip, mac);
    forall i | 0 <= i < SIZE && u[i].Used() ensures u[i].ip in latest[ip := mac] && u[i].mac == latest[ip := mac][u[i].ip] {
      if i != s {
        assert u[i].ip != u[s].ip;
      }
    }
  }

  lemma AgingKeeps(t: Table, latest: map<IpAddr, Mac>, now: U8)
    requires Unique(t) && Agrees(t, latest)
    ensures Unique(Aged(t, now)) && Agrees(Aged(t, now), latest)
  {}

  // ----- Runs -----

  datatype Event = Update(ip: IpAddr, mac: Mac) | Tick

  datatype Cache = Cache(table: Table, now: U8)

  function Happen(c: Cache, e: Event): Cache {
    match e
    case Update(ip, mac) => c.(table := Updated(c.table, c.now, ip, mac))
    case Tick => var now: U8 := (c.now as int + 1) % TWO8; Cache(Aged(c.table, now), now)
  }

  function Run(c: Cache, es: seq<Event>): Cache {
    if es == [] then c else var n := |es| - 1; Happen(Run(c, es[..n]), es[n])
  }

  /** The last writer of each address. */
  function Latest(es: seq<Event>): map<IpAddr, Mac> {
    if es == [] then map[]
    else
      var n := |es| - 1;
      var before := Latest(es[..n]);
      if es[n].Update? then before[es[n].ip := es[n].mac] else before
  }

  /** After any updates and ticks no address is in the table twice, and each is there with its last writer. */
  lemma {:induction false} CacheAgrees(start: Cache, es: seq<Event>)
    requires forall i :: 0 <= i < SIZE ==> !start.table[i].Used()
    requires forall i :: 0 <= i < |es| && es[i].Update? ==> Proper(es[i].ip)
    ensures Unique(Run(start, es).table) && Agrees(Run(start, es).table, Latest(es))
  {
    if es != [] {
      var n := |es| - 1;
      CacheAgrees(start, es[..n]);
      var c := Run(start, es[..n]);
      match es[n]
      case Update(ip, mac) => UpdateKeepsAgreement(c.table, Latest(es[..n]), c.now, ip, mac);
      case Tick => AgingKeeps(c.table, Latest(es[..n]), (c.now as int + 1) % TWO8);
    }
  }

  /** A run that stores an address twice: any address with one half of 0xffff, supplied twice. */
  lemma StoredTwice(start: Cache, ip: IpAddr, first: Mac, second: Mac)
    requires !Proper(ip) && ip != BROADCAST && forall i :: 0 <= i < SIZE ==> !start.table[i].Used()
    ensures var t := Run(start, [Update(ip, first), Update(ip, second)]).table;
            t[0].ip == ip && t[1].ip == ip && t[0].mac == first && t[1].mac == second
  {
    var es := [Update(ip, first), Update(ip, second)];
    assert es[..1] == [Update(ip, first)] && [Update(ip, first)][..0] == [];
    var c := Happen(start, Update(ip, first));
    assert Run(start, es[..1]) == c;
    assert UnusedFrom(start.table, 0) == 0;
    assert c.table[0].ip == ip && UnusedFrom(c.table, 0) == 1 by {
      assert UnusedFrom(c.table, 1) == 1;
    }
  }

  function Ticks(es: seq<Event>): nat {
    if es == [] then 0 else Ticks(es[..|es| - 1]) + (if es[|es| - 1].Tick? then 1 else 0)
  }

  /** Before arptime wraps around it counts the ticks, and no entry is from the future. */
  lemma {:induction false} NoneFromFuture(start: Cache, es: seq<Event>)
    requires start.now == 0 && Ticks(es) < TWO8 && forall i :: 0 <= i < SIZE ==> !start.table[i].Used()
    ensures var c := Run(start, es);
            c.now == Ticks(es) && forall k :: 0 <= k < SIZE && c.table[k].Used() ==> c.table[k].time <= c.now
  {
    if es != [] {
      NoneFromFuture(start, es[..|es| - 1]);
    }
  }

  /**
   In every run of fewer than 256 ticks from an empty table: when the table is full and an address comes
   that is not found in it, the entry that has to go is one of the oldest.
   */
  lemma EvictsOldest(start: Cache, es: seq<Event>, ip: IpAddr)
    requires start.now == 0 && Ticks(es) < TWO8 && forall i :: 0 <= i < SIZE ==> !start.table[i].Used()
    requires Full(Run(start, es).table) && !(Proper(ip) && Holds(Run(start, es).table, ip))
    ensures var c := Run(start, es);
            forall k :: 0 <= k < SIZE ==> c.table[Slot(c.table, c.now, ip)].time <= c.table[k].time
  {
    NoneFromFuture(start, es);
    OldestGoes(Run(start, es).table, Run(start, es).now, ip);
  }

  lemma OldestGoes(t: Table, now: U8, ip: IpAddr)
    requires Full(t) && !(Proper(ip) && Holds(t, ip)) && forall k :: 0 <= k < SIZE ==> t[k].time <= now
    ensures forall k :: 0 <= k < SIZE ==> t[Slot(t, now, ip)].time <= t[k].time
  {
    var s := Slot(t, now, ip);
    OldestIs(t, now, s);
    forall k | 0 <= k < SIZE ensures t[s].time <= t[k].time {
      assert Years(t[k], now) <= Years(t[s], now);
    }
  }

  // ----- The table in place -----

  datatype Output = ToBroadcast | ToMac(mac: Mac) | ArpRequest(target: IpAddr)

  // ----- How long an entry lasts -----

  function Ticking(n: nat): (es: seq<Event>)
    ensures |es| == n
  {
    seq(n, _ => Tick)
  }

  lemma TickingMore(n: nat)
    requires n > 0
    ensures Ticking(n)[..n - 1] == Ticking(n - 1) && Ticking(n)[n - 1] == Tick
  {}

  /**
   Before the 8-bit clock wraps around, with no updates: an entry is there as long as fewer than 120 ticks
   (of ten seconds each) have passed since it was supplied, and is gone from then on.
   */
  lemma {:induction false} EntryLasts(start: Cache, k: nat, n: nat)
    requires k < SIZE && start.table[k].Used() && start.table[k].time <= start.now && start.now + n < TWO8
    requires start.now - start.table[k].time < 120
    ensures var c := Run(start, Ticking(n));
            && c.now == start.now + n
            && (start.now + n - start.table[k].time < 120 ==> c.table[k] == start.table[k])
            && (start.now + n - start.table[k].time >= 120 ==> !c.table[k].Used())
  {
    if n > 0 {
      EntryLasts(start, k, n - 1);
      TickingMore(n);
    }
  }

  class Arp {
    const table: array<Entry>
    var arptime: U8

    ghost predicate Valid()
      reads this
    {
      table.Length == SIZE
    }

    ghost function State(): Cache
      requires Valid()
      reads this, table
    {
      Cache(table[..], arptime)
    }

    /** uip_arp_init on a table of unspecified contents. */
    constructor (contents: Table)
      ensures Valid() && fresh(table) && forall i :: 0 <= i < SIZE ==> !table[i].Used()
    {
      table := new Entry[SIZE](i requires 0 <= i < SIZE => contents[i]);
      arptime := 0;
      new;
      for i := 0 to SIZE
        invariant forall k :: 0 <= k < i ==> !table[k].Used()
      {
        table[i] := table[i].(ip := BROADCAST);
      }
    }

    /** uip_arp_timer */
    method Timer()
      requires Valid()
      modifies this, table
      ensures Valid() && State() == Happen(old(State()), Tick)
    {
      arptime := (arptime as int + 1) % TWO8;
      ghost var t: Table := old(table[..]);
      for i := 0 to SIZE
        invariant arptime == (old(arptime) as int + 1) % TWO8
        invariant forall k :: 0 <= k < i ==> table[k] == Aged(t, arptime)[k]
        invariant forall k :: i <= k < SIZE ==> table[k] == t[k]
      {
        if table[i].ip != BROADCAST && arptime as int - table[i].time >= MAXAGE {
          table[i] := table[i].(ip := BROADCAST);
        }
      }
      assert table[..] == Aged(t, arptime);
    }

    /** uip_arp_update */
    method Update(ip: IpAddr, mac: Mac)
      requires Valid()
      modifies table
      ensures Valid() && State() == Happen(old(State()), Event.Update(ip, mac))
    {
      ghost var t: Table := table[..];
      var i := 0;
      while i < SIZE && !(table[i].ip.hi != 0xFFFF && table[i].ip.lo != 0xFFFF && table[i].ip == ip)
        invariant 0 <= i <= SIZE && FindFrom(t, ip, i) == FindFrom(t, ip, 0)
      {
        i := i + 1;
      }
      if i == SIZE {
        i := Unused();
        if i == SIZE {
          i := Oldest();
        }
      }
      table[i] := Entry(ip, mac, arptime);
      assert table[..] == t[i := Entry(ip, mac, arptime)];
    }

    method Unused() returns (i: nat)
      requires Valid()
      ensures i == UnusedFrom(table[..], 0)
    {
      i := 0;
      while i < SIZE && table[i].ip != BROADCAST
        invariant 0 <= i <= SIZE && UnusedFrom(table[..], i) == UnusedFrom(table[..], 0)
      {
        i := i + 1;
      }
    }

    method Oldest() returns (c: nat)
      requires Valid()
      ensures c == OldestFrom(table[..], arptime, 0, 0, 0)
    {
      var tmpage := 0;
      c := 0;
      ghost var t := table[..];
      for i := 0 to SIZE
        invariant 0 <= tmpage && c < SIZE
        invariant OldestFrom(t, arptime, i, tmpage, c) == OldestFrom(t, arptime, 0, 0, 0)
      {
        OldestStep(t, arptime, i, tmpage, c);
        if arptime as int - table[i].time > tmpage {
          tmpage := arptime as int - table[i].time;
          c := i;
        }
      }
    }

    /** uip_arp_out: broadcast, the hardware address of the next hop, or a request for it. */
    method Out(dest: IpAddr, host: IpAddr, mask: IpAddr, router: IpAddr, ghost latest: map<IpAddr, Mac>) returns (o: Output)
      requires Valid() && Unique(table[..]) && Agrees(table[..], latest)
      ensures dest == BROADCAST ==> o == ToBroadcast
      ensures dest != BROADCAST ==> Chosen(table[..], NextHop(dest, host, mask, router), o)
      ensures var hop := NextHop(dest, host, mask, router);
              dest != BROADCAST && hop != BROADCAST && Holds(table[..], hop) ==> hop in latest && o == ToMac(latest[hop])
    {
      if dest == BROADCAST {
        return ToBroadcast;
      }
      var hop := if SameNet(dest, host, mask) then dest else router;
      var i := 0;
      while i < SIZE && table[i].ip != hop
        invariant 0 <= i <= SIZE && forall k :: 0 <= k < i ==> table[k].ip != hop
      {
        i := i + 1;
      }
      if i == SIZE {
        o := ArpRequest(hop);
      } else {
        assert table[..][i] == table[i];
        o := ToMac(table[i].mac);
      }
    }
  }

  /** uip_ipaddr_maskcmp */
  predicate SameNet(a: IpAddr, b: IpAddr, mask: IpAddr) {
    And(a.hi, mask.hi) == And(b.hi, mask.hi) && And(a.lo, mask.lo) == And(b.lo, mask.lo)
  }

  /** The destination itself if it is on the local network, otherwise the default router. */
  function NextHop(dest: IpAddr, host: IpAddr, mask: IpAddr, router: IpAddr): IpAddr {
    if SameNet(dest, host, mask) then dest else router
  }

  /** The two addresses agree in every bit in which the mask has a one. */
  ghost predicate Agree(a: IpAddr, b: IpAddr, mask: IpAddr) {
    AgreeUnder(a.hi, b.hi, mask.hi) && AgreeUnder(a.lo, b.lo, mask.lo)
  }

  /** A destination on the own network is reached directly, any other by way of the router. */
  lemma RoutedIffForeign(dest: IpAddr, host: IpAddr, mask: IpAddr, router: IpAddr)
    ensures Agree(dest, host, mask) ==> NextHop(dest, host, mask, router) == dest
    ensures !Agree(dest, host, mask) ==> NextHop(dest, host, mask, router) == router
  {
    AndAgrees(dest.hi, host.hi, mask.hi);
    AndAgrees(dest.lo, host.lo, mask.lo);
  }

  /**
   The first entry for the hop decides, else it is asked for. (A router address of 255.255.255.255 finds
   a free entry, with whatever hardware address that last had.)
   */
  predicate Chosen(t: Table, hop: IpAddr, o: Output) {
    if Holds(t, hop) then
      exists i :: 0 <= i < SIZE && t[i].ip == hop && o == ToMac(t[i].mac) && forall k :: 0 <= k < i ==> t[k].ip != hop
    else o == ArpRequest(hop)
  }
}
