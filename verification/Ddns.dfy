/**
 The dynamic-DNS daemon of ddns_updater.c: two priority queues of update nodes, the turn
 that performs one update and schedules the next, and the requests of a client.
 */
module Ddns {
  import opened Words

  type Name = string
  datatype Config = Config(checkInterval: int, forceInterval: int)
  type Services = map<Name, Config>
  datatype Node = Node(name: Name, nextTime: int, lastFull: int)

  // ----- priority_queue.c: entries in order, first come first served among equals -----

  datatype Entry = Entry(priority: int, node: Node)
  type Queue = seq<Entry>

  function Push(q: Queue, e: Entry): Queue {
    if q == [] then [e]
    else if e.priority < q[0].priority then [e] + q
    else [q[0]] + Push(q[1..], e)
  }

  /** The node with the given id, and the queue without it. */
  function Remove(q: Queue, name: Name): (Option<Node>, Queue) {
    if q == [] then (None, [])
    else if q[0].node.name == name then (Some(q[0].node), q[1..])
    else var (found, rest) := Remove(q[1..], name); (found, [q[0]] + rest)
  }

  ghost predicate Sorted(q: Queue) {
    forall i, j :: 0 <= i <= j < |q| ==> q[i].priority <= q[j].priority
  }

  /** The services that have a node in the queue, with how many. */
  ghost function Names(q: Queue): multiset<Name> {
    if q == [] then multiset{} else multiset{q[0].node.name} + Names(q[1..])
  }

  lemma {:induction false} NamesOfPush(q: Queue, e: Entry)
    ensures Names(Push(q, e)) == Names(q) + multiset{e.node.name}
  {
    if q == [] || e.priority < q[0].priority {
      assert Push(q, e)[1..] == q;
    } else {
      NamesOfPush(q[1..], e);
      assert Push(q, e)[1..] == Push(q[1..], e);
    }
  }

  lemma {:induction false} NamesOfRemove(q: Queue, name: Name)
    ensures Remove(q, name).0.Some? <==> name in Names(q)
    ensures Remove(q, name).0.Some? ==> Remove(q, name).0.value.name == name
    ensures Names(Remove(q, name).1) == Names(q) - multiset{name}
  {
    if q != [] && q[0].node.name != name {
      NamesOfRemove(q[1..], name);
      assert Remove(q, name).1[1..] == Remove(q[1..], name).1;
    }
  }

  lemma {:induction false} MembersOfPush(q: Queue, e: Entry)
    ensures forall x :: x in Push(q, e) <==> x == e || x in q
  {
    if q != [] && e.priority >= q[0].priority {
      MembersOfPush(q[1..], e);
    }
  }

  lemma {:induction false} SortedPush(q: Queue, e: Entry)
    requires Sorted(q)
    ensures Sorted(Push(q, e))
  {
    if q != [] && e.priority >= q[0].priority {
      SortedPush(q[1..], e);
      MembersOfPush(q[1..], e);
      var p := Push(q[1..], e);
      forall j | 0 <= j < |p| ensures q[0].priority <= p[j].priority {
        assert p[j] in p;
      }
    }
  }

  /** Removing a node leaves the others in their order. */
  lemma {:induction false} MembersOfRemove(q: Queue, name: Name)
    ensures forall x :: x in Remove(q, name).1 ==> x in q
  {
    if q != [] && q[0].node.name != name {
      MembersOfRemove(q[1..], name);
    }
  }

  lemma {:induction false} SortedRemove(q: Queue, name: Name)
    requires Sorted(q)
    ensures Sorted(Remove(q, name).1)
  {
    if q != [] && q[0].node.name != name {
      SortedRemove(q[1..], name);
      MembersOfRemove(q[1..], name);
      var p := Remove(q[1..], name).1;
      forall j | 0 <= j < |p| ensures q[0].priority <= p[j].priority {
        assert p[j] in p;
      }
    }
  }

  // ----- One update -----

  const FAILED := 3
  const NOT_NEEDED := 4
  const SUCCESSFUL := 5
  const MULTIPLE := 6

  /**
   What the outside world contributes to one turn of the update loop: the clock, the two
   addresses, and how an update went that was really made.
   */
  datatype Turn = Turn(now: int, local: Option<string>, remote: Option<string>, result: int)

  predicate Forced(node: Node, cfg: Config, now: int) {
    now - node.lastFull >= cfg.forceInterval
  }

  /** do_single_update, up to how a real update is made. */
  function Status(node: Node, cfg: Config, t: Turn): int {
    if t.local.None? then FAILED
    else if !Forced(node, cfg, t.now) && t.local == t.remote then NOT_NEEDED
    else t.result
  }

  /** The node with its next update time. */
  function Reschedule(node: Node, cfg: Config, now: int, status: int): Node {
    var nextCheck := now + cfg.checkInterval;
    if status == SUCCESSFUL then
      node.(nextTime := Min(now + cfg.forceInterval, nextCheck), lastFull := now)
    else if status == NOT_NEEDED then
      node.(nextTime := Min(node.lastFull + cfg.forceInterval, nextCheck))
    else
      node.(nextTime := Min(now + cfg.forceInterval, nextCheck))
  }

  /** A real update was forced, yet its script claims that none was needed. */
  predicate Contrary(node: Node, cfg: Config, t: Turn) {
    Forced(node, cfg, t.now) && t.local.Some? && t.result == NOT_NEEDED
  }

  /** The loader keeps only services with positive intervals. */
  ghost predicate Loaded(cs: Services) {
    |cs| > 0 && forall n :: n in cs ==> cs[n].checkInterval > 0 && cs[n].forceInterval > 0
  }

  /**
   The next update is later than now and within a check interval, except exactly when an
   update script reports "not needed" although the update was forced.
   */
  lemma RescheduledWithinInterval(node: Node, cfg: Config, t: Turn)
    requires cfg.checkInterval > 0 && cfg.forceInterval > 0
    ensures var next := Reschedule(node, cfg, t.now, Status(node, cfg, t)).nextTime;
            && next <= t.now + cfg.checkInterval
            && (t.now < next <==> !Contrary(node, cfg, t))
    ensures Contrary(node, cfg, t) ==> Status(node, cfg, t) == NOT_NEEDED
  {}

  /**
   The time of the next update, exactly: after a success, or when none was needed, a check interval from now
   or, if that is earlier, when the next forced update falls due; after a failure the shorter interval from now.
   */
  lemma NextUpdate(node: Node, cfg: Config, t: Turn)
    requires cfg.checkInterval > 0 && cfg.forceInterval > 0 && !Contrary(node, cfg, t)
    ensures var status := Status(node, cfg, t); var later := Reschedule(node, cfg, t.now, status);
            if status == SUCCESSFUL || status == NOT_NEEDED then
              && (later.nextTime == t.now + cfg.checkInterval || Forced(later, cfg, later.nextTime))
              && later.nextTime <= t.now + cfg.checkInterval
              && forall u :: t.now <= u < later.nextTime ==> !Forced(later, cfg, u)
            else later.nextTime == t.now + Min(cfg.forceInterval, cfg.checkInterval) && later.lastFull == node.lastFull
  {}

  /** No change of address goes unnoticed, and no forced update is skipped. */
  lemma SkippedOnlyWhenCurrent(node: Node, cfg: Config, t: Turn)
    requires t.result != NOT_NEEDED
    ensures Status(node, cfg, t) == NOT_NEEDED
            <==> t.local.Some? && t.remote == t.local && t.now < node.lastFull + cfg.forceInterval
  {}

  // ----- The daemon -----

  datatype Response = Scheduled(count: nat) | Result(status: int, name: Name)

  datatype Daemon = Daemon(update: Queue, request: Queue, sent: seq<Response>)

  /** unsigned long arithmetic on a 32-bit router. */
  function Priority(time: int, reference: int): int { (time - reference) % TWO32 }

  /** Every service has exactly one node in the two queues together. */
  ghost predicate OneNodeEach(cs: Services, d: Daemon) {
    Names(d.update) + Names(d.request) == multiset(cs.Keys)
  }

  /** There is a node to take, and it belongs to a service; the C code relies on it. */
  predicate Ready(cs: Services, d: Daemon) {
    if d.request != [] then d.request[0].node.name in cs
    else d.update != [] && d.update[0].node.name in cs
  }

  lemma AlwaysReady(cs: Services, d: Daemon)
    requires OneNodeEach(cs, d) && |cs| > 0
    ensures Ready(cs, d)
  {
    assert |cs.Keys| == |cs|;
    var some :| some in cs.Keys;
    assert some in Names(d.update) + Names(d.request);
    if d.request != [] {
      assert d.request[0].node.name in Names(d.update) + Names(d.request);
    } else {
      assert d.update[0].node.name in Names(d.update) + Names(d.request);
    }
  }

  /** The condition of the update loop, with the clock as last read. */
  predicate Busy(d: Daemon, now: int) {
    d.request != [] || (d.update != [] && now >= d.update[0].node.nextTime)
  }

  function Next(cs: Services, d: Daemon): Node
    requires Ready(cs, d)
  {
    if d.request != [] then d.request[0].node else d.update[0].node
  }

  /** The update of one node: its status, and the entry for its next update. */
  function Attempt(cs: Services, reference: int, node: Node, t: Turn): (int, Entry)
    requires node.name in cs
  {
    var cfg := cs[node.name];
    var status := Status(node, cfg, t);
    var later := Reschedule(node, cfg, t.now, status);
    (status, Entry(Priority(later.nextTime, reference), later))
  }

  /** One turn of the update loop. */
  function Process(cs: Services, reference: int, d: Daemon, t: Turn): Daemon
    requires Ready(cs, d)
  {
    var (status, entry) := Attempt(cs, reference, Next(cs, d), t);
    if d.request != [] then
      Daemon(Push(d.update, entry), d.request[1..], d.sent + [Result(status, Next(cs, d).name)])
    else
      Daemon(Push(d.update[1..], entry), d.request, d.sent)
  }

  /** A turn loses no node, duplicates none, and leaves no request unanswered. */
  lemma ProcessConserves(cs: Services, reference: int, d: Daemon, t: Turn)
    requires OneNodeEach(cs, d) && Ready(cs, d)
    ensures var e := Process(cs, reference, d, t); OneNodeEach(cs, e) && Accounted(d, e)
  {
    var (status, entry) := Attempt(cs, reference, Next(cs, d), t);
    if d.request != [] {
      MoveRequest(d, entry, status);
    } else {
      MoveDue(d, entry);
    }
  }

  /** Results sent and requests pending add up to the same. */
  ghost predicate Accounted(d: Daemon, e: Daemon) {
    Answered(e.sent) + Names(e.request) == Answered(d.sent) + Names(d.request)
  }

  lemma MoveRequest(d: Daemon, entry: Entry, status: int)
    requires d.request != [] && entry.node.name == d.request[0].node.name
    ensures var e := Daemon(Push(d.update, entry), d.request[1..], d.sent + [Result(status, entry.node.name)]);
            && Names(e.update) + Names(e.request) == Names(d.update) + Names(d.request)
            && Accounted(d, e)
  {
    var name := entry.node.name;
    NamesOfPush(d.update, entry);
    AnsweredMore(d.sent, Result(status, name));
    MoveName(Names(d.update), Names(d.request[1..]), name);
    MoveName(Answered(d.sent), Names(d.request[1..]), name);
    assert Names(d.request) == multiset{name} + Names(d.request[1..]);
  }

  lemma MoveName(a: multiset<Name>, b: multiset<Name>, name: Name)
    ensures (a + multiset{name}) + b == a + (multiset{name} + b)
  {}

  lemma MoveDue(d: Daemon, entry: Entry)
    requires d.update != [] && entry.node.name == d.update[0].node.name
    ensures Names(Push(d.update[1..], entry)) == Names(d.update)
  {
    NamesOfPush(d.update[1..], entry);
  }

  /** The services named in results, with how often. */
  ghost function Answered(sent: seq<Response>): multiset<Name> {
    if sent == [] then multiset{}
    else Answered(sent[..|sent| - 1])
         + (match sent[|sent| - 1] case Scheduled(_) => multiset{} case Result(_, name) => multiset{name})
  }

  lemma AnsweredMore(sent: seq<Response>, r: Response)
    ensures Answered(sent + [r]) == Answered(sent) + Answered([r])
    ensures r.Result? ==> Answered([r]) == multiset{r.name}
  {
    assert (sent + [r])[..|sent|] == sent;
    assert [r][..0] == [];
  }

  // ----- The update loop -----

  /** The daemon after n turns of the loop (or stopped short where it could not go on). */
  ghost function After(cs: Services, reference: int, d: Daemon, turns: nat -> Turn, n: nat): Daemon {
    if n == 0 then d
    else Turned(cs, reference, After(cs, reference, d, turns, n - 1), turns(n - 1))
  }

  function Turned(cs: Services, reference: int, e: Daemon, t: Turn): Daemon {
    if Ready(cs, e) then Process(cs, reference, e, t) else e
  }

  /** The clock as the loop condition sees it after n turns. */
  ghost function ClockAt(start: int, turns: nat -> Turn, n: nat): int {
    if n == 0 then start else turns(n - 1).now
  }

  ghost predicate GoesOn(cs: Services, reference: int, d: Daemon, start: int, turns: nat -> Turn, k: nat) {
    Busy(After(cs, reference, d, turns, k), ClockAt(start, turns, k))
  }

  /** The loop, entered at time `start`, takes at least n turns. */
  ghost predicate RunsFor(cs: Services, reference: int, d: Daemon, start: int, turns: nat -> Turn, n: nat) {
    n == 0 || (RunsFor(cs, reference, d, start, turns, n - 1) && GoesOn(cs, reference, d, start, turns, n - 1))
  }

  /** The loop, entered at time `start`, ends after exactly n turns. */
  ghost predicate EndsAfter(cs: Services, reference: int, d: Daemon, start: int, turns: nat -> Turn, n: nat) {
    RunsFor(cs, reference, d, start, turns, n) && !GoesOn(cs, reference, d, start, turns, n)
  }

  /** What every turn keeps, the loop keeps. */
  lemma {:induction false} AfterKeeps(cs: Services, reference: int, d: Daemon, turns: nat -> Turn, n: nat, good: Daemon -> bool)
    requires good(d) && forall e, t :: good(e) ==> good(Turned(cs, reference, e, t))
    ensures good(After(cs, reference, d, turns, n))
  {
    if n > 0 {
      AfterKeeps(cs, reference, d, turns, n - 1, good);
    }
  }

  lemma AfterConserves(cs: Services, reference: int, d: Daemon, turns: nat -> Turn, n: nat)
    requires OneNodeEach(cs, d) && |cs| > 0
    ensures var e := After(cs, reference, d, turns, n); OneNodeEach(cs, e) && Ready(cs, e) && Accounted(d, e)
  {
    var good := (e: Daemon) => Conserved(cs, d, e);
    AlwaysReady(cs, d);
    forall e, t | good(e) ensures good(Turned(cs, reference, e, t)) {
      TurnConserves(cs, reference, d, e, t);
    }
    AfterKeeps(cs, reference, d, turns, n, good);
  }

  ghost predicate Conserved(cs: Services, d: Daemon, e: Daemon) {
    OneNodeEach(cs, e) && Ready(cs, e) && Accounted(d, e)
  }

  lemma TurnConserves(cs: Services, reference: int, d: Daemon, e: Daemon, t: Turn)
    requires |cs| > 0 && Conserved(cs, d, e)
    ensures Conserved(cs, d, Turned(cs, reference, e, t))
  {
    ProcessConserves(cs, reference, e, t);
    AlwaysReady(cs, Process(cs, reference, e, t));
  }

  ghost predicate ReadyAt(cs: Services, reference: int, d: Daemon, turns: nat -> Turn, k: nat) {
    Ready(cs, After(cs, reference, d, turns, k))
  }

  /** There is never a turn without a node to take. */
  ghost predicate StaysReady(cs: Services, reference: int, d: Daemon, turns: nat -> Turn) {
    forall k: nat :: ReadyAt(cs, reference, d, turns, k)
  }

  lemma AlwaysStaysReady(cs: Services, reference: int, d: Daemon, turns: nat -> Turn)
    requires OneNodeEach(cs, d) && |cs| > 0
    ensures StaysReady(cs, reference, d, turns)
  {
    forall k: nat ensures ReadyAt(cs, reference, d, turns, k) {
      AfterConserves(cs, reference, d, turns, k);
    }
  }

  /**
   Whatever the clock and the world do meanwhile: when the loop ends every pending request has
   had exactly one result and every service still has exactly one node.
   */
  lemma LoopAnswersRequests(cs: Services, reference: int, d: Daemon, start: int, turns: nat -> Turn, n: nat)
    requires OneNodeEach(cs, d) && |cs| > 0 && EndsAfter(cs, reference, d, start, turns, n)
    ensures var e := After(cs, reference, d, turns, n);
            && e.request == [] && Names(e.update) == multiset(cs.Keys)
            && Answered(e.sent) == Answered(d.sent) + Names(d.request)
  {
    AfterConserves(cs, reference, d, turns, n);
    assert Names([]) == multiset{};
  }

  /** How many turns are left at a clock that stands still: requests, and updates that are due. */
  ghost function Work(d: Daemon, now: int): nat {
    |d.request| + Due(d.update, now)
  }

  ghost function Due(q: Queue, now: int): nat {
    if q == [] then 0 else (if now >= q[0].node.nextTime then 1 else 0) + Due(q[1..], now)
  }

  lemma {:induction false} DueOfPush(q: Queue, e: Entry, now: int)
    requires e.node.nextTime > now
    ensures Due(Push(q, e), now) == Due(q, now)
  {
    if q == [] || e.priority < q[0].priority {
      assert Push(q, e)[1..] == q;
    } else {
      DueOfPush(q[1..], e, now);
      assert Push(q, e)[1..] == Push(q[1..], e);
    }
  }

  lemma ProcessWorks(cs: Services, reference: int, d: Daemon, t: Turn)
    requires Loaded(cs) && Ready(cs, d) && Busy(d, t.now) && !IsContrary(cs, d, t)
    ensures Work(Process(cs, reference, d, t), t.now) == Work(d, t.now) - 1
  {
    var (status, entry) := Attempt(cs, reference, Next(cs, d), t);
    RescheduledWithinInterval(Next(cs, d), cs[Next(cs, d).name], t);
    DueOfPush(if d.request != [] then d.update else d.update[1..], entry, t.now);
  }

  ghost predicate IsContrary(cs: Services, d: Daemon, t: Turn) {
    Ready(cs, d) && Contrary(Next(cs, d), cs[Next(cs, d).name], t)
  }

  ghost predicate ContraryAt(cs: Services, reference: int, d: Daemon, turns: nat -> Turn, k: nat) {
    IsContrary(cs, After(cs, reference, d, turns, k), turns(k))
  }

  /** No turn among the first n has a script that contradicts a forced update. */
  ghost predicate NoneContrary(cs: Services, reference: int, d: Daemon, turns: nat -> Turn, n: nat) {
    forall k: nat :: k < n ==> !ContraryAt(cs, reference, d, turns, k)
  }

  ghost predicate StandsStill(turns: nat -> Turn, now: int) {
    forall k :: turns(k).now == now
  }

  /** At a clock that stands still the loop ends, after at most one turn per request and per update due. */
  lemma LoopEnds(cs: Services, reference: int, d: Daemon, now: int, turns: nat -> Turn)
    requires OneNodeEach(cs, d) && Loaded(cs)
    requires StandsStill(turns, now) && NoneContrary(cs, reference, d, turns, Work(d, now))
    ensures exists n: nat :: n <= Work(d, now) && EndsAfter(cs, reference, d, now, turns, n)
  {
    AlwaysStaysReady(cs, reference, d, turns);
    var n := 0;
    while GoesOn(cs, reference, d, now, turns, n)
      invariant RunsFor(cs, reference, d, now, turns, n)
      invariant n <= Work(d, now)
      decreases Work(d, now) - n
    {
      TurnsCost(cs, reference, d, now, turns, n);
      BusyHasWork(After(cs, reference, d, turns, n), now);
      n := n + 1;
    }
    assert EndsAfter(cs, reference, d, now, turns, n);
  }

  lemma {:induction false} TurnsCost(cs: Services, reference: int, d: Daemon, now: int, turns: nat -> Turn, k: nat)
    requires Loaded(cs) && StaysReady(cs, reference, d, turns)
    requires StandsStill(turns, now) && NoneContrary(cs, reference, d, turns, k)
    requires RunsFor(cs, reference, d, now, turns, k)
    ensures k + Work(After(cs, reference, d, turns, k), now) == Work(d, now)
    ensures ClockAt(now, turns, k) == now
  {
    if k > 0 {
      TurnsCost(cs, reference, d, now, turns, k - 1);
      var e := After(cs, reference, d, turns, k - 1);
      assert GoesOn(cs, reference, d, now, turns, k - 1) && !ContraryAt(cs, reference, d, turns, k - 1);
      assert ReadyAt(cs, reference, d, turns, k - 1);
      ProcessWorks(cs, reference, e, turns(k - 1));
    }
  }

  lemma BusyHasWork(d: Daemon, now: int)
    requires Busy(d, now)
    ensures Work(d, now) > 0
  {}

  /** The queue of updates is in the order of their times, as long as no time wraps around. */
  ghost predicate InTime(d: Daemon, reference: int) {
    && Sorted(d.update)
    && forall e :: e in d.update ==> e.priority == e.node.nextTime - reference
  }

  lemma ProcessInTime(cs: Services, reference: int, d: Daemon, t: Turn)
    requires InTime(d, reference) && Loaded(cs) && Ready(cs, d) && !IsContrary(cs, d, t)
    requires reference <= t.now && t.now + cs[Next(cs, d).name].checkInterval < reference + TWO32
    ensures InTime(Process(cs, reference, d, t), reference)
  {
    RescheduledWithinInterval(Next(cs, d), cs[Next(cs, d).name], t);
    PushedInTime(cs, reference, d, t);
  }

  /** A next time since the start that does not wrap around keeps the queue in order. */
  lemma PushedInTime(cs: Services, reference: int, d: Daemon, t: Turn)
    requires InTime(d, reference) && Ready(cs, d)
    requires reference <= Attempt(cs, reference, Next(cs, d), t).1.node.nextTime < reference + TWO32
    ensures InTime(Process(cs, reference, d, t), reference)
  {
    var entry := Attempt(cs, reference, Next(cs, d), t).1;
    var q := if d.request != [] then d.update else d.update[1..];
    assert Sorted(q);
    SortedPush(q, entry);
    MembersOfPush(q, entry);
  }

  /** When the loop has ended nothing is due. */
  lemma NothingDue(d: Daemon, reference: int, now: int)
    requires InTime(d, reference) && !Busy(d, now)
    ensures forall e :: e in d.update ==> e.node.nextTime > now
  {
    forall e | e in d.update ensures e.node.nextTime > now {
      var j :| 0 <= j < |d.update| && d.update[j] == e;
      assert d.update[0] in d.update;
    }
  }

  /** No time of a service's next update can wrap around. */
  ghost predicate ClockFits(cs: Services, reference: int, now: int) {
    reference <= now && forall n :: n in cs ==> now + cs[n].checkInterval < reference + TWO32
  }

  lemma {:induction false} AfterInTime(cs: Services, reference: int, d: Daemon, turns: nat -> Turn, n: nat)
    requires InTime(d, reference) && Loaded(cs) && StaysReady(cs, reference, d, turns)
    requires NoneContrary(cs, reference, d, turns, n) && forall k :: ClockFits(cs, reference, turns(k).now)
    ensures InTime(After(cs, reference, d, turns, n), reference)
  {
    if n > 0 {
      AfterInTime(cs, reference, d, turns, n - 1);
      assert ReadyAt(cs, reference, d, turns, n - 1) && !ContraryAt(cs, reference, d, turns, n - 1);
      ProcessInTime(cs, reference, After(cs, reference, d, turns, n - 1), turns(n - 1));
    }
  }

  /** Whatever the clock did meanwhile: when the loop has ended, no update is due at the time last read. */
  lemma LoopLeavesNothingDue(cs: Services, reference: int, d: Daemon, start: int, turns: nat -> Turn, n: nat)
    requires OneNodeEach(cs, d) && Loaded(cs) && InTime(d, reference)
    requires NoneContrary(cs, reference, d, turns, n) && forall k :: ClockFits(cs, reference, turns(k).now)
    requires EndsAfter(cs, reference, d, start, turns, n)
    ensures var e := After(cs, reference, d, turns, n);
            && InTime(e, reference)
            && forall x :: x in e.update ==> x.node.nextTime > ClockAt(start, turns, n)
  {
    AlwaysStaysReady(cs, reference, d, turns);
    AfterInTime(cs, reference, d, turns, n);
    NothingDue(After(cs, reference, d, turns, n), reference, ClockAt(start, turns, n));
  }

  /** One service, its update forced and due. */
  ghost predicate Stuck(cs: Services, d: Daemon, now: int) {
    && d.request == [] && |d.update| == 1 && d.update[0].node.name in cs
    && Forced(d.update[0].node, cs[d.update[0].node.name], now)
    && d.update[0].node.nextTime <= now
  }

  /** A clock that is at `now` or later, and never goes back. */
  ghost predicate NeverBack(turns: nat -> Turn, now: int) {
    now <= turns(0).now && forall k, m :: 0 <= k <= m ==> turns(k).now <= turns(m).now
  }

  /**
   If the script of that service always says "not needed", the loop never ends, at whatever clock that
   does not go back; so no request is ever read again.
   */
  lemma {:induction false} ContraryScriptLoops(cs: Services, reference: int, d: Daemon, now: int, turns: nat -> Turn, n: nat)
    requires Stuck(cs, d, now) && NeverBack(turns, now)
    requires forall k :: turns(k).local.Some? && turns(k).result == NOT_NEEDED
    ensures Stuck(cs, After(cs, reference, d, turns, n), ClockAt(now, turns, n)) && GoesOn(cs, reference, d, now, turns, n)
  {
    if n > 0 {
      ContraryScriptLoops(cs, reference, d, now, turns, n - 1);
      assert ClockAt(now, turns, n - 1) <= turns(n - 1).now;
      StaysStuck(cs, reference, After(cs, reference, d, turns, n - 1), turns(n - 1));
    }
  }

  lemma StaysStuck(cs: Services, reference: int, d: Daemon, t: Turn)
    requires Stuck(cs, d, t.now) && t.local.Some? && t.result == NOT_NEEDED
    ensures Stuck(cs, Process(cs, reference, d, t), t.now)
  {
    assert d.update[1..] == [];
  }

  // ----- A contrary script among others -----

  /** An entry of the service whose update has been due by force, at some time since the daemon started. */
  predicate Overdue(cs: Services, reference: int, x: Entry, name: Name, now: int) {
    && x.node.name == name && name in cs && x.node.nextTime <= now
    && reference <= x.node.lastFull + cs[name].forceInterval <= now
  }

  ghost predicate Blocked(cs: Services, reference: int, d: Daemon, name: Name, now: int) {
    exists x :: x in d.update && Overdue(cs, reference, x, name, now)
  }

  /** The script of the service says "not needed"; if another one contradicts a forced update, that is an overdue one too. */
  ghost predicate Stubborn(cs: Services, reference: int, d: Daemon, t: Turn, name: Name)
    requires Ready(cs, d)
  {
    var node := Next(cs, d);
    && (node.name == name ==> t.local.Some? && t.result == NOT_NEEDED)
    && (IsContrary(cs, d, t) ==> reference <= node.lastFull + cs[node.name].forceInterval)
  }

  lemma OverdueIsBusy(cs: Services, reference: int, d: Daemon, name: Name, now: int)
    requires InTime(d, reference) && Blocked(cs, reference, d, name, now)
    ensures Busy(d, now)
  {
    if !Busy(d, now) {
      NothingDue(d, reference, now);
    }
  }

  lemma StubbornInTime(cs: Services, reference: int, d: Daemon, t: Turn, name: Name)
    requires InTime(d, reference) && Loaded(cs) && Ready(cs, d) && Stubborn(cs, reference, d, t, name)
    requires ClockFits(cs, reference, t.now)
    ensures InTime(Process(cs, reference, d, t), reference)
  {
    if !IsContrary(cs, d, t) {
      ProcessInTime(cs, reference, d, t);
    } else {
      RescheduledWithinInterval(Next(cs, d), cs[Next(cs, d).name], t);
      PushedInTime(cs, reference, d, t);
    }
  }

  lemma StaysBlocked(cs: Services, reference: int, d: Daemon, t: Turn, name: Name, now: int)
    requires Loaded(cs) && Ready(cs, d) && Stubborn(cs, reference, d, t, name)
    requires Blocked(cs, reference, d, name, now) && now <= t.now
    ensures Blocked(cs, reference, Process(cs, reference, d, t), name, t.now)
  {
    var x :| x in d.update && Overdue(cs, reference, x, name, now);
    var (status, entry) := Attempt(cs, reference, Next(cs, d), t);
    var e := Process(cs, reference, d, t);
    if d.request != [] {
      MembersOfPush(d.update, entry);
      assert x in e.update;
    } else {
      MembersOfPush(d.update[1..], entry);
      if x == d.update[0] {
        assert entry in e.update && Overdue(cs, reference, entry, name, t.now);
      } else {
        assert x in e.update;
      }
    }
  }

  ghost predicate StubbornAt(cs: Services, reference: int, d: Daemon, turns: nat -> Turn, name: Name, k: nat) {
    var e := After(cs, reference, d, turns, k);
    Ready(cs, e) ==> Stubborn(cs, reference, e, turns(k), name)
  }

  /**
   One such script is enough to keep the daemon in its update loop for ever, however many other services
   there are and whatever becomes of their updates: no request is ever read again.
   */
  lemma {:induction false} ContraryScriptBlocks(cs: Services, reference: int, d: Daemon, start: int, turns: nat -> Turn, name: Name, n: nat)
    requires OneNodeEach(cs, d) && Loaded(cs) && InTime(d, reference) && Blocked(cs, reference, d, name, start)
    requires NeverBack(turns, start) && (forall k :: ClockFits(cs, reference, turns(k).now))
    requires forall k :: StubbornAt(cs, reference, d, turns, name, k)
    ensures var e := After(cs, reference, d, turns, n);
            InTime(e, reference) && Blocked(cs, reference, e, name, ClockAt(start, turns, n))
    ensures GoesOn(cs, reference, d, start, turns, n)
  {
    if n > 0 {
      ContraryScriptBlocks(cs, reference, d, start, turns, name, n - 1);
      var e, t := After(cs, reference, d, turns, n - 1), turns(n - 1);
      AfterConserves(cs, reference, d, turns, n - 1);
      assert StubbornAt(cs, reference, d, turns, name, n - 1);
      assert ClockAt(start, turns, n - 1) <= t.now;
      StubbornInTime(cs, reference, e, t, name);
      StaysBlocked(cs, reference, e, t, name, ClockAt(start, turns, n - 1));
    }
    OverdueIsBusy(cs, reference, After(cs, reference, d, turns, n), name, ClockAt(start, turns, n));
  }

  // ----- After a success -----

  /** All nodes of the service in the queue have been updated at t or later. */
  ghost predicate QueueSince(q: Queue, name: Name, t: int) {
    forall x :: x in q && x.node.name == name ==> x.node.lastFull >= t
  }

  ghost predicate UpdatedSince(d: Daemon, name: Name, t: int) {
    QueueSince(d.update, name, t) && QueueSince(d.request, name, t)
  }

  lemma {:induction false} NamedInQueue(q: Queue, x: Entry)
    requires x in q
    ensures x.node.name in Names(q)
  {
    if q[0] != x {
      NamedInQueue(q[1..], x);
    }
  }

  /** The node that is taken is the only one of its service. */
  lemma OnlyNode(cs: Services, d: Daemon, name: Name)
    requires OneNodeEach(cs, d) && Ready(cs, d) && Next(cs, d).name == name
    ensures var u := if d.request != [] then d.update else d.update[1..];
            var r := if d.request != [] then d.request[1..] else d.request;
            name !in Names(u) && name !in Names(r)
  {
    assert (Names(d.update) + Names(d.request))[name] == multiset(cs.Keys)[name] <= 1;
  }

  /** A successful update leaves only its own node, updated now. */
  lemma SuccessUpdates(cs: Services, reference: int, d: Daemon, t: Turn, name: Name)
    requires OneNodeEach(cs, d) && Ready(cs, d) && Next(cs, d).name == name
    requires Status(Next(cs, d), cs[name], t) == SUCCESSFUL
    ensures UpdatedSince(Process(cs, reference, d, t), name, t.now)
  {
    OnlyNode(cs, d, name);
    var u := if d.request != [] then d.update else d.update[1..];
    var r := if d.request != [] then d.request[1..] else d.request;
    var entry := Attempt(cs, reference, Next(cs, d), t).1;
    MembersOfPush(u, entry);
    forall x | x in u ensures x.node.name != name {
      NamedInQueue(u, x);
    }
    forall x | x in r ensures x.node.name != name {
      NamedInQueue(r, x);
    }
  }

  lemma StaysUpdated(cs: Services, reference: int, d: Daemon, t: Turn, name: Name, since: int)
    requires Ready(cs, d) && UpdatedSince(d, name, since) && since <= t.now
    ensures UpdatedSince(Process(cs, reference, d, t), name, since)
  {
    var entry := Attempt(cs, reference, Next(cs, d), t).1;
    assert Next(cs, d).name == name ==> Next(cs, d).lastFull >= since by {
      if d.request != [] {
        assert d.request[0] in d.request;
      } else {
        assert d.update[0] in d.update;
      }
    }
    MembersOfPush(if d.request != [] then d.update else d.update[1..], entry);
  }

  /** Turn i updates the service with success. */
  ghost predicate SucceedsAt(cs: Services, reference: int, d: Daemon, turns: nat -> Turn, name: Name, i: nat) {
    var e := After(cs, reference, d, turns, i);
    Ready(cs, e) && Next(cs, e).name == name && Status(Next(cs, e), cs[name], turns(i)) == SUCCESSFUL
  }

  lemma UpdatedThen(cs: Services, reference: int, d: Daemon, turns: nat -> Turn, name: Name, i: nat)
    requires OneNodeEach(cs, d) && |cs| > 0 && SucceedsAt(cs, reference, d, turns, name, i)
    ensures UpdatedSince(After(cs, reference, d, turns, i + 1), name, turns(i).now)
  {
    NextTurn(cs, reference, d, turns, i);
    SuccessUpdates(cs, reference, After(cs, reference, d, turns, i), turns(i), name);
  }

  lemma {:induction false} StaysSince(cs: Services, reference: int, d: Daemon, turns: nat -> Turn, name: Name, i: nat, j: nat, since: int)
    requires OneNodeEach(cs, d) && |cs| > 0 && i <= j && UpdatedSince(After(cs, reference, d, turns, i), name, since)
    requires forall k: nat :: i <= k ==> since <= turns(k).now
    ensures UpdatedSince(After(cs, reference, d, turns, j), name, since)
    decreases j
  {
    if i < j {
      StaysSince(cs, reference, d, turns, name, i, j - 1, since);
      OneTurnLater(cs, reference, d, turns, name, j - 1, since);
    }
  }

  lemma OneTurnLater(cs: Services, reference: int, d: Daemon, turns: nat -> Turn, name: Name, k: nat, since: int)
    requires OneNodeEach(cs, d) && |cs| > 0 && UpdatedSince(After(cs, reference, d, turns, k), name, since) && since <= turns(k).now
    ensures UpdatedSince(After(cs, reference, d, turns, k + 1), name, since)
  {
    NextTurn(cs, reference, d, turns, k);
    StaysUpdated(cs, reference, After(cs, reference, d, turns, k), turns(k), name, since);
  }

  lemma NextTurn(cs: Services, reference: int, d: Daemon, turns: nat -> Turn, k: nat)
    requires OneNodeEach(cs, d) && |cs| > 0
    ensures var e := After(cs, reference, d, turns, k);
            OneNodeEach(cs, e) && Ready(cs, e) && After(cs, reference, d, turns, k + 1) == Process(cs, reference, e, turns(k))
  {
    AfterConserves(cs, reference, d, turns, k);
  }

  /**
   Over runs of the update loop at a clock that does not go back: when a service has been updated with
   success, no turn forces its update again before a force interval is over.
   */
  lemma NotForcedSoon(cs: Services, reference: int, d: Daemon, start: int, turns: nat -> Turn, name: Name, i: nat, j: nat)
    requires OneNodeEach(cs, d) && |cs| > 0 && NeverBack(turns, start) && i < j
    requires SucceedsAt(cs, reference, d, turns, name, i)
    requires var f := After(cs, reference, d, turns, j); Ready(cs, f) && Next(cs, f).name == name
    requires turns(j).now < turns(i).now + cs[name].forceInterval
    ensures !Forced(Next(cs, After(cs, reference, d, turns, j)), cs[name], turns(j).now)
  {
    UpdatedThen(cs, reference, d, turns, name, i);
    StaysSince(cs, reference, d, turns, name, i + 1, j, turns(i).now);
    var f := After(cs, reference, d, turns, j);
    if f.request != [] {
      assert f.request[0] in f.request;
    } else {
      assert f.update[0] in f.update;
    }
  }
}
