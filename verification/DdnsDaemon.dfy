/**
 The dynamic-DNS daemon in place: the queues as run_daemon changes them, turn by turn and
 request by request, and the loop in which the client reads its responses.
 */
module DdnsDaemon {
  import opened Words
  import opened Ddns
  import opened DdnsClient

  class Service {
    var updateQueue: Queue
    var requestQueue: Queue
    var sent: seq<Response>
    const configs: Services
    const order: seq<Name>
    const reference: int

    ghost function State(): Daemon
      reads this
    {
      Daemon(updateQueue, requestQueue, sent)
    }

    ghost predicate Valid()
      reads this
    {
      Loaded(configs) && Lists(order, configs) && OneNodeEach(configs, State())
    }

    /** Initial scheduling: every service at once, by the clock as it is read for that service. */
    constructor (cs: Services, names: seq<Name>, start: int, clock: Name -> int, last: map<Name, int>, force: bool)
      requires Loaded(cs) && Lists(names, cs) && forall n :: n in names ==> 0 <= clock(n) - start < TWO32
      ensures Valid() && configs == cs && order == names && reference == start
      ensures InTime(State(), start) && requestQueue == [] && sent == []
      ensures forall e :: e in updateQueue ==> e.node == FirstNode(cs, clock(e.node.name), last, force, e.node.name)
    {
      configs, order, reference := cs, names, start;
      updateQueue, requestQueue, sent := [], [], [];
      new;
      for i := 0 to |names|
        invariant configs == cs && order == names && reference == start && requestQueue == [] && sent == []
        invariant Starting(cs, updateQueue, names[..i], start, clock, last, force)
      {
        var entry := Entry(Priority(clock(names[i]), start), FirstNode(cs, clock(names[i]), last, force, names[i]));
        StartingOneMore(cs, updateQueue, names[..i], start, clock, last, force, names[i], entry);
        assert names[..i + 1] == names[..i] + [names[i]];
        updateQueue := Push(updateQueue, entry);
      }
      assert names[..|names|] == names;
      assert Names(requestQueue) == multiset{};
    }

    /** The first half of a turn: which node, and whether someone waits for the result. */
    method TakeNode() returns (node: Node, answer: bool)
      requires Ready(configs, State())
      modifies this`updateQueue, this`requestQueue
      ensures node == Next(configs, old(State())) && answer == (old(requestQueue) != [])
      ensures if answer then requestQueue == old(requestQueue)[1..] && updateQueue == old(updateQueue)
              else updateQueue == old(updateQueue)[1..] && requestQueue == old(requestQueue)
    {
      answer := requestQueue != [];
      if answer {
        node := requestQueue[0].node;
        requestQueue := requestQueue[1..];
      } else {
        node := updateQueue[0].node;
        updateQueue := updateQueue[1..];
      }
    }

    /** One turn: take a node, update, answer, reschedule. */
    method ProcessNext(t: Turn)
      requires Ready(configs, State())
      modifies this
      ensures State() == Process(configs, reference, old(State()), t)
    {
      var node, answer := TakeNode();
      var status := SingleUpdate(node, configs[node.name], t);
      if answer {
        sent := sent + [Result(status, node.name)];
      }
      var later := ScheduleNext(node, configs[node.name], t.now, status);
      updateQueue := Push(updateQueue, Entry(Priority(later.nextTime, reference), later));
    }

    /** The update loop, at a clock that stands still. */
    method UpdateLoop(now: int, turns: nat -> Turn) returns (n: nat)
      requires Valid() && StandsStill(turns, now)
      requires NoneContrary(configs, reference, State(), turns, Work(State(), now))
      modifies this
      ensures Valid() && n <= old(Work(State(), now))
      ensures State() == After(configs, reference, old(State()), turns, n)
      ensures EndsAfter(configs, reference, old(State()), now, turns, n)
    {
      AlwaysStaysReady(configs, reference, State(), turns);
      n := Turns(now, turns);
      AfterConserves(configs, reference, old(State()), turns, n);
    }

    method Turns(now: int, turns: nat -> Turn) returns (n: nat)
      requires Loaded(configs) && StandsStill(turns, now) && StaysReady(configs, reference, State(), turns)
      requires NoneContrary(configs, reference, State(), turns, Work(State(), now))
      modifies this
      ensures n <= old(Work(State(), now))
      ensures State() == After(configs, reference, old(State()), turns, n)
      ensures EndsAfter(configs, reference, old(State()), now, turns, n)
    {
      n := 0;
      var current := now;
      ghost var d := State();
      assert ReadyAt(configs, reference, d, turns, 0);
      while requestQueue != [] || current >= updateQueue[0].node.nextTime
        invariant Ready(configs, State()) && Running(configs, reference, d, now, turns, n, State())
        invariant current == now
        decreases Work(d, now) - n
      {
        ghost var e := State();
        OneMoreTurn(configs, reference, d, now, turns, n, e);
        current := turns(n).now;
        ProcessNext(turns(n));
        assert State() == Process(configs, reference, e, turns(n));
        n := n + 1;
      }
      assert !Busy(State(), now);
    }

    /** One node from the update queue to the request queue. */
    method Schedule(now: int, count: int, force: bool, name: Name) returns (ok: bool)
      modifies this`updateQueue, this`requestQueue
      ensures var r := Move(old(State()), now, count, force, name);
              ok == r.Some? && (ok ==> State() == r.value)
    {
      var (found, rest) := Remove(updateQueue, name);
      updateQueue := rest;
      ok := found.Some?;
      if ok {
        var node := found.value.(nextTime := now);
        if force {
          node := node.(lastFull := 0);
        }
        requestQueue := Push(requestQueue, Entry(count, node));
      }
    }

    /** The loop over all services. */
    method ScheduleAll(now: int, count: int, force: bool) returns (ok: bool)
      modifies this`updateQueue, this`requestQueue
      ensures var r := MoveList(old(State()), now, count, force, order);
              ok == r.Some? && (ok ==> State() == r.value)
    {
      ok := true;
      var i := 0;
      assert order[0..] == order;
      while i < |order|
        invariant 0 <= i <= |order| && ok
        invariant MoveList(State(), now, count, force, order[i..]) == MoveList(old(State()), now, count, force, order)
      {
        assert order[i..][1..] == order[i + 1..];
        ok := Schedule(now, count, force, order[i]);
        if !ok {
          return;
        }
        i := i + 1;
      }
      assert order[i..] == [];
    }

    /** One request message. */
    method TakeRequest(now: int, count: int, r: Request) returns (ok: bool)
      modifies this
      ensures var h := Handle(configs, order, old(State()), now, count, r);
              ok == h.Some? && (ok ==> State() == h.value)
    {
      ghost var d := State();
      assert d.(sent := d.sent + []) == d;
      ok := true;
      if r.name == ALL {
        if |order| > 1 {
          sent := sent + [Response.Scheduled(|order|)];
        }
        ok := ScheduleAll(now, count, r.force);
      } else if r.name in configs {
        MoveOne(d, now, count, r.force, r.name);
        ok := Schedule(now, count, r.force, r.name);
      } else {
        sent := sent + [Result(FAILED, r.name)];
      }
    }

    /** All messages in the queue of requests. */
    method TakeRequests(now: int, rs: seq<Request>) returns (ok: bool)
      modifies this
      ensures var h := HandleAll(configs, order, old(State()), now, 0, rs);
              ok == h.Some? && (ok ==> State() == h.value)
    {
      ok := true;
      var messageCount := 0;
      assert rs[0..] == rs;
      while messageCount < |rs|
        invariant 0 <= messageCount <= |rs| && ok
        invariant HandleAll(configs, order, State(), now, messageCount, rs[messageCount..])
               == HandleAll(configs, order, old(State()), now, 0, rs)
      {
        assert rs[messageCount..][1..] == rs[messageCount + 1..];
        ok := TakeRequest(now, messageCount + 1, rs[messageCount]);
        if !ok {
          return;
        }
        messageCount := messageCount + 1;
      }
      assert rs[messageCount..] == [];
    }
  }

  /** The node of a service when the daemon starts: forced if its last update is unknown or too old. */
  function FirstNode(cs: Services, now: int, last: map<Name, int>, force: bool, name: Name): Node {
    var lastUpdate := if name in last then last[name] else now;
    var since := now - lastUpdate;
    var forced := since <= 0 || (name in cs && since >= cs[name].forceInterval) || force;
    Node(name, now, if forced then 0 else lastUpdate)
  }

  /**
   The first update of a service is a forced one if and only if that is asked for, or its last update is
   unknown, too old or in the future; and it is due at once.
   */
  lemma FirstUpdate(cs: Services, now: int, last: map<Name, int>, force: bool, name: Name)
    requires name in cs && 0 < cs[name].forceInterval <= now
    ensures var node := FirstNode(cs, now, last, force, name);
            && node.name == name && node.nextTime == now
            && (Forced(node, cs[name], now) <==>
                  force || name !in last || last[name] >= now || now >= last[name] + cs[name].forceInterval)
  {}

  lemma MoveOne(d: Daemon, now: int, count: int, force: bool, name: Name)
    ensures MoveList(d, now, count, force, [name]) == Move(d, now, count, force, name)
  {
    assert [name][1..] == [];
  }

  ghost predicate Starting(cs: Services, q: Queue, names: seq<Name>, start: int, clock: Name -> int, last: map<Name, int>, force: bool) {
    Names(q) == multiset(names) && StartsNow(cs, q, start, clock, last, force)
  }

  ghost predicate StartsNow(cs: Services, q: Queue, start: int, clock: Name -> int, last: map<Name, int>, force: bool) {
    && Sorted(q)
    && forall e :: e in q ==> e.node == FirstNode(cs, clock(e.node.name), last, force, e.node.name) && e.priority == clock(e.node.name) - start
  }

  lemma StartsNowPush(cs: Services, q: Queue, start: int, clock: Name -> int, last: map<Name, int>, force: bool, entry: Entry)
    requires StartsNow(cs, q, start, clock, last, force) && entry.priority == clock(entry.node.name) - start
    requires entry.node == FirstNode(cs, clock(entry.node.name), last, force, entry.node.name)
    ensures StartsNow(cs, Push(q, entry), start, clock, last, force)
  {
    SortedPush(q, entry);
    MembersOfPush(q, entry);
  }

  lemma StartingOneMore(cs: Services, q: Queue, names: seq<Name>, start: int, clock: Name -> int, last: map<Name, int>, force: bool,
                         name: Name, entry: Entry)
    requires Starting(cs, q, names, start, clock, last, force) && 0 <= clock(name) - start < TWO32
    requires entry == Entry(Priority(clock(name), start), FirstNode(cs, clock(name), last, force, name))
    ensures Starting(cs, Push(q, entry), names + [name], start, clock, last, force)
  {
    assert entry.priority == clock(name) - start;
    StartsNowPush(cs, q, start, clock, last, force, entry);
    NameAdded(q, names, entry);
  }

  lemma NameAdded(q: Queue, names: seq<Name>, entry: Entry)
    requires Names(q) == multiset(names)
    ensures Names(Push(q, entry)) == multiset(names + [entry.node.name])
  {
    NamesOfPush(q, entry);
  }

  /** The daemon d has come to e in n turns. */
  ghost predicate Running(cs: Services, reference: int, d: Daemon, now: int, turns: nat -> Turn, n: nat, e: Daemon) {
    && e == After(cs, reference, d, turns, n) && RunsFor(cs, reference, d, now, turns, n)
    && ClockAt(now, turns, n) == now && n <= Work(d, now)
  }

  /** What a turn of the update loop does to its invariant. */
  lemma OneMoreTurn(cs: Services, reference: int, d: Daemon, now: int, turns: nat -> Turn, n: nat, e: Daemon)
    requires Loaded(cs) && StaysReady(cs, reference, d, turns) && StandsStill(turns, now)
    requires NoneContrary(cs, reference, d, turns, Work(d, now))
    requires Running(cs, reference, d, now, turns, n, e) && Ready(cs, e) && Busy(e, now)
    ensures var f := Process(cs, reference, e, turns(n));
            Ready(cs, f) && Running(cs, reference, d, now, turns, n + 1, f)
    ensures turns(n).now == now && n < Work(d, now)
  {
    TurnsCost(cs, reference, d, now, turns, n);
    BusyHasWork(e, now);
    assert ReadyAt(cs, reference, d, turns, n + 1);
  }

  /** do_single_update, with the outcome of a real update as given. */
  method SingleUpdate(node: Node, cfg: Config, t: Turn) returns (status: int)
    ensures status == Status(node, cfg, t)
  {
    var force := t.now - node.lastFull >= cfg.forceInterval;
    status := FAILED;
    if t.local.Some? {
      var doUpdate := true;
      if !force {
        doUpdate := t.local != t.remote;
      }
      status := if doUpdate then t.result else NOT_NEEDED;
    }
  }

  /** The last part of a turn: when to look at the node again. */
  method ScheduleNext(node: Node, cfg: Config, now: int, status: int) returns (later: Node)
    ensures later == Reschedule(node, cfg, now, status)
  {
    later := node.(nextTime := now);
    if status == SUCCESSFUL {
      var nextForce, nextCheck := now + cfg.forceInterval, now + cfg.checkInterval;
      later := later.(nextTime := if nextForce < nextCheck then nextForce else nextCheck, lastFull := now);
    } else {
      var nextForce: int;
      if status == NOT_NEEDED {
        nextForce := later.lastFull + cfg.forceInterval;
      } else {
        nextForce := now + cfg.forceInterval;
      }
      var nextCheck := now + cfg.checkInterval;
      later := later.(nextTime := if nextForce < nextCheck then nextForce else nextCheck);
    }
  }

  /** The request messages of a client. */
  method MakeRequests(names: seq<Name>, force: bool) returns (rs: seq<Request>)
    ensures rs == Requests(names, force)
  {
    var allFound := names == [];
    var i := 0;
    while i < |names| && !allFound
      invariant 0 <= i <= |names| && (allFound <==> names == [] || "all" in names[..i])
    {
      allFound := names[i] == "all";
      i := i + 1;
    }
    assert names[..|names|] == names;
    if allFound {
      return [Request(force, ALL)];
    }
    rs := [];
    i := 0;
    while i < |names|
      invariant 0 <= i <= |names| && |rs| == i
      invariant forall j :: 0 <= j < i ==> rs[j] == Request(force, names[j])
    {
      rs := rs + [Request(force, names[i])];
      i := i + 1;
    }
  }

  /** The client's reading loop over the responses there will ever be; !done means that it waits for ever. */
  method ReadResponses(sent: nat, queue: seq<Response>) returns (read: nat, done: bool)
    ensures read <= |queue|
    ensures forall k: nat :: k < read ==> k < Expected(sent, queue[..k])
    ensures if done then read >= Expected(sent, queue[..read]) else read == |queue| < Expected(sent, queue)
  {
    var expected := sent;
    read := 0;
    while read < expected
      invariant read <= |queue| && expected == Expected(sent, queue[..read])
      invariant forall k: nat :: k < read ==> k < Expected(sent, queue[..k])
      decreases |queue| - read
    {
      if read == |queue| {
        assert queue[..read] == queue;
        return read, false;
      }
      var r := queue[read];
      assert queue[..read + 1][..read] == queue[..read];
      expected := expected + (match r case Scheduled(n) => n case Result(_, _) => 0);
      read := read + 1;
    }
    done := true;
  }
}
