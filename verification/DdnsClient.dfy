/**
 Requests to the dynamic-DNS daemon: what a batch of messages does to its queues, and how many
 responses a client of run_request_through_daemon reads.
 */
module DdnsClient {
  import opened Words
  import opened Ddns

  // ----- Requests -----

  const ALL := "UPDATE_OF_ALL_DEFINED_DDNS_SERVICE_CONFIGURATIONS_REQUESTED"

  datatype Request = Request(force: bool, name: Name)

  /** The services in the order in which the map lists them. */
  ghost predicate Lists(order: seq<Name>, cs: Services) {
    multiset(order) == multiset(cs.Keys) && |order| == |cs|
  }

  /** One node from the update queue to the request queue; none there is the end of the daemon. */
  function Move(d: Daemon, now: int, count: int, force: bool, name: Name): Option<Daemon> {
    var (found, rest) := Remove(d.update, name);
    if found.None? then None
    else
      var node := found.value.(nextTime := now, lastFull := if force then 0 else found.value.lastFull);
      Some(d.(update := rest, request := Push(d.request, Entry(count, node))))
  }

  function MoveList(d: Daemon, now: int, count: int, force: bool, names: seq<Name>): Option<Daemon>
    decreases |names|
  {
    if names == [] then Some(d)
    else match Move(d, now, count, force, names[0])
         case None => None
         case Some(e) => MoveList(e, now, count, force, names[1..])
  }

  /** One request message, the count-th of its batch. */
  function Handle(cs: Services, order: seq<Name>, d: Daemon, now: int, count: int, r: Request): Option<Daemon> {
    MoveList(d.(sent := d.sent + Immediate(cs, order, r)), now, count, r.force, Wanted(cs, order, r))
  }

  /** The responses sent at once, and the services whose update is scheduled. */
  function Immediate(cs: Services, order: seq<Name>, r: Request): seq<Response> {
    if r.name == ALL then if |order| > 1 then [Scheduled(|order|)] else []
    else if r.name in cs then []
    else [Result(FAILED, r.name)]
  }

  function Wanted(cs: Services, order: seq<Name>, r: Request): seq<Name> {
    if r.name == ALL then order else if r.name in cs then [r.name] else []
  }

  /** A batch of messages, with the number of messages before them. */
  function HandleAll(cs: Services, order: seq<Name>, d: Daemon, now: int, count: int, rs: seq<Request>): Option<Daemon>
    decreases |rs|
  {
    if rs == [] then Some(d)
    else match Handle(cs, order, d, now, count + 1, rs[0])
         case None => None
         case Some(e) => HandleAll(cs, order, e, now, count + 1, rs[1..])
  }

  function AllImmediate(cs: Services, order: seq<Name>, rs: seq<Request>): seq<Response> {
    if rs == [] then [] else Immediate(cs, order, rs[0]) + AllImmediate(cs, order, rs[1..])
  }

  function AllWanted(cs: Services, order: seq<Name>, rs: seq<Request>): seq<Name> {
    if rs == [] then [] else Wanted(cs, order, rs[0]) + AllWanted(cs, order, rs[1..])
  }

  /** What moved from one queue to the other. */
  ghost predicate Moved(d: Daemon, e: Daemon, names: multiset<Name>) {
    Names(e.update) == Names(d.update) - names && Names(e.request) == Names(d.request) + names
  }

  lemma MovedTwice(d: Daemon, e: Daemon, f: Daemon, m: multiset<Name>, n: multiset<Name>)
    requires Moved(d, e, m) && Moved(e, f, n)
    ensures Moved(d, f, m + n)
  {
    MoveBoth(Names(d.update), Names(d.request), m, n);
  }

  lemma MoveBoth(a: multiset<Name>, b: multiset<Name>, m: multiset<Name>, n: multiset<Name>)
    ensures a - m - n == a - (m + n)
    ensures b + m + n == b + (m + n)
  {}

  lemma MoveMoves(d: Daemon, now: int, count: int, force: bool, name: Name)
    ensures var r := Move(d, now, count, force, name);
            && (r.Some? <==> name in Names(d.update))
            && (r.Some? ==> Moved(d, r.value, multiset{name}) && r.value.sent == d.sent)
  {
    NamesOfRemove(d.update, name);
    var (found, rest) := Remove(d.update, name);
    if found.Some? {
      NamesOfPush(d.request, Entry(count, found.value.(nextTime := now, lastFull := if force then 0 else found.value.lastFull)));
    }
  }

  lemma {:induction false} MoveListMoves(d: Daemon, now: int, count: int, force: bool, names: seq<Name>)
    ensures var r := MoveList(d, now, count, force, names);
            && (r.Some? <==> multiset(names) <= Names(d.update))
            && (r.Some? ==> Moved(d, r.value, multiset(names)) && r.value.sent == d.sent)
    decreases |names|
  {
    if names != [] {
      MoveMoves(d, now, count, force, names[0]);
      FirstName(names);
      TakeAway(Names(d.update), multiset{names[0]}, multiset(names[1..]));
      var r := Move(d, now, count, force, names[0]);
      if r.Some? {
        MoveListMoves(r.value, now, count, force, names[1..]);
        var s := MoveList(r.value, now, count, force, names[1..]);
        if s.Some? {
          MovedTwice(d, r.value, s.value, multiset{names[0]}, multiset(names[1..]));
        }
      }
    }
  }

  lemma FirstName(names: seq<Name>)
    requires names != []
    ensures multiset(names) == multiset{names[0]} + multiset(names[1..])
  {
    assert names == [names[0]] + names[1..];
  }

  lemma TakeAway(all: multiset<Name>, m: multiset<Name>, n: multiset<Name>)
    ensures m <= all && n <= all - m <==> m + n <= all
  {
    if m + n <= all {
      forall y ensures m[y] <= all[y] && n[y] <= (all - m)[y] {
        assert (m + n)[y] <= all[y];
      }
    }
  }

  /** What became of d when it was asked for `names` and sent `responses` at once. */
  ghost predicate Scheduling(d: Daemon, r: Option<Daemon>, names: seq<Name>, responses: seq<Response>) {
    && (r.Some? <==> multiset(names) <= Names(d.update))
    && (r.Some? ==> Moved(d, r.value, multiset(names)) && r.value.sent == d.sent + responses)
  }

  lemma HandleSchedules(cs: Services, order: seq<Name>, d: Daemon, now: int, count: int, r: Request)
    ensures Scheduling(d, Handle(cs, order, d, now, count, r), Wanted(cs, order, r), Immediate(cs, order, r))
  {
    MoveListMoves(d.(sent := d.sent + Immediate(cs, order, r)), now, count, r.force, Wanted(cs, order, r));
  }

  lemma ScheduledTwice(d: Daemon, r: Option<Daemon>, s: Option<Daemon>, m: seq<Name>, n: seq<Name>,
                       u: seq<Response>, v: seq<Response>)
    requires Scheduling(d, r, m, u)
    requires if r.Some? then Scheduling(r.value, s, n, v) else s.None?
    ensures Scheduling(d, s, m + n, u + v)
  {
    assert multiset(m + n) == multiset(m) + multiset(n);
    TakeAway(Names(d.update), multiset(m), multiset(n));
    if s.Some? {
      MovedTwice(d, r.value, s.value, multiset(m), multiset(n));
      Assoc(d.sent, u, v);
    }
  }

  /** A batch is survived exactly if the nodes it wants are all in the update queue. */
  lemma {:induction false} BatchSchedules(cs: Services, order: seq<Name>, d: Daemon, now: int, count: int, rs: seq<Request>)
    ensures Scheduling(d, HandleAll(cs, order, d, now, count, rs), AllWanted(cs, order, rs), AllImmediate(cs, order, rs))
    decreases |rs|
  {
    if rs == [] {
      EmptyBatch(d);
    } else {
      var r := Handle(cs, order, d, now, count + 1, rs[0]);
      if r.Some? {
        BatchSchedules(cs, order, r.value, now, count + 1, rs[1..]);
      }
      FirstOfBatch(cs, order, d, now, count, rs);
    }
  }

  lemma EmptyBatch(d: Daemon)
    ensures Scheduling(d, Some(d), [], [])
  {
    assert d.sent + [] == d.sent;
  }

  lemma FirstOfBatch(cs: Services, order: seq<Name>, d: Daemon, now: int, count: int, rs: seq<Request>)
    requires rs != []
    requires var r := Handle(cs, order, d, now, count + 1, rs[0]);
             r.Some? ==> Scheduling(r.value, HandleAll(cs, order, r.value, now, count + 1, rs[1..]),
                                    AllWanted(cs, order, rs[1..]), AllImmediate(cs, order, rs[1..]))
    ensures Scheduling(d, HandleAll(cs, order, d, now, count, rs), AllWanted(cs, order, rs), AllImmediate(cs, order, rs))
  {
    HandleSchedules(cs, order, d, now, count + 1, rs[0]);
    var r := Handle(cs, order, d, now, count + 1, rs[0]);
    ScheduledTwice(d, r, HandleAll(cs, order, d, now, count, rs), Wanted(cs, order, rs[0]),
                   AllWanted(cs, order, rs[1..]), Immediate(cs, order, rs[0]), AllImmediate(cs, order, rs[1..]));
  }

  /**
   The daemon survives a batch of requests if and only if no service is wanted twice in it and
   none is wanted whose last request is still pending; it then schedules exactly what is wanted.
   */
  lemma BatchSurvived(cs: Services, order: seq<Name>, d: Daemon, now: int, rs: seq<Request>)
    requires OneNodeEach(cs, d) && Lists(order, cs)
    ensures var wanted := multiset(AllWanted(cs, order, rs));
            var r := HandleAll(cs, order, d, now, 0, rs);
            && (r.Some? <==> forall n :: n in cs ==> wanted[n] + Names(d.request)[n] <= 1)
            && (r.Some? ==> && OneNodeEach(cs, r.value)
                            && Names(r.value.request) == Names(d.request) + wanted
                            && r.value.sent == d.sent + AllImmediate(cs, order, rs))
  {
    BatchSchedules(cs, order, d, now, 0, rs);
    WantedAreKnown(cs, order, rs);
    var wanted := multiset(AllWanted(cs, order, rs));
    FitsOnce(cs, Names(d.update), Names(d.request), wanted);
  }

  lemma FitsOnce(cs: Services, update: multiset<Name>, request: multiset<Name>, wanted: multiset<Name>)
    requires update + request == multiset(cs.Keys)
    requires forall n :: n in wanted ==> n in cs
    ensures wanted <= update <==> forall n :: n in cs ==> wanted[n] + request[n] <= 1
    ensures wanted <= update ==> (update - wanted) + (request + wanted) == update + request
  {
    forall n ensures update[n] + request[n] == if n in cs then 1 else 0 {
      assert (update + request)[n] == multiset(cs.Keys)[n];
    }
  }

  lemma {:induction false} WantedAreKnown(cs: Services, order: seq<Name>, rs: seq<Request>)
    requires Lists(order, cs)
    ensures forall n :: n in multiset(AllWanted(cs, order, rs)) ==> n in cs
  {
    if rs != [] {
      WantedAreKnown(cs, order, rs[1..]);
      forall n | n in Wanted(cs, order, rs[0]) ensures n in cs {
        if rs[0].name == ALL {
          assert n in multiset(order);
          assert n in multiset(cs.Keys);
        }
      }
    }
  }

  lemma {:induction false} MoveListInTime(d: Daemon, reference: int, now: int, count: int, force: bool, names: seq<Name>)
    requires InTime(d, reference)
    ensures var r := MoveList(d, now, count, force, names); r.Some? ==> InTime(r.value, reference)
    decreases |names|
  {
    if names != [] {
      SortedRemove(d.update, names[0]);
      MembersOfRemove(d.update, names[0]);
      var r := Move(d, now, count, force, names[0]);
      if r.Some? {
        MoveListInTime(r.value, reference, now, count, force, names[1..]);
      }
    }
  }

  /** Requests leave the updates that remain in the order of their times. */
  lemma {:induction false} BatchInTime(cs: Services, order: seq<Name>, d: Daemon, reference: int, now: int, count: int, rs: seq<Request>)
    requires InTime(d, reference)
    ensures var r := HandleAll(cs, order, d, now, count, rs); r.Some? ==> InTime(r.value, reference)
    decreases |rs|
  {
    if rs != [] {
      var sent := d.(sent := d.sent + Immediate(cs, order, rs[0]));
      MoveListInTime(sent, reference, now, count + 1, rs[0].force, Wanted(cs, order, rs[0]));
      var r := Handle(cs, order, d, now, count + 1, rs[0]);
      if r.Some? {
        BatchInTime(cs, order, r.value, reference, now, count + 1, rs[1..]);
      }
    }
  }

  // ----- The client -----

  /** run_request_through_daemon: the request messages for the services named on the command line. */
  function Requests(names: seq<Name>, force: bool): seq<Request> {
    if names == [] || "all" in names then [Request(force, ALL)]
    else seq(|names|, i requires 0 <= i < |names| => Request(force, names[i]))
  }

  /** What a response adds to the number of messages the client expects. */
  function Announces(r: Response): nat {
    match r case Scheduled(count) => count case Result(_, _) => 0
  }

  /** messages_expected, once the responses have been read. */
  function Expected(sent: nat, responses: seq<Response>): nat {
    if responses == [] then sent
    else Expected(sent, responses[..|responses| - 1]) + Announces(responses[|responses| - 1])
  }

  lemma {:induction false} ExpectedSplit(sent: nat, u: seq<Response>, v: seq<Response>)
    ensures Expected(sent, u + v) == Expected(Expected(sent, u), v)
    decreases |v|
  {
    if v == [] {
      assert u + v == u;
    } else {
      ConcatLast(u, v);
      ExpectedSplit(sent, u, v[..|v| - 1]);
    }
  }

  lemma {:induction false} ExpectedShift(sent: nat, more: nat, v: seq<Response>)
    ensures Expected(sent + more, v) == Expected(sent, v) + more
    ensures Expected(sent, v) >= sent
    decreases |v|
  {
    if v != [] {
      ExpectedShift(sent, more, v[..|v| - 1]);
    }
  }

  lemma {:induction false} ExpectedOfResults(sent: nat, v: seq<Response>)
    requires forall r :: r in v ==> r.Result?
    ensures Expected(sent, v) == sent
    decreases |v|
  {
    if v != [] {
      assert v[|v| - 1] in v;
      ExpectedOfResults(sent, v[..|v| - 1]);
    }
  }

  /** How many of the requests are for all services. */
  function ForAll(rs: seq<Request>): nat {
    if rs == [] then 0 else (if rs[0].name == ALL then 1 else 0) + ForAll(rs[1..])
  }

  /**
   Every request promises one message, and what it announces. All of it is sent or scheduled,
   unless there is no service at all: then each request for all services goes unanswered.
   */
  lemma {:induction false} PromisesKept(cs: Services, order: seq<Name>, rs: seq<Request>)
    ensures Expected(|rs|, AllImmediate(cs, order, rs))
         == |AllImmediate(cs, order, rs)| + |AllWanted(cs, order, rs)| + (if order == [] then ForAll(rs) else 0)
    ensures |AllImmediate(cs, order, rs)| <= |rs|
  {
    if rs != [] {
      var first, more := Immediate(cs, order, rs[0]), AllImmediate(cs, order, rs[1..]);
      PromisesKept(cs, order, rs[1..]);
      PromiseKept(cs, order, rs[0]);
      assert AllImmediate(cs, order, rs) == first + more;
      assert |AllWanted(cs, order, rs)| == |Wanted(cs, order, rs[0])| + |AllWanted(cs, order, rs[1..])|;
      ExpectedOfBoth(|rs| - 1, first, more);
    }
  }

  /** One message for a request and n for the others. */
  lemma ExpectedOfBoth(n: nat, u: seq<Response>, v: seq<Response>)
    ensures Expected(n + 1, u + v) == Expected(1, u) + Expected(n, v)
  {
    ExpectedSplit(n + 1, u, v);
    ExpectedShift(1, n, u);
    ExpectedShift(n, Expected(1, u), v);
  }

  lemma PromiseKept(cs: Services, order: seq<Name>, r: Request)
    ensures Expected(1, Immediate(cs, order, r))
         == |Immediate(cs, order, r)| + |Wanted(cs, order, r)| + (if order == [] && r.name == ALL then 1 else 0)
    ensures |Immediate(cs, order, r)| <= 1
  {
    var u := Immediate(cs, order, r);
    if u != [] {
      assert u[..0] == [];
      assert Expected(1, u[..0]) == 1;
    }
  }

  /**
   The client reads exactly the messages that are sent: with the responses u sent at once and one
   result per scheduled service, it never stops early and never waits for one more.
   */
  lemma ClientReadsAll(cs: Services, order: seq<Name>, rs: seq<Request>, results: seq<Response>, k: nat)
    requires order != [] && |results| == |AllWanted(cs, order, rs)| && forall r :: r in results ==> r.Result?
    requires k <= |AllImmediate(cs, order, rs) + results|
    ensures var all := AllImmediate(cs, order, rs) + results;
            k < Expected(|rs|, all[..k]) <==> k < |all|
  {
    var u := AllImmediate(cs, order, rs);
    PromisesKept(cs, order, rs);
    if k < |u| {
      assert (u + results)[..k] == u[..k];
      StillMore(|rs|, u, k);
    } else {
      var v := results[..k - |u|];
      assert (u + results)[..k] == u + v;
      ExpectedSplit(|rs|, u, v);
      ExpectedOfResults(Expected(|rs|, u), v);
    }
  }

  /** Before the announcements are all read, as many messages are expected as there were requests. */
  lemma StillMore(sent: nat, u: seq<Response>, k: nat)
    requires k < |u| <= sent
    ensures k < Expected(sent, u[..k])
  {
    ExpectedShift(sent, 0, u[..k]);
  }

  lemma {:induction false} CountNames(q: Queue)
    ensures |Names(q)| == |q|
  {
    if q != [] {
      CountNames(q[1..]);
    }
  }

  /** A message that the client takes for the result of one update. */
  predicate IsPlain(r: Response) {
    r.Result? && r.status != MULTIPLE
  }

  /** What the client is told of the update of a node in a turn: that it failed, was not needed, or how it went. */
  predicate Told(r: Response, node: Node, cfg: Config, t: Turn) {
    && r.Result? && r.name == node.name
    && if t.local.None? then r.status == FAILED
       else if t.now < node.lastFull + cfg.forceInterval && t.local == t.remote then r.status == NOT_NEEDED
       else r.status == t.result
  }

  /** The first results are those of the requests, each taken in the turn with its number. */
  ghost predicate AllTold(cs: Services, requests: Queue, turns: nat -> Turn, results: seq<Response>) {
    && |results| <= |requests|
    && forall k :: 0 <= k < |results| ==>
         requests[k].node.name in cs && Told(results[k], requests[k].node, cs[requests[k].node.name], turns(k))
  }

  /** After n turns: the results so far, and the requests that are left. */
  ghost predicate Sending(cs: Services, d: Daemon, e: Daemon, turns: nat -> Turn, n: nat, results: seq<Response>) {
    && AllTold(cs, d.request, turns, results)
    && e.sent == d.sent + results && e.request == d.request[|results|..]
    && (|results| == n || e.request == [] || !Ready(cs, e))
  }

  /** The loop adds one plain result per request it takes, and tells how the update went. */
  lemma {:induction false} LoopSendsResults(cs: Services, reference: int, d: Daemon, turns: nat -> Turn, n: nat)
    returns (results: seq<Response>)
    requires forall k :: turns(k).result != MULTIPLE
    ensures Sending(cs, d, After(cs, reference, d, turns, n), turns, n, results)
    ensures forall r :: r in results ==> IsPlain(r)
  {
    if n == 0 {
      results := [];
    } else {
      results := LoopSendsResults(cs, reference, d, turns, n - 1);
      var e := After(cs, reference, d, turns, n - 1);
      if Ready(cs, e) && e.request != [] {
        var r := Result(Attempt(cs, reference, Next(cs, e), turns(n - 1)).0, Next(cs, e).name);
        SendingStep(cs, reference, d, e, turns, n - 1, results, r);
        results := results + [r];
      }
    }
  }

  lemma SendingStep(cs: Services, reference: int, d: Daemon, e: Daemon, turns: nat -> Turn, n: nat, results: seq<Response>, r: Response)
    requires Sending(cs, d, e, turns, n, results) && Ready(cs, e) && e.request != []
    requires r == Result(Attempt(cs, reference, Next(cs, e), turns(n)).0, Next(cs, e).name)
    ensures Sending(cs, d, Process(cs, reference, e, turns(n)), turns, n + 1, results + [r])
  {
    assert |results| == n && e.request[0] == d.request[n];
    assert Told(r, d.request[n].node, cs[d.request[n].node.name], turns(n));
    Assoc(d.sent, results, [r]);
    assert d.request[n..][1..] == d.request[n + 1..];
  }

  // ----- In which order requests are taken -----

  /** What one message asks for, for one service. */
  datatype Job = Job(name: Name, forced: bool)

  function Jobs(names: seq<Name>, forced: bool): seq<Job> {
    seq(|names|, i requires 0 <= i < |names| => Job(names[i], forced))
  }

  function AllJobs(cs: Services, order: seq<Name>, rs: seq<Request>): seq<Job> {
    if rs == [] then [] else Jobs(Wanted(cs, order, rs[0]), rs[0].force) + AllJobs(cs, order, rs[1..])
  }

  predicate Named(jobs: seq<Job>, names: seq<Name>) {
    |jobs| == |names| && forall k :: 0 <= k < |jobs| ==> jobs[k].name == names[k]
  }

  /** There is a job for every service wanted, in the same order. */
  lemma {:induction false} JobsAreWanted(cs: Services, order: seq<Name>, rs: seq<Request>)
    ensures Named(AllJobs(cs, order, rs), AllWanted(cs, order, rs))
  {
    if rs != [] {
      JobsAreWanted(cs, order, rs[1..]);
      var w := Wanted(cs, order, rs[0]);
      NamedTogether(Jobs(w, rs[0].force), w, AllJobs(cs, order, rs[1..]), AllWanted(cs, order, rs[1..]));
    }
  }

  lemma NamedTogether(a: seq<Job>, u: seq<Name>, b: seq<Job>, v: seq<Name>)
    requires Named(a, u) && Named(b, v)
    ensures Named(a + b, u + v)
  {}

  /** The entry for a job: the node of its service, with the last update forgotten if it is to be forced. */
  ghost predicate IsJob(update: Queue, x: Entry, now: int, job: Job) {
    && x.node.name == job.name && x.node.nextTime == now
    && if job.forced then x.node.lastFull == 0
       else exists y :: y in update && y.node.name == job.name && y.node.lastFull == x.node.lastFull
  }

  ghost predicate AreJobs(update: Queue, q: Queue, now: int, jobs: seq<Job>) {
    |q| == |jobs| && forall k :: 0 <= k < |q| ==> IsJob(update, q[k], now, jobs[k])
  }

  predicate NoneAbove(q: Queue, count: int) {
    forall x :: x in q ==> x.priority <= count
  }

  lemma {:induction false} PushLast(q: Queue, x: Entry)
    requires NoneAbove(q, x.priority)
    ensures Push(q, x) == q + [x]
  {
    if q != [] {
      assert q[0] in q;
      PushLast(q[1..], x);
    }
  }

  lemma {:induction false} RemoveFinds(q: Queue, name: Name)
    ensures var (found, rest) := Remove(q, name);
            && (found.Some? ==> exists y :: y in q && y.node == found.value && y.node.name == name)
            && forall y :: y in rest ==> y in q
  {
    if q != [] {
      assert q[0] in q;
      RemoveFinds(q[1..], name);
    }
  }

  /** A list of names puts as many jobs at the end of the request queue. */
  lemma {:induction false} MoveListInOrder(d: Daemon, update: Queue, now: int, count: int, force: bool, names: seq<Name>)
    returns (more: Queue)
    requires NoneAbove(d.request, count) && (forall y :: y in d.update ==> y in update)
    requires MoveList(d, now, count, force, names).Some?
    ensures var e := MoveList(d, now, count, force, names).value;
            && e.request == d.request + more && NoneAbove(e.request, count) && (forall y :: y in e.update ==> y in update)
    ensures AreJobs(update, more, now, Jobs(names, force))
    decreases |names|
  {
    if names == [] {
      more := [];
    } else {
      var e := Move(d, now, count, force, names[0]).value;
      var x := OneMove(d, update, now, count, force, names[0]);
      var later := MoveListInOrder(e, update, now, count, force, names[1..]);
      more := [x] + later;
      Assoc(d.request, [x], later);
      assert Jobs(names, force) == [Job(names[0], force)] + Jobs(names[1..], force);
    }
  }

  lemma OneMove(d: Daemon, update: Queue, now: int, count: int, force: bool, name: Name) returns (x: Entry)
    requires NoneAbove(d.request, count) && (forall y :: y in d.update ==> y in update)
    requires Move(d, now, count, force, name).Some?
    ensures var e := Move(d, now, count, force, name).value;
            && e.request == d.request + [x] && NoneAbove(e.request, count) && (forall y :: y in e.update ==> y in update)
    ensures IsJob(update, x, now, Job(name, force))
  {
    var (found, rest) := Remove(d.update, name);
    RemoveFinds(d.update, name);
    x := Entry(count, found.value.(nextTime := now, lastFull := if force then 0 else found.value.lastFull));
    PushLast(d.request, x);
  }

  /** A whole batch: the jobs are in the request queue in the order in which they were asked for. */
  lemma {:induction false} BatchInOrder(cs: Services, order: seq<Name>, d: Daemon, update: Queue, now: int, count: int, rs: seq<Request>)
    returns (more: Queue)
    requires NoneAbove(d.request, count) && (forall y :: y in d.update ==> y in update)
    requires HandleAll(cs, order, d, now, count, rs).Some?
    ensures HandleAll(cs, order, d, now, count, rs).value.request == d.request + more
    ensures AreJobs(update, more, now, AllJobs(cs, order, rs))
    decreases |rs|
  {
    if rs == [] {
      more := [];
    } else {
      var d1 := d.(sent := d.sent + Immediate(cs, order, rs[0]));
      var e := Handle(cs, order, d, now, count + 1, rs[0]).value;
      assert NoneAbove(d1.request, count + 1);
      var first := MoveListInOrder(d1, update, now, count + 1, rs[0].force, Wanted(cs, order, rs[0]));
      var later := BatchInOrder(cs, order, e, update, now, count + 1, rs[1..]);
      more := first + later;
      Assoc(d.request, first, later);
      JobsTogether(update, now, first, Jobs(Wanted(cs, order, rs[0]), rs[0].force), later, AllJobs(cs, order, rs[1..]));
    }
  }

  lemma JobsTogether(update: Queue, now: int, a: Queue, u: seq<Job>, b: Queue, v: seq<Job>)
    requires AreJobs(update, a, now, u) && AreJobs(update, b, now, v)
    ensures AreJobs(update, a + b, now, u + v)
  {}

  /** Every job has its result, in order, and that tells how the update of its node went. */
  ghost predicate TellsAll(cs: Services, order: seq<Name>, d: Daemon, now: int, rs: seq<Request>, turns: nat -> Turn, results: seq<Response>) {
    var r := HandleAll(cs, order, d, now, 0, rs);
    && r.Some? && |results| == |r.value.request| && AllTold(cs, r.value.request, turns, results)
    && AreJobs(d.update, r.value.request, now, AllJobs(cs, order, rs)) && Named(AllJobs(cs, order, rs), AllWanted(cs, order, rs))
  }

  lemma ToldInOrder(cs: Services, order: seq<Name>, d: Daemon, now: int, rs: seq<Request>, turns: nat -> Turn, results: seq<Response>)
    requires d.request == [] && HandleAll(cs, order, d, now, 0, rs).Some?
    requires var b := HandleAll(cs, order, d, now, 0, rs).value; |results| == |b.request| && AllTold(cs, b.request, turns, results)
    ensures TellsAll(cs, order, d, now, rs, turns, results)
  {
    var jobs := BatchInOrder(cs, order, d, d.update, now, 0, rs);
    assert d.request + jobs == jobs;
    JobsAreWanted(cs, order, rs);
  }

  /**
   One client and the daemon: if no service is asked for twice, the client reads every message
   the daemon sends for it and no more, each wanted service has exactly one result, in the order
   in which they were asked for, that tells how its update went, and every service has its node
   back in the update queue.
   */
  lemma Conversation(cs: Services, reference: int, order: seq<Name>, d: Daemon, now: int, rs: seq<Request>,
                     start: int, turns: nat -> Turn, n: nat)
    returns (responses: seq<Response>)
    requires |cs| > 0 && Lists(order, cs) && OneNodeEach(cs, d) && d.request == []
    requires forall k :: turns(k).result != MULTIPLE
    requires var wanted := multiset(AllWanted(cs, order, rs)); forall s :: s in cs ==> wanted[s] <= 1
    requires var r := HandleAll(cs, order, d, now, 0, rs);
             r.Some? ==> EndsAfter(cs, reference, r.value, start, turns, n)
    ensures var r := HandleAll(cs, order, d, now, 0, rs);
            && r.Some?
            && var e := After(cs, reference, r.value, turns, n);
               && e.sent == d.sent + responses
               && e.request == [] && Names(e.update) == multiset(cs.Keys)
    ensures forall k: nat :: k <= |responses| ==> (k < Expected(|rs|, responses[..k]) <==> k < |responses|)
    ensures AllImmediate(cs, order, rs) <= responses
    ensures var results := responses[|AllImmediate(cs, order, rs)|..];
            (forall r :: r in results ==> IsPlain(r)) && Answered(results) == multiset(AllWanted(cs, order, rs))
    ensures TellsAll(cs, order, d, now, rs, turns, responses[|AllImmediate(cs, order, rs)|..])
  {
    BatchSurvived(cs, order, d, now, rs);
    assert Names(d.request) == multiset{};
    var b := HandleAll(cs, order, d, now, 0, rs).value;
    LoopAnswersRequests(cs, reference, b, start, turns, n);
    var results := LoopSendsResults(cs, reference, b, turns, n);
    ToldInOrder(cs, order, d, now, rs, turns, results);
    CountNames(b.request);
    assert |multiset(AllWanted(cs, order, rs))| == |AllWanted(cs, order, rs)|;
    responses := AllImmediate(cs, order, rs) + results;
    assert responses[|AllImmediate(cs, order, rs)|..] == results;
    Assoc(d.sent, AllImmediate(cs, order, rs), results);
    ReadsThemAll(cs, order, rs, results);
    AnsweredSplit(b.sent, results);
    Cancel(Answered(b.sent), Answered(results), Names(b.request));
  }

  lemma ReadsThemAll(cs: Services, order: seq<Name>, rs: seq<Request>, results: seq<Response>)
    requires order != [] && |results| == |AllWanted(cs, order, rs)| && forall r :: r in results ==> r.Result?
    ensures var all := AllImmediate(cs, order, rs) + results;
            forall k: nat :: k <= |all| ==> (k < Expected(|rs|, all[..k]) <==> k < |all|)
  {
    var all := AllImmediate(cs, order, rs) + results;
    forall k: nat | k <= |all| ensures k < Expected(|rs|, all[..k]) <==> k < |all| {
      ClientReadsAll(cs, order, rs, results, k);
    }
  }

  lemma Cancel(a: multiset<Name>, b: multiset<Name>, c: multiset<Name>)
    requires a + b == a + c
    ensures b == c
  {
    forall x ensures b[x] == c[x] {
      assert (a + b)[x] == (a + c)[x];
    }
  }

  lemma {:induction false} AnsweredSplit(u: seq<Response>, v: seq<Response>)
    ensures Answered(u + v) == Answered(u) + Answered(v)
    decreases |v|
  {
    if v == [] {
      assert u + v == u;
    } else {
      ConcatLast(u, v);
      AnsweredSplit(u, v[..|v| - 1]);
    }
  }

  /** Every name on the command line has one response, whether there is such a service or not. */
  lemma {:induction false} EveryNameAnswered(cs: Services, order: seq<Name>, names: seq<Name>, force: bool)
    requires ALL !in names && "all" !in names && names != []
    ensures var rs := Requests(names, force);
            && Answered(AllImmediate(cs, order, rs)) + multiset(AllWanted(cs, order, rs)) == multiset(names)
            && |rs| == |names| && (forall i :: 0 <= i < |rs| ==> rs[i].name == names[i] && rs[i].force == force)
            && forall r :: r in AllImmediate(cs, order, rs) ==> r.Result? && r.status == FAILED && r.name !in cs
  {
    OnlyFailures(cs, order, Requests(names, force));
    NamesAnswered(cs, order, names, Requests(names, force));
  }

  /** What is answered at once, apart from announcements, is that there is no such service. */
  lemma {:induction false} OnlyFailures(cs: Services, order: seq<Name>, rs: seq<Request>)
    requires forall i :: 0 <= i < |rs| ==> rs[i].name != ALL
    ensures forall r :: r in AllImmediate(cs, order, rs) ==> r.Result? && r.status == FAILED && r.name !in cs
  {
    if rs != [] {
      OnlyFailures(cs, order, rs[1..]);
    }
  }

  lemma {:induction false} NamesAnswered(cs: Services, order: seq<Name>, names: seq<Name>, rs: seq<Request>)
    requires ALL !in names && |rs| == |names| && forall i :: 0 <= i < |rs| ==> rs[i].name == names[i]
    ensures Answered(AllImmediate(cs, order, rs)) + multiset(AllWanted(cs, order, rs)) == multiset(names)
  {
    if rs != [] {
      NamesAnswered(cs, order, names[1..], rs[1..]);
      FirstName(names);
      AnsweredSplit(Immediate(cs, order, rs[0]), AllImmediate(cs, order, rs[1..]));
      NameAnswered(cs, order, rs[0]);
      assert multiset(AllWanted(cs, order, rs)) == multiset(Wanted(cs, order, rs[0])) + multiset(AllWanted(cs, order, rs[1..]));
    }
  }

  lemma NameAnswered(cs: Services, order: seq<Name>, r: Request)
    requires r.name != ALL
    ensures Answered(Immediate(cs, order, r)) + multiset(Wanted(cs, order, r)) == multiset{r.name}
  {
    AnsweredMore([], Result(FAILED, r.name));
  }
}
