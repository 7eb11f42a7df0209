/**
 The whole life of the dynamic-DNS daemon: update loops and batches of requests in any order.
 */
module DdnsLife {
  import opened Words
  import opened Ddns
  import opened DdnsClient

  /** One pass of the main loop does one of these, or both in this order. */
  datatype Phase =
    | Updates(start: int, turns: nat -> Turn, n: nat)    // the update loop, which ends after n turns
    | Batch(now: int, rs: seq<Request>)                  // the requests found in the message queue

  /** What is fixed for the life of a daemon. */
  datatype Setting = Setting(cs: Services, reference: int, order: seq<Name>)

  ghost predicate Sound(e: Setting) {
    Loaded(e.cs) && Lists(e.order, e.cs)
  }

  ghost function Pass(e: Setting, d: Daemon, ph: Phase): Option<Daemon> {
    match ph
    case Updates(_, turns, n) => Some(After(e.cs, e.reference, d, turns, n))
    case Batch(now, rs) => HandleAll(e.cs, e.order, d, now, 0, rs)
  }

  /** The daemon after some phases; none if it did not survive them. */
  ghost function Live(e: Setting, d: Daemon, phases: seq<Phase>): Option<Daemon> {
    if phases == [] then Some(d)
    else
      var n := |phases| - 1;
      var before := Live(e, d, phases[..n]);
      if before.None? then None else Pass(e, before.value, phases[n])
  }

  /** The update loop ends, no script contradicts a forced update, and no time wraps around. */
  ghost predicate Regular(e: Setting, d: Daemon, ph: Phase) {
    ph.Updates? ==>
      && EndsAfter(e.cs, e.reference, d, ph.start, ph.turns, ph.n)
      && NoneContrary(e.cs, e.reference, d, ph.turns, ph.n)
      && forall k :: ClockFits(e.cs, e.reference, ph.turns(k).now)
  }

  ghost predicate AllRegular(e: Setting, d: Daemon, phases: seq<Phase>) {
    phases == [] ||
    var n := |phases| - 1;
    AllRegular(e, d, phases[..n]) && (Live(e, d, phases[..n]).Some? ==> Regular(e, Live(e, d, phases[..n]).value, phases[n]))
  }

  ghost predicate Healthy(e: Setting, d: Daemon) {
    OneNodeEach(e.cs, d) && InTime(d, e.reference)
  }

  lemma PassKeeps(e: Setting, d: Daemon, ph: Phase)
    requires Sound(e) && Healthy(e, d) && Regular(e, d, ph)
    ensures Pass(e, d, ph).Some? ==> Healthy(e, Pass(e, d, ph).value)
    ensures ph.Updates? ==> Rested(e, Pass(e, d, ph).value, ClockAt(ph.start, ph.turns, ph.n))
  {
    match ph
    case Updates(start, turns, n) =>
      AfterConserves(e.cs, e.reference, d, turns, n);
      LoopAnswersRequests(e.cs, e.reference, d, start, turns, n);
      LoopLeavesNothingDue(e.cs, e.reference, d, start, turns, n);
    case Batch(now, rs) =>
      BatchSurvived(e.cs, e.order, d, now, rs);
      BatchInTime(e.cs, e.order, d, e.reference, now, 0, rs);
  }

  /** Nothing is pending and nothing is due. */
  ghost predicate Rested(e: Setting, d: Daemon, now: int) {
    d.request == [] && Names(d.update) == multiset(e.cs.Keys) && forall x :: x in d.update ==> x.node.nextTime > now
  }

  /**
   Over its whole life, as long as it lives, every service has exactly one node in the two queues and the
   updates are in the order of their times; and after every update loop nothing is pending or due.
   */
  lemma {:induction false} LifeIsHealthy(e: Setting, d: Daemon, phases: seq<Phase>)
    requires Sound(e) && Healthy(e, d) && AllRegular(e, d, phases)
    ensures Live(e, d, phases).Some? ==> Healthy(e, Live(e, d, phases).value)
    ensures phases != [] && Live(e, d, phases).Some? ==>
              var ph := phases[|phases| - 1];
              ph.Updates? ==> Rested(e, Live(e, d, phases).value, ClockAt(ph.start, ph.turns, ph.n))
    decreases |phases|
  {
    if phases != [] {
      var n := |phases| - 1;
      LifeIsHealthy(e, d, phases[..n]);
      if Live(e, d, phases[..n]).Some? {
        PassKeeps(e, Live(e, d, phases[..n]).value, phases[n]);
      }
    }
  }

  /** It ends only with a batch in which some service is wanted twice, or is wanted while still pending. */
  lemma LifeEndsWithDouble(e: Setting, d: Daemon, phases: seq<Phase>, ph: Phase)
    requires Sound(e) && Healthy(e, d) && AllRegular(e, d, phases + [ph]) && Live(e, d, phases).Some?
    ensures var b := Live(e, d, phases).value;
            Live(e, d, phases + [ph]).None? <==>
              ph.Batch? && exists n :: n in e.cs && multiset(AllWanted(e.cs, e.order, ph.rs))[n] + Names(b.request)[n] > 1
  {
    assert (phases + [ph])[..|phases|] == phases;
    LifeIsHealthy(e, d, phases);
    if ph.Batch? {
      BatchSurvived(e.cs, e.order, Live(e, d, phases).value, ph.now, ph.rs);
    }
  }
}
