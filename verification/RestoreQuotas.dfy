/**
 restore_quotas at work: the loop that shifts quota sections off a list, puts those for all
 others off, and adds rules to the three chains as it goes.
 */
module RestoreQuotas {
  import opened Words
  import opened Quota

  const CHAINS := [Ingress, Egress, Combined]

  /** nft add rule, several times. */
  method AddRules(chains: array<seq<Rule>>, t: nat, rules: seq<Rule>)
    requires chains.Length == 3 && t < 3
    modifies chains
    ensures chains[..] == old(chains[..])[t := old(chains[t]) + rules]
  {
    chains[t] := chains[t] + rules;
  }

  /** The mark rules for an explicit quota and its ip_test. */
  method AddMarking(chains: array<seq<Rule>>, t: nat, target: Target, env: Env) returns (ipTest: Test, ip6Test: Test)
    requires chains.Length == 3 && t < 3
    modifies chains
    ensures chains[..] == old(chains[..])[t := old(chains[t]) + Marking(target, CHAINS[t], env)]
    ensures ipTest == IpTest(target, CHAINS[t], env) && ip6Test == Ip6Test(target, CHAINS[t], env)
  {
    var chain := CHAINS[t];
    ipTest := ALWAYS;
    if target.Explicit() {
      var find: seq<Rule> := [];
      if target.Several? {
        if target.v4s != {} {
          find := find + MarkAddrs(chain, false, target.v4s);
        }
        if target.v6s != {} {
          find := find + MarkAddrs(chain, true, target.v6s);
        }
        ipTest := IS_HERE;
      } else if chain == Egress {
        ipTest := Test(Some(AddrTest(target.v6, true, target.addrs)), None);
      } else if chain == Ingress {
        ipTest := Test(Some(AddrTest(target.v6, false, target.addrs)), None);
      } else {
        find := MarkAddrs(chain, target.v6, target.addrs);
        ipTest := IS_HERE;
      }
      assert find == Finding(target, chain);
      AddRules(chains, t, find + [Rule(false, false, ipTest, None, Checking, SET_SEEN)]);
      ip6Test := ipTest;
    } else {
      if target.Others() {
        ipTest := Test(None, Some(NOT_SEEN));
      }
      ip6Test := ipTest;
      if target.OthersIndividual? {
        if chain == Egress {
          ipTest, ip6Test := ipTest.(addr := Some(AddrTest(false, true, env.subnet))),
                             ip6Test.(addr := Some(AddrTest(true, true, env.subnet6)));
        } else if chain == Ingress {
          ipTest, ip6Test := ipTest.(addr := Some(AddrTest(false, false, env.subnet))),
                             ip6Test.(addr := Some(AddrTest(true, false, env.subnet6)));
        }
      }
      assert old(chains[t]) + [] == old(chains[t]);
    }
  }

  /** The bandwidth rules of one section for one chain. */
  method LimitPart(s: Section, id: nat, chain: Chain, env: Env, ipTest: Test, ip6Test: Test) returns (limits: seq<Rule>)
    requires ipTest == IpTest(s.target, chain, env) && ip6Test == Ip6Test(s.target, chain, env)
    ensures limits == OtherDirection(s, id, chain, env) + LimitRules(s, id, chain, env)
  {
    limits := [];
    if s.qos.Some? && chain != Combined {
      var other := if chain == Egress then Ingress else Egress;
      if other in s.limits {
        var mark := if chain == Egress then s.qos.value.0 else s.qos.value.1;
        if FoundIp4(s.target) {
          limits := limits + [Rule(false, false, ipTest, Some(Limit(id, other)), CheckingSwapped, Meta(mark))];
        }
        if FoundIp6(s.target) && ipTest != ip6Test {
          limits := limits + [Rule(false, false, ip6Test, Some(Limit(id, other)), CheckingSwapped, Meta(mark))];
        }
      }
    }
    assert limits == OtherDirection(s, id, chain, env);
    if chain in s.limits {
      if FoundIp4(s.target) {
        var more := BandwidthPart(s, id, chain, env, ipTest);
        limits := limits + more;
      }
      if FoundIp6(s.target) && ipTest != ip6Test {
        var more := BandwidthPart(s, id, chain, env, ip6Test);
        limits := limits + more;
      }
    }
  }

  /** The rules of the limit itself, for one address test. */
  method BandwidthPart(s: Section, id: nat, chain: Chain, env: Env, test: Test) returns (rules: seq<Rule>)
    ensures rules == Bandwidth(s, id, chain, env, test)
  {
    var limit := Some(Limit(id, chain));
    if s.qos.None? {
      return [Rule(false, false, test, limit, Counting, Ct(env.deathMask, env.deathMark))];
    }
    var setEgressMark, setIngressMark := Meta(s.qos.value.0), Meta(s.qos.value.1);
    if chain == Egress {
      rules := [Rule(false, false, test, limit, Counting, setEgressMark)];
    } else if chain == Ingress {
      rules := [Rule(false, false, test, limit, Counting, setIngressMark)];
    } else {
      rules := [Rule(false, false, test, limit, Counting, NoAction),
                Rule(false, true, test, limit, Checking, setEgressMark),
                Rule(true, false, test, limit, CheckingSwapped, setIngressMark)];
    }
  }

  /** One turn of the loop over type_index. */
  method AddSection(chains: array<seq<Rule>>, t: nat, s: Section, id: nat, env: Env)
    requires chains.Length == 3 && t < 3
    modifies chains
    ensures chains[..] == old(chains[..])[t := old(chains[t]) + Block(s, id, CHAINS[t], env)]
  {
    var chain := CHAINS[t];
    var ipTest, ip6Test := AddMarking(chains, t, s.target, env);
    var limits := LimitPart(s, id, chain, env, ipTest, ip6Test);
    var cleanup: seq<Rule> := [];
    if ipTest.mark.Some? || ip6Test.mark.Some? {
      cleanup := [Rule(false, false, ALWAYS, None, Checking, CLEAR_HERE)];
    }
    assert cleanup == Cleanup(s.target, chain, env);
    Assoc(old(chains[t]), Marking(s.target, chain, env), limits + cleanup);
    AddRules(chains, t, limits + cleanup);
  }

  /** All three chains hold what Compile says of the sections added so far. */
  ghost predicate Emitted(chains: array<seq<Rule>>, sections: seq<Section>, done: seq<nat>, env: Env)
    requires forall k :: 0 <= k < |done| ==> done[k] < |sections|
    reads chains
  {
    chains.Length == 3 &&
    forall t :: 0 <= t < 3 ==> chains[t] == Head(env) + Blocks(sections, done, CHAINS[t], env)
  }

  /** The loop over type_index for section `next`. */
  method AddToAllChains(chains: array<seq<Rule>>, sections: seq<Section>, ghost done: seq<nat>, next: nat, env: Env)
    requires (forall k :: 0 <= k < |done| ==> done[k] < |sections|) && next < |sections|
    requires Emitted(chains, sections, done, env)
    modifies chains
    ensures Emitted(chains, sections, done + [next], env)
  {
    AddToEach(chains, sections[next], next, env);
    forall t | 0 <= t < 3 ensures chains[t] == Head(env) + Blocks(sections, done + [next], CHAINS[t], env) {
      NextBlock(sections, done, next, CHAINS[t], env);
      Assoc(Head(env), Blocks(sections, done, CHAINS[t], env), Block(sections[next], next, CHAINS[t], env));
    }
  }

  /** The loop over the type index. */
  method AddToEach(chains: array<seq<Rule>>, s: Section, id: nat, env: Env)
    requires chains.Length == 3
    modifies chains
    ensures forall t :: 0 <= t < 3 ==> chains[t] == old(chains[t]) + Block(s, id, CHAINS[t], env)
  {
    var typeIndex := 0;
    while typeIndex < 3
      invariant 0 <= typeIndex <= 3
      invariant forall t :: 0 <= t < typeIndex ==> chains[t] == old(chains[t]) + Block(s, id, CHAINS[t], env)
      invariant forall t :: typeIndex <= t < 3 ==> chains[t] == old(chains[t])
    {
      ghost var before := chains[..];
      AddSection(chains, typeIndex, s, id, env);
      assert forall t :: 0 <= t < 3 ==> chains[t] == chains[..][t];
      assert forall t :: 0 <= t < 3 && t != typeIndex ==> chains[..][t] == before[t];
      typeIndex := typeIndex + 1;
    }
  }

  lemma NextBlock(sections: seq<Section>, done: seq<nat>, next: nat, chain: Chain, env: Env)
    requires (forall k :: 0 <= k < |done| ==> done[k] < |sections|) && next < |sections|
    ensures Blocks(sections, done + [next], chain, env)
         == Blocks(sections, done, chain, env) + Block(sections[next], next, chain, env)
  {
    ConcatLast(done, [next]);
    assert done + [next][..0] == done;
  }

  /** The list of the sections from i on. */
  function Remaining(sections: seq<Section>, i: nat): (r: seq<nat>)
    requires i <= |sections|
    ensures |r| == |sections| - i
    decreases |sections| - i
  {
    if i == |sections| then [] else [i] + Remaining(sections, i + 1)
  }

  /** Where the main loop stands: section i is next on the list, `done` have been added. */
  ghost predicate Underway(sections: seq<Section>, quotas: seq<nat>, others: seq<nat>, done: seq<nat>, i: nat) {
    && i <= |sections| && quotas == Remaining(sections, i)
    && AllEnabled(sections, done) && AllEnabled(sections, others)
    && Pending(sections, done, others, i) == Order(sections)
  }

  /** The main loop of restore_quotas. */
  method AddAll(chains: array<seq<Rule>>, sections: seq<Section>, env: Env)
    requires Emitted(chains, sections, [], env)
    modifies chains
    ensures Emitted(chains, sections, Order(sections), env)
  {
    var quotaSections, otherSections: seq<nat> := Remaining(sections, 0), [];
    ghost var done, i: nat := [], 0;
    assert Pending(sections, done, otherSections, 0) == Order(sections);
    while |quotaSections| > 0 || |otherSections| > 0
      invariant Underway(sections, quotaSections, otherSections, done, i)
      invariant Emitted(chains, sections, done, env)
      decreases 2 * |quotaSections| + |otherSections|
    {
      var next, add;
      next, add, quotaSections, otherSections, i := Shift(sections, quotaSections, otherSections, done, i);
      if add {
        AddToAllChains(chains, sections, done, next, env);
        done := done + [next];
      }
    }
    assert done + [] == done;
  }

  /** Shift a section off the list, or off the other list if that is empty. */
  method Shift(sections: seq<Section>, quotaSections: seq<nat>, otherSections: seq<nat>, ghost done: seq<nat>, ghost i: nat)
    returns (next: nat, add: bool, quotas: seq<nat>, others: seq<nat>, ghost i': nat)
    requires |quotaSections| > 0 || |otherSections| > 0
    requires Underway(sections, quotaSections, otherSections, done, i)
    ensures next < |sections|
    ensures Underway(sections, quotas, others, if add then done + [next] else done, i')
    ensures 2 * |quotas| + |others| < 2 * |quotaSections| + |otherSections|
  {
    if |quotaSections| > 0 {
      next, add, quotas, others := ShiftQuota(sections, quotaSections, otherSections, done, i);
      i' := i + 1;
    } else {
      PendingOther(sections, done, otherSections);
      next, add, quotas, others, i' := otherSections[0], true, [], otherSections[1..], i;
    }
  }

  /** Shift a section off the list: skip it if it is disabled, put it off if it is for all others. */
  method ShiftQuota(sections: seq<Section>, quotaSections: seq<nat>, otherSections: seq<nat>, ghost done: seq<nat>, ghost i: nat)
    returns (next: nat, add: bool, quotas: seq<nat>, others: seq<nat>)
    requires i < |sections| && quotaSections == Remaining(sections, i) && AllEnabled(sections, otherSections)
    ensures quotas == Remaining(sections, i + 1)
    ensures next < |sections| && (add ==> sections[next].enabled) && AllEnabled(sections, others)
    ensures |others| <= |otherSections| + 1
    ensures Pending(sections, if add then done + [next] else done, others, i + 1)
         == Pending(sections, done, otherSections, i)
  {
    assert quotaSections == [i] + Remaining(sections, i + 1);
    next, quotas, others, add := quotaSections[0], quotaSections[1..], otherSections, false;
    PendingNext(sections, done, others, i);
    if sections[next].enabled {
      if sections[next].target.Others() {
        others := others + [next];
      } else {
        add := true;
      }
    }
  }

  predicate AllEnabled(sections: seq<Section>, ids: seq<nat>) {
    forall k :: 0 <= k < |ids| ==> ids[k] < |sections| && sections[ids[k]].enabled
  }

  /** The rules of restore_quotas for the three mangle quota chains. */
  method Restore(sections: seq<Section>, env: Env) returns (chains: array<seq<Rule>>)
    ensures fresh(chains) && chains.Length == 3
    ensures forall t :: 0 <= t < 3 ==> chains[t] == Compile(sections, CHAINS[t], env)
  {
    chains := new seq<Rule>[3](_ => Head(env));
    assert Head(env) + [] == Head(env);
    AddAll(chains, sections, env);
    AddTails(chains, sections, env);
  }

  method AddTails(chains: array<seq<Rule>>, sections: seq<Section>, env: Env)
    requires Emitted(chains, sections, Order(sections), env)
    modifies chains
    ensures forall t :: 0 <= t < 3 ==> chains[t] == Compile(sections, CHAINS[t], env)
  {
    ghost var before := chains[..];
    var t := 0;
    while t < 3
      invariant 0 <= t <= 3
      invariant forall k :: 0 <= k < t ==> chains[k] == before[k] + TAIL
      invariant forall k :: t <= k < 3 ==> chains[k] == before[k]
    {
      chains[t] := chains[t] + TAIL;
      t := t + 1;
    }
    forall k | 0 <= k < 3 ensures chains[k] == Compile(sections, CHAINS[k], env) {
      assert chains[k] == (Head(env) + Blocks(sections, Order(sections), CHAINS[k], env)) + TAIL;
    }
  }

  /** What has been emitted and is still to be, section i being the next on the list. */
  ghost function Pending(sections: seq<Section>, done: seq<nat>, others: seq<nat>, i: nat): seq<nat>
    requires i <= |sections|
  {
    (done + Quota.Pick(sections, false, i)) + (others + Quota.Pick(sections, true, i))
  }

  /** Section i leaves the list: it is skipped, put off, or added now. */
  lemma PendingNext(sections: seq<Section>, done: seq<nat>, others: seq<nat>, i: nat)
    requires i < |sections|
    ensures Pending(sections, done, others, i) ==
              if !sections[i].enabled then Pending(sections, done, others, i + 1)
              else if sections[i].target.Others() then Pending(sections, done, others + [i], i + 1)
              else Pending(sections, done + [i], others, i + 1)
  {
    Assoc(others, [i], Quota.Pick(sections, true, i + 1));
    Assoc(done, [i], Quota.Pick(sections, false, i + 1));
    assert [] + Quota.Pick(sections, false, i + 1) == Quota.Pick(sections, false, i + 1);
    assert [] + Quota.Pick(sections, true, i + 1) == Quota.Pick(sections, true, i + 1);
  }

  lemma PendingOther(sections: seq<Section>, done: seq<nat>, others: seq<nat>)
    requires others != []
    ensures Pending(sections, done, others, |sections|) == Pending(sections, done + [others[0]], others[1..], |sections|)
  {
    assert done + others == (done + [others[0]]) + others[1..];
  }
}
