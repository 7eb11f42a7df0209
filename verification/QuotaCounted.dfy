/**
 How packets are counted: each against every limit of the chain that has it, once, and against no other.
 */
module QuotaCounted {
  import opened Words
  import opened Quota
  import opened QuotaEnforced
  import opened QuotaThrottled

  /** A rule that counts for the limit. */
  predicate CountsFor(r: Rule, limit: Limit) {
    r.limit == Some(limit) && r.check.Counting?
  }

  /** How often the packet is counted against the limit on its walk. */
  function Charges(rules: seq<Rule>, p: Packet, m: Marks, hits: seq<bool>, limit: Limit): nat
    requires |hits| == |rules|
  {
    if rules == [] then 0
    else (if CountsFor(rules[0], limit) && Applies(rules[0], p, m.ct) then 1 else 0)
         + Charges(rules[1..], p, Step(rules[0], p, m, hits[0]), hits[1..], limit)
  }

  /** How many rules that count for the limit are wanted for the packet. */
  function Wants(sections: seq<Section>, chain: Chain, env: Env, p: Packet, rules: seq<Rule>, limit: Limit): nat
    requires limit.id < |sections|
  {
    if rules == [] then 0
    else (if CountsFor(rules[0], limit) && Wanted(sections, chain, env, p, rules[0]) then 1 else 0)
         + Wants(sections, chain, env, p, rules[1..], limit)
  }

  lemma {:induction false} ChargesAreWanted(sections: seq<Section>, chain: Chain, env: Env, rules: seq<Rule>,
                                            p: Packet, m: Marks, hits: seq<bool>, limit: Limit)
    requires |hits| == |rules| && limit.id < |sections| && Right(sections, chain, env, rules, p, m, hits)
    ensures Charges(rules, p, m, hits, limit) == Wants(sections, chain, env, p, rules, limit)
    decreases |rules|
  {
    if rules != [] {
      ChargesAreWanted(sections, chain, env, rules[1..], p, Step(rules[0], p, m, hits[0]), hits[1..], limit);
    }
  }

  lemma {:induction false} WantsConcat(sections: seq<Section>, chain: Chain, env: Env, p: Packet, a: seq<Rule>, b: seq<Rule>, limit: Limit)
    requires limit.id < |sections|
    ensures Wants(sections, chain, env, p, a + b, limit)
         == Wants(sections, chain, env, p, a, limit) + Wants(sections, chain, env, p, b, limit)
    decreases |a|
  {
    if a == [] {
      assert a + b == b;
    } else {
      assert (a + b)[1..] == a[1..] + b;
      WantsConcat(sections, chain, env, p, a[1..], b, limit);
    }
  }

  lemma {:induction false} NoneWants(sections: seq<Section>, chain: Chain, env: Env, p: Packet, rules: seq<Rule>, limit: Limit)
    requires limit.id < |sections| && forall r :: r in rules ==> !CountsFor(r, limit)
    ensures Wants(sections, chain, env, p, rules, limit) == 0
    decreases |rules|
  {
    if rules != [] {
      assert rules[0] in rules;
      NoneWants(sections, chain, env, p, rules[1..], limit);
    }
  }

  // ----- One section -----

  /** What a packet is counted for by the limit rules of its section. */
  function Share(sections: seq<Section>, chain: Chain, env: Env, p: Packet, limit: Limit): nat
    requires limit.id < |sections|
  {
    var s := sections[limit.id];
    if limit.of == chain && chain in s.limits && FoundIp4(s.target) && Declared(sections, limit.id, chain, env, p) then 1 else 0
  }

  /** Only the first rule of a limit counts. */
  lemma BandwidthWants(sections: seq<Section>, chain: Chain, env: Env, p: Packet, id: nat, test: Test)
    requires id < |sections|
    ensures var s := sections[id]; var rules := Bandwidth(s, id, chain, env, test);
            Wants(sections, chain, env, p, rules, Limit(id, chain)) == if Wanted(sections, chain, env, p, rules[0]) then 1 else 0
  {
    var rules := Bandwidth(sections[id], id, chain, env, test);
    NoneWants(sections, chain, env, p, rules[1..], Limit(id, chain));
  }

  lemma LimitRulesWant(sections: seq<Section>, chain: Chain, env: Env, p: Packet, id: nat)
    requires id < |sections|
    ensures Wants(sections, chain, env, p, LimitRules(sections[id], id, chain, env), Limit(id, chain))
         == Share(sections, chain, env, p, Limit(id, chain))
  {
    var s, limit := sections[id], Limit(id, chain);
    var t := s.target;
    if chain in s.limits {
      var a := if FoundIp4(t) then Bandwidth(s, id, chain, env, IpTest(t, chain, env)) else [];
      var b := if TwoTests(t, chain, env) then Bandwidth(s, id, chain, env, Ip6Test(t, chain, env)) else [];
      WantsConcat(sections, chain, env, p, a, b, limit);
      BandwidthWants(sections, chain, env, p, id, IpTest(t, chain, env));
      BandwidthWants(sections, chain, env, p, id, Ip6Test(t, chain, env));
      FamiliesApart(sections, chain, env, p, id);
    }
  }

  /** Where there are two rules, each has the packets of its family. */
  lemma FamiliesApart(sections: seq<Section>, chain: Chain, env: Env, p: Packet, id: nat)
    requires id < |sections|
    ensures var s := sections[id]; var t := s.target;
            var r4, r6 := Bandwidth(s, id, chain, env, IpTest(t, chain, env))[0], Bandwidth(s, id, chain, env, Ip6Test(t, chain, env))[0];
            && (TwoTests(t, chain, env) ==> FoundIp4(t))
            && (Wanted(sections, chain, env, p, r4) <==> Declared(sections, id, chain, env, p) && (TwoTests(t, chain, env) ==> !p.v6))
            && (TwoTests(t, chain, env) ==> (Wanted(sections, chain, env, p, r6) <==> Declared(sections, id, chain, env, p) && p.v6))
  {
    var t := sections[id].target;
    assert TwoTests(t, chain, env) <==> t.OthersIndividual? && !chain.Combined?;
  }

  lemma BlockWants(sections: seq<Section>, chain: Chain, env: Env, p: Packet, i: nat, limit: Limit)
    requires i < |sections| && limit.id < |sections|
    ensures Wants(sections, chain, env, p, Block(sections[i], i, chain, env), limit)
         == if i == limit.id then Share(sections, chain, env, p, limit) else 0
  {
    var s := sections[i];
    var a, od, lr, c := Marking(s.target, chain, env), OtherDirection(s, i, chain, env), LimitRules(s, i, chain, env), Cleanup(s.target, chain, env);
    WantsConcat(sections, chain, env, p, a, (od + lr) + c, limit);
    WantsConcat(sections, chain, env, p, od + lr, c, limit);
    WantsConcat(sections, chain, env, p, od, lr, limit);
    OnlyLimitsCount(s, i, chain, env, limit);
    NoneWants(sections, chain, env, p, a, limit);
    NoneWants(sections, chain, env, p, od, limit);
    NoneWants(sections, chain, env, p, c, limit);
    if limit == Limit(i, chain) {
      LimitRulesWant(sections, chain, env, p, i);
    } else {
      OthersLimits(s, i, chain, env, limit);
      NoneWants(sections, chain, env, p, lr, limit);
    }
  }

  lemma OnlyLimitsCount(s: Section, i: nat, chain: Chain, env: Env, limit: Limit)
    ensures forall r :: r in Marking(s.target, chain, env) ==> !CountsFor(r, limit)
    ensures forall r :: r in OtherDirection(s, i, chain, env) ==> !CountsFor(r, limit)
    ensures forall r :: r in Cleanup(s.target, chain, env) ==> !CountsFor(r, limit)
  {
    forall r | r in Marking(s.target, chain, env) ensures !CountsFor(r, limit) {
      PlainMarks(s.target, chain, env, r);
    }
  }

  lemma OthersLimits(s: Section, i: nat, chain: Chain, env: Env, limit: Limit)
    requires limit != Limit(i, chain)
    ensures forall r :: r in LimitRules(s, i, chain, env) ==> !CountsFor(r, limit)
  {
    forall r | r in LimitRules(s, i, chain, env) ensures r.limit == Some(Limit(i, chain)) {
      if r in Bandwidth(s, i, chain, env, IpTest(s.target, chain, env)) {
      } else {
        assert r in Bandwidth(s, i, chain, env, Ip6Test(s.target, chain, env));
      }
    }
  }

  // ----- All sections -----

  lemma {:induction false} PickOnce(sections: seq<Section>, others: bool, i: nat, id: nat)
    requires i <= |sections|
    ensures multiset(Pick(sections, others, i))[id]
         == if i <= id < |sections| && sections[id].enabled && sections[id].target.Others() == others then 1 else 0
    decreases |sections| - i
  {
    if i < |sections| {
      PickOnce(sections, others, i + 1, id);
      var first := if sections[i].enabled && sections[i].target.Others() == others then [i] else [];
      assert Pick(sections, others, i) == first + Pick(sections, others, i + 1);
      TwoLists(first, Pick(sections, others, i + 1), id);
      assert multiset(first)[id] == if first != [] && id == i then 1 else 0;
    }
  }

  lemma TwoLists(a: seq<nat>, b: seq<nat>, x: nat)
    ensures multiset(a + b)[x] == multiset(a)[x] + multiset(b)[x]
  {}

  lemma OrderOnce(sections: seq<Section>, id: nat)
    requires id < |sections|
    ensures multiset(Order(sections))[id] == if sections[id].enabled then 1 else 0
  {
    PickOnce(sections, false, 0, id);
    PickOnce(sections, true, 0, id);
    TwoLists(Pick(sections, false, 0), Pick(sections, true, 0), id);
  }

  lemma {:induction false} BlocksWant(sections: seq<Section>, chain: Chain, env: Env, p: Packet, ids: seq<nat>, limit: Limit)
    requires limit.id < |sections| && forall k :: 0 <= k < |ids| ==> ids[k] < |sections|
    ensures Wants(sections, chain, env, p, Blocks(sections, ids, chain, env), limit)
         == if Share(sections, chain, env, p, limit) == 1 then multiset(ids)[limit.id] else 0
    decreases |ids|
  {
    if ids != [] {
      var n := |ids| - 1;
      var a, b := Blocks(sections, ids[..n], chain, env), Block(sections[ids[n]], ids[n], chain, env);
      BlocksWant(sections, chain, env, p, ids[..n], limit);
      BlockWants(sections, chain, env, p, ids[n], limit);
      assert Blocks(sections, ids, chain, env) == a + b;
      WantsConcat(sections, chain, env, p, a, b, limit);
      LastCounts(ids, limit.id);
    }
  }

  lemma LastCounts(ids: seq<nat>, id: nat)
    requires ids != []
    ensures var n := |ids| - 1; multiset(ids)[id] == multiset(ids[..n])[id] + if ids[n] == id then 1 else 0
  {
    var n := |ids| - 1;
    assert ids == ids[..n] + [ids[n]];
    TwoLists(ids[..n], [ids[n]], id);
  }

  /**
   Conservation: on the walk of any packet through a compiled chain it is counted exactly once against
   every limit for that chain of an enabled section that has it (and is not of IPv6 addresses only), and
   against no other limit.
   */
  lemma CountedOnce(sections: seq<Section>, chain: Chain, env: Env, p: Packet, m: Marks, hits: seq<bool>, limit: Limit)
    requires Sound(env) && |hits| == |Compile(sections, chain, env)| && limit.id < |sections|
    ensures Charges(Compile(sections, chain, env), p, m, hits, limit)
         == if sections[limit.id].enabled && limit.of == chain && chain in sections[limit.id].limits
               && FoundIp4(sections[limit.id].target) && Declared(sections, limit.id, chain, env, p) then 1 else 0
  {
    var body := Blocks(sections, Order(sections), chain, env);
    CompilePreservesMeaning(sections, chain, env, p, m, hits);
    ChargesAreWanted(sections, chain, env, Compile(sections, chain, env), p, m, hits, limit);
    WantsConcat(sections, chain, env, p, Head(env) + body, TAIL, limit);
    WantsConcat(sections, chain, env, p, Head(env), body, limit);
    NoneWants(sections, chain, env, p, Head(env), limit);
    NoneWants(sections, chain, env, p, TAIL, limit);
    BlocksWant(sections, chain, env, p, Order(sections), limit);
    OrderOnce(sections, limit.id);
  }

  // ----- Whose counter is looked at -----

  /** Counters are kept per local address, of ingress limits by destination and of the others by source. */
  function CounterOf(of: Chain, check: Check, p: Packet): int {
    if of.Ingress? == check.CheckingSwapped? then p.src else p.dst
  }

  /** A rule that only checks, by the way the packet goes: its local address is the source on the way out. */
  predicate LooksAtLocal(chain: Chain, r: Rule, p: Packet)
    requires r.limit.Some?
  {
    CounterOf(r.limit.value.of, r.check, p) == if chain.Egress? || r.oifWan then p.src else p.dst
  }

  lemma BandwidthLooks(s: Section, id: nat, chain: Chain, env: Env, test: Test, p: Packet, r: Rule)
    requires r in Bandwidth(s, id, chain, env, test) && r.limit.Some? && !r.check.Counting?
    ensures LooksAtLocal(chain, r, p)
  {}

  /** Every rule that checks without counting asks for the counter of the packet's local address. */
  lemma ChecksLocalHost(sections: seq<Section>, chain: Chain, env: Env, p: Packet, r: Rule)
    requires r in Compile(sections, chain, env) && r.limit.Some? && r.limit.value.id < |sections| && !r.check.Counting?
    ensures LooksAtLocal(chain, r, p)
  {
    var id := r.limit.value.id;
    var s := sections[id];
    LimitInCompile(sections, chain, env, r, id);
    if r in OtherDirection(s, id, chain, env) {
    } else if r in Bandwidth(s, id, chain, env, IpTest(s.target, chain, env)) {
      BandwidthLooks(s, id, chain, env, IpTest(s.target, chain, env), p, r);
    } else {
      BandwidthLooks(s, id, chain, env, Ip6Test(s.target, chain, env), p, r);
    }
  }
}
