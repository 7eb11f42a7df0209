/**
 What the compiled chains enforce: which packets meet a section's limit, and which packets leave a
 chain with the death mark.
 */
module QuotaEnforced {
  import opened Words
  import opened Quota

  // ----- A limit is met on the walk -----

  /** On the packet's walk some rule with this limit applies, so that its bandwidth match is consulted. */
  predicate Meets(rules: seq<Rule>, p: Packet, m: Marks, hits: seq<bool>, limit: Limit)
    requires |hits| == |rules|
  {
    rules != [] &&
    ((rules[0].limit == Some(limit) && Applies(rules[0], p, m.ct))
     || Meets(rules[1..], p, Step(rules[0], p, m, hits[0]), hits[1..], limit))
  }

  /** A rule with this limit that is wanted for p. */
  predicate WantsAt(sections: seq<Section>, chain: Chain, env: Env, p: Packet, r: Rule, limit: Limit) {
    r.limit == Some(limit) && limit.id < |sections| && Wanted(sections, chain, env, p, r)
  }

  lemma {:induction false} MeetsIfWanted(sections: seq<Section>, chain: Chain, env: Env, rules: seq<Rule>,
                                         p: Packet, m: Marks, hits: seq<bool>, limit: Limit)
    requires |hits| == |rules| && Right(sections, chain, env, rules, p, m, hits)
    ensures Meets(rules, p, m, hits, limit) <==> exists r :: r in rules && WantsAt(sections, chain, env, p, r, limit)
    decreases |rules|
  {
    if rules != [] {
      var rest, m1 := rules[1..], Step(rules[0], p, m, hits[0]);
      MeetsIfWanted(sections, chain, env, rest, p, m1, hits[1..], limit);
      assert rules == [rules[0]] + rest;
      assert rules[0].limit == Some(limit) ==>
               (Applies(rules[0], p, m.ct) <==> WantsAt(sections, chain, env, p, rules[0], limit));
      if r :| r in rest && WantsAt(sections, chain, env, p, r, limit) {
        assert r in rules;
      }
      if r :| r in rules && WantsAt(sections, chain, env, p, r, limit) {
        assert r == rules[0] || r in rest;
      }
    }
  }

  // ----- Which limit rules there are -----

  predicate InBlockOf(sections: seq<Section>, id: nat, chain: Chain, env: Env, r: Rule) {
    id < |sections| && r in Block(sections[id], id, chain, env)
  }

  lemma {:induction false} InBlocks(sections: seq<Section>, ids: seq<nat>, chain: Chain, env: Env, r: Rule)
    requires forall k :: 0 <= k < |ids| ==> ids[k] < |sections|
    ensures r in Blocks(sections, ids, chain, env) <==> exists id :: id in ids && InBlockOf(sections, id, chain, env, r)
    decreases |ids|
  {
    if ids != [] {
      var n := |ids| - 1;
      InBlocks(sections, ids[..n], chain, env, r);
      SplitLast(ids);
      assert r in Block(sections[ids[n]], ids[n], chain, env) <==> InBlockOf(sections, ids[n], chain, env, r);
      assert ids[n] in ids;
      MemberOfTwo(r, Blocks(sections, ids[..n], chain, env), Block(sections[ids[n]], ids[n], chain, env));
    }
  }

  lemma MemberOfTwo<T>(x: T, a: seq<T>, b: seq<T>)
    ensures x in a + b <==> x in a || x in b
  {}

  lemma InOrder(sections: seq<Section>, id: nat)
    ensures id in Order(sections) <==> id < |sections| && sections[id].enabled
  {
    if id < |sections| && sections[id].enabled {
      PickHas(sections, sections[id].target.Others(), 0, id);
    }
  }

  /** In its own block, the rules with a section's limit for the chain are exactly its limit rules. */
  lemma InBlock(s: Section, id: nat, chain: Chain, env: Env, r: Rule, limit: Limit)
    requires r.limit == Some(limit) && limit.of == chain
    ensures r in Block(s, id, chain, env) <==> limit.id == id && r in LimitRules(s, id, chain, env)
  {
    assert r !in Marking(s.target, chain, env) && r !in Cleanup(s.target, chain, env);
    assert r !in OtherDirection(s, id, chain, env);
    assert r in LimitRules(s, id, chain, env) ==> limit.id == id;
  }

  lemma InCompile(sections: seq<Section>, chain: Chain, env: Env, r: Rule, id: nat)
    requires r.limit == Some(Limit(id, chain)) && id < |sections|
    ensures r in Compile(sections, chain, env) <==> sections[id].enabled && r in LimitRules(sections[id], id, chain, env)
  {
    var ids := Order(sections);
    InBlocks(sections, ids, chain, env, r);
    InOrder(sections, id);
    forall i | i in ids ensures InBlockOf(sections, i, chain, env, r) <==> i == id && r in LimitRules(sections[id], id, chain, env) {
      InBlock(sections[i], i, chain, env, r, Limit(id, chain));
    }
    MemberOfTwo(r, Head(env) + Blocks(sections, ids, chain, env), TAIL);
    MemberOfTwo(r, Head(env), Blocks(sections, ids, chain, env));
  }

  /** Among its limit rules one is wanted for every packet declared, given that there are any. */
  lemma SomeIsWanted(sections: seq<Section>, chain: Chain, env: Env, p: Packet, id: nat)
    requires id < |sections|
    ensures (exists r :: r in LimitRules(sections[id], id, chain, env) && WantsAt(sections, chain, env, p, r, Limit(id, chain)))
            <==> chain in sections[id].limits && FoundIp4(sections[id].target) && Declared(sections, id, chain, env, p)
  {
    var s := sections[id];
    var t := s.target;
    if chain in s.limits && FoundIp4(t) && Declared(sections, id, chain, env, p) {
      var test := if t.OthersIndividual? && !chain.Combined? && p.v6 then Ip6Test(t, chain, env) else IpTest(t, chain, env);
      var r := Bandwidth(s, id, chain, env, test)[0];
      assert r in Bandwidth(s, id, chain, env, test);
      assert r in LimitRules(s, id, chain, env) && WantsAt(sections, chain, env, p, r, Limit(id, chain));
    }
  }

  /**
   Every quota is enforced on exactly its own packets: on the walk of any packet through a compiled
   chain, with whatever marks it comes and whatever the counters say, the limit that a section has for
   that chain is met if and only if the section is enabled, the packet is declared to be one of its own,
   and its target is not one of explicit addresses that are all of IPv6.
   */
  lemma QuotaIsEnforced(sections: seq<Section>, chain: Chain, env: Env, p: Packet, m: Marks, hits: seq<bool>, id: nat)
    requires Sound(env) && |hits| == |Compile(sections, chain, env)| && id < |sections|
    ensures Meets(Compile(sections, chain, env), p, m, hits, Limit(id, chain))
            <==> && sections[id].enabled && chain in sections[id].limits
                 && FoundIp4(sections[id].target) && Declared(sections, id, chain, env, p)
  {
    var rules, limit := Compile(sections, chain, env), Limit(id, chain);
    CompilePreservesMeaning(sections, chain, env, p, m, hits);
    MeetsIfWanted(sections, chain, env, rules, p, m, hits, limit);
    SomeIsWanted(sections, chain, env, p, id);
    forall r: Rule | r.limit == Some(limit)
      ensures r in rules <==> sections[id].enabled && r in LimitRules(sections[id], id, chain, env)
    {
      InCompile(sections, chain, env, r, id);
    }
  }

  /** The failing family: a quota that lists only IPv6 addresses is never enforced, in any chain. */
  lemma Ip6OnlyIsNeverEnforced(sections: seq<Section>, chain: Chain, env: Env, p: Packet, m: Marks, hits: seq<bool>, id: nat)
    requires Sound(env) && |hits| == |Compile(sections, chain, env)| && id < |sections|
    requires match sections[id].target case Single(v6, _) => v6 case Several(v4s, _) => v4s == {} case _ => false
    ensures !Meets(Compile(sections, chain, env), p, m, hits, Limit(id, chain))
  {
    QuotaIsEnforced(sections, chain, env, p, m, hits, id);
  }

  // ----- The death mark -----

  /** What a rule may do to the death mark: set it for the limit of a section without throttling, or nothing. */
  predicate Deadly(sections: seq<Section>, env: Env, r: Rule) {
    if r.limit.None? then r.action.Ct? ==> env.deathMask !! r.action.clear + r.action.put
    else
      && r.limit.value.id < |sections|
      && if sections[r.limit.value.id].qos.None? then r.action == Ct(env.deathMask, env.deathMark) else !r.action.Ct?
  }

  /** Rule i is that of a section without throttling, wanted for p, and its bandwidth match says exceeded. */
  predicate Strikes(sections: seq<Section>, chain: Chain, env: Env, rules: seq<Rule>, p: Packet, hits: seq<bool>, i: nat)
    requires |hits| == |rules|
  {
    && i < |rules| && hits[i] && rules[i].limit.Some? && rules[i].limit.value.id < |sections|
    && sections[rules[i].limit.value.id].qos.None? && Wanted(sections, chain, env, p, rules[i])
  }

  predicate Exceeded(sections: seq<Section>, chain: Chain, env: Env, rules: seq<Rule>, p: Packet, hits: seq<bool>)
    requires |hits| == |rules|
  {
    exists i :: 0 <= i < |rules| && Strikes(sections, chain, env, rules, p, hits, i)
  }

  lemma ExceededSplit(sections: seq<Section>, chain: Chain, env: Env, rules: seq<Rule>, p: Packet, hits: seq<bool>)
    requires |hits| == |rules| > 0
    ensures Exceeded(sections, chain, env, rules, p, hits)
            <==> Strikes(sections, chain, env, rules, p, hits, 0) || Exceeded(sections, chain, env, rules[1..], p, hits[1..])
  {
    forall i | 0 < i < |rules|
      ensures Strikes(sections, chain, env, rules, p, hits, i) <==> Strikes(sections, chain, env, rules[1..], p, hits[1..], i - 1)
    {}
    if i :| 0 <= i < |rules[1..]| && Strikes(sections, chain, env, rules[1..], p, hits[1..], i) {
      assert Strikes(sections, chain, env, rules, p, hits, i + 1);
    }
    if i :| 0 <= i < |rules| && Strikes(sections, chain, env, rules, p, hits, i) {
      assert i > 0 ==> Strikes(sections, chain, env, rules[1..], p, hits[1..], i - 1);
    }
  }

  lemma {:induction false} DeathWalk(sections: seq<Section>, chain: Chain, env: Env, rules: seq<Rule>,
                                     p: Packet, m: Marks, hits: seq<bool>)
    requires |hits| == |rules| && Right(sections, chain, env, rules, p, m, hits) && env.deathMark <= env.deathMask
    requires forall r :: r in rules ==> Deadly(sections, env, r)
    ensures Walk(rules, p, m, hits).ct * env.deathMask
         == if Exceeded(sections, chain, env, rules, p, hits) then env.deathMark else m.ct * env.deathMask
    decreases |rules|
  {
    if rules != [] {
      assert rules[0] in rules;
      ExceededSplit(sections, chain, env, rules, p, hits);
      DeathStep(sections, chain, env, rules[0], p, m, hits[0]);
      DeathWalk(sections, chain, env, rules[1..], p, Step(rules[0], p, m, hits[0]), hits[1..]);
    }
  }

  lemma DeathStep(sections: seq<Section>, chain: Chain, env: Env, r: Rule, p: Packet, m: Marks, hit: bool)
    requires Deadly(sections, env, r) && env.deathMark <= env.deathMask
    requires r.limit.Some? ==> (Applies(r, p, m.ct) <==> Wanted(sections, chain, env, p, r))
    ensures Step(r, p, m, hit).ct * env.deathMask
         == if hit && r.limit.Some? && sections[r.limit.value.id].qos.None? && Wanted(sections, chain, env, p, r)
            then env.deathMark else m.ct * env.deathMask
  {}

  lemma {:induction false} BlocksDeadly(sections: seq<Section>, ids: seq<nat>, chain: Chain, env: Env)
    requires Sound(env) && forall k :: 0 <= k < |ids| ==> ids[k] < |sections|
    ensures forall r :: r in Blocks(sections, ids, chain, env) ==> Deadly(sections, env, r)
    decreases |ids|
  {
    if ids != [] {
      var n := |ids| - 1;
      BlocksDeadly(sections, ids[..n], chain, env);
      BlockDeadly(sections, ids[n], chain, env);
    }
  }

  lemma BlockDeadly(sections: seq<Section>, id: nat, chain: Chain, env: Env)
    requires Sound(env) && id < |sections|
    ensures forall r :: r in Block(sections[id], id, chain, env) ==> Deadly(sections, env, r)
  {
    var s := sections[id];
    forall r | r in Block(s, id, chain, env) ensures Deadly(sections, env, r) {
      if r in Marking(s.target, chain, env) {
        MarkingSpares(s.target, chain, env, r);
      } else if r in OtherDirection(s, id, chain, env) + LimitRules(s, id, chain, env) {
        LimitDeadly(sections, id, chain, env, r);
      } else {
        assert r in Cleanup(s.target, chain, env);
      }
    }
  }

  lemma MarkingSpares(t: Target, chain: Chain, env: Env, r: Rule)
    requires Sound(env) && r in Marking(t, chain, env)
    ensures r.limit.None? && r.action.Ct? && env.deathMask !! r.action.clear + r.action.put
  {
    assert r.action == SET_HERE || r.action == SET_SEEN;
  }

  lemma LimitDeadly(sections: seq<Section>, id: nat, chain: Chain, env: Env, r: Rule)
    requires id < |sections| && r in OtherDirection(sections[id], id, chain, env) + LimitRules(sections[id], id, chain, env)
    ensures Deadly(sections, env, r)
  {
    assert r.limit.Some? && r.limit.value.id == id;
  }

  /**
   A packet leaves a compiled chain with the death mark if and only if the bandwidth match of some limit
   without throttling says exceeded whose section the packet is declared to be of; otherwise the bits of
   the death mask are clear, whatever they were before.
   */
  lemma BlockedIffExceeded(sections: seq<Section>, chain: Chain, env: Env, p: Packet, m: Marks, hits: seq<bool>)
    requires Sound(env) && |hits| == |Compile(sections, chain, env)|
    ensures Walk(Compile(sections, chain, env), p, m, hits).ct * env.deathMask
         == if Exceeded(sections, chain, env, Compile(sections, chain, env), p, hits) then env.deathMark else {}
  {
    var rules := Compile(sections, chain, env);
    CompilePreservesMeaning(sections, chain, env, p, m, hits);
    BlocksDeadly(sections, Order(sections), chain, env);
    var m1 := Step(rules[0], p, m, hits[0]);
    assert rules[1..] == [Plain(ALWAYS, CLEAR_BOTH)] + Blocks(sections, Order(sections), chain, env) + TAIL;
    ExceededSplit(sections, chain, env, rules, p, hits);
    assert m1.ct * env.deathMask == {};
    DeathWalk(sections, chain, env, rules[1..], p, m1, hits[1..]);
  }
}
