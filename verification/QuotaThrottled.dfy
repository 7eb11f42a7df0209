/**
 What throttling does to a packet, and how it is counted: which mark it leaves a compiled chain with,
 and against which limits it counts.
 */
module QuotaThrottled {
  import opened Words
  import opened Quota
  import opened QuotaEnforced

  /** All rules of a section with a bandwidth match. */
  function OwnRules(s: Section, id: nat, chain: Chain, env: Env): seq<Rule> {
    OtherDirection(s, id, chain, env) + LimitRules(s, id, chain, env)
  }

  lemma LimitInBlock(s: Section, i: nat, chain: Chain, env: Env, r: Rule, id: nat)
    requires r.limit.Some? && r.limit.value.id == id
    ensures r in Block(s, i, chain, env) <==> i == id && r in OwnRules(s, id, chain, env)
  {
    assert r !in Marking(s.target, chain, env) && r !in Cleanup(s.target, chain, env);
    if r in OwnRules(s, i, chain, env) {
      LimitRuleOf(s, i, chain, env, r);
    }
  }

  /** The rules of the chain with a limit of section id are its own rules, if it is enabled. */
  lemma LimitInCompile(sections: seq<Section>, chain: Chain, env: Env, r: Rule, id: nat)
    requires r.limit.Some? && r.limit.value.id == id < |sections|
    ensures r in Compile(sections, chain, env) <==> sections[id].enabled && r in OwnRules(sections[id], id, chain, env)
  {
    var ids := Order(sections);
    InBlocks(sections, ids, chain, env, r);
    InOrder(sections, id);
    forall i | i in ids ensures InBlockOf(sections, i, chain, env, r) <==> i == id && r in OwnRules(sections[id], id, chain, env) {
      LimitInBlock(sections[i], i, chain, env, r, id);
    }
    MemberOfTwo(r, Head(env) + Blocks(sections, ids, chain, env), TAIL);
    MemberOfTwo(r, Head(env), Blocks(sections, ids, chain, env));
  }

  // ----- Which marks a packet can get -----

  /** On the packet's walk some rule with this limit applies that would set the mark. */
  predicate MeetsMark(rules: seq<Rule>, p: Packet, m: Marks, hits: seq<bool>, limit: Limit, mark: Mark)
    requires |hits| == |rules|
  {
    rules != [] &&
    ((rules[0].limit == Some(limit) && rules[0].action == Meta(mark) && Applies(rules[0], p, m.ct))
     || MeetsMark(rules[1..], p, Step(rules[0], p, m, hits[0]), hits[1..], limit, mark))
  }

  predicate WantsMark(sections: seq<Section>, chain: Chain, env: Env, p: Packet, r: Rule, limit: Limit, mark: Mark) {
    WantsAt(sections, chain, env, p, r, limit) && r.action == Meta(mark)
  }

  lemma {:induction false} MeetsMarkIfWanted(sections: seq<Section>, chain: Chain, env: Env, rules: seq<Rule>,
                                             p: Packet, m: Marks, hits: seq<bool>, limit: Limit, mark: Mark)
    requires |hits| == |rules| && Right(sections, chain, env, rules, p, m, hits)
    ensures MeetsMark(rules, p, m, hits, limit, mark)
            <==> exists r :: r in rules && WantsMark(sections, chain, env, p, r, limit, mark)
    decreases |rules|
  {
    if rules != [] {
      var rest, m1 := rules[1..], Step(rules[0], p, m, hits[0]);
      MeetsMarkIfWanted(sections, chain, env, rest, p, m1, hits[1..], limit, mark);
      assert rules == [rules[0]] + rest;
      assert rules[0] in rules;
      assert WantsMark(sections, chain, env, p, rules[0], limit, mark)
             <==> rules[0].limit == Some(limit) && rules[0].action == Meta(mark) && Applies(rules[0], p, m.ct);
      if r :| r in rest && WantsMark(sections, chain, env, p, r, limit, mark) {
        assert r in rules;
      }
      if r :| r in rules && WantsMark(sections, chain, env, p, r, limit, mark) {
        assert r == rules[0] || r in rest;
      }
    }
  }

  /**
   The marks a throttling section has for packets of a chain: the up mark for those that go out, the down
   mark for those that come in, for its limit of that chain and, outside the combined chain, for its limit
   of the opposite direction.
   */
  predicate Throttling(s: Section, chain: Chain, p: Packet, of: Chain, mark: Mark) {
    && s.qos.Some? && of in s.limits
    && var (up, down) := s.qos.value;
       match chain
       case Egress => (of.Egress? || of.Ingress?) && mark == up
       case Ingress => (of.Egress? || of.Ingress?) && mark == down
       case Combined => of.Combined? && ((p.oifWan && mark == up) || (p.iifWan && mark == down))
  }

  lemma SomeThrottles(sections: seq<Section>, chain: Chain, env: Env, p: Packet, id: nat, of: Chain, mark: Mark)
    requires id < |sections|
    ensures (exists r :: r in OwnRules(sections[id], id, chain, env) && WantsMark(sections, chain, env, p, r, Limit(id, of), mark))
            <==> && Throttling(sections[id], chain, p, of, mark)
                 && FoundIp4(sections[id].target) && Declared(sections, id, chain, env, p)
  {
    var s := sections[id];
    if Throttling(s, chain, p, of, mark) && FoundIp4(s.target) && Declared(sections, id, chain, env, p) {
      var r := ThrottlingRule(sections, chain, env, p, id, of, mark);
    }
    forall r | r in OwnRules(s, id, chain, env) && WantsMark(sections, chain, env, p, r, Limit(id, of), mark)
      ensures Throttling(s, chain, p, of, mark) && FoundIp4(s.target) && Declared(sections, id, chain, env, p)
    {
      OwnRuleThrottles(sections, chain, env, p, id, of, mark, r);
    }
  }

  lemma OwnRuleThrottles(sections: seq<Section>, chain: Chain, env: Env, p: Packet, id: nat, of: Chain, mark: Mark, r: Rule)
    requires id < |sections| && r in OwnRules(sections[id], id, chain, env)
    requires WantsMark(sections, chain, env, p, r, Limit(id, of), mark)
    ensures Throttling(sections[id], chain, p, of, mark)
    ensures FoundIp4(sections[id].target) && Declared(sections, id, chain, env, p)
  {
    var s := sections[id];
    if r in OtherDirection(s, id, chain, env) {
    } else if r in Bandwidth(s, id, chain, env, IpTest(s.target, chain, env)) {
    } else {
      assert r in Bandwidth(s, id, chain, env, Ip6Test(s.target, chain, env));
    }
  }

  /** The rule that does it. */
  lemma ThrottlingRule(sections: seq<Section>, chain: Chain, env: Env, p: Packet, id: nat, of: Chain, mark: Mark)
    returns (r: Rule)
    requires id < |sections| && Throttling(sections[id], chain, p, of, mark)
    requires FoundIp4(sections[id].target) && Declared(sections, id, chain, env, p)
    ensures r in OwnRules(sections[id], id, chain, env) && WantsMark(sections, chain, env, p, r, Limit(id, of), mark)
  {
    var s := sections[id];
    var t := s.target;
    var six := t.OthersIndividual? && !chain.Combined? && p.v6;
    var test := if six then Ip6Test(t, chain, env) else IpTest(t, chain, env);
    if of != chain {
      r := Limiting(test, id, of, CheckingSwapped, Meta(mark));
      assert r in OtherDirection(s, id, chain, env);
    } else {
      var rules := Bandwidth(s, id, chain, env, test);
      if chain.Combined? {
        r := if p.oifWan && mark == s.qos.value.0 then rules[1] else rules[2];
      } else {
        r := rules[0];
      }
      assert r in rules && r in LimitRules(s, id, chain, env);
    }
  }

  /**
   Every throttling quota is enforced with the right mark: on the walk of any packet through a compiled
   chain, a rule that would set the mark for the limit is met if and only if the section is enabled, has
   that mark for that limit and packet, is not of IPv6 addresses only, and has the packet.
   */
  lemma ThrottleIsEnforced(sections: seq<Section>, chain: Chain, env: Env, p: Packet, m: Marks, hits: seq<bool>,
                           id: nat, of: Chain, mark: Mark)
    requires Sound(env) && |hits| == |Compile(sections, chain, env)| && id < |sections|
    ensures MeetsMark(Compile(sections, chain, env), p, m, hits, Limit(id, of), mark)
            <==> && sections[id].enabled && Throttling(sections[id], chain, p, of, mark)
                 && FoundIp4(sections[id].target) && Declared(sections, id, chain, env, p)
  {
    var rules, limit := Compile(sections, chain, env), Limit(id, of);
    CompilePreservesMeaning(sections, chain, env, p, m, hits);
    MeetsMarkIfWanted(sections, chain, env, rules, p, m, hits, limit, mark);
    SomeThrottles(sections, chain, env, p, id, of, mark);
    forall r: Rule | r.limit == Some(limit)
      ensures r in rules <==> sections[id].enabled && r in OwnRules(sections[id], id, chain, env)
    {
      LimitInCompile(sections, chain, env, r, id);
    }
  }

  // ----- The mark it leaves with -----

  /** Up for what goes out, down for what comes in. */
  function ThrottleMark(s: Section, chain: Chain, r: Rule): Mark
    requires s.qos.Some?
  {
    if chain.Egress? || (chain.Combined? && r.oifWan) then s.qos.value.0 else s.qos.value.1
  }

  /** The rule belongs to a throttling section; in the combined chain, it is not the one that only counts. */
  predicate IsMarking(sections: seq<Section>, chain: Chain, r: Rule) {
    && r.limit.Some? && r.limit.value.id < |sections| && sections[r.limit.value.id].qos.Some?
    && (chain.Combined? ==> r.iifWan || r.oifWan)
  }

  /** Exactly such rules set a meta mark, and the right one. */
  predicate MarksRight(sections: seq<Section>, chain: Chain, r: Rule) {
    && (r.action.Meta? <==> IsMarking(sections, chain, r))
    && (IsMarking(sections, chain, r) ==> r.action == Meta(ThrottleMark(sections[r.limit.value.id], chain, r)))
  }

  /** Rule i of the walk is one of them, has the packet, and its limit is exceeded. */
  predicate Throttles(sections: seq<Section>, chain: Chain, env: Env, rules: seq<Rule>, p: Packet, hits: seq<bool>, i: nat)
    requires |hits| == |rules|
  {
    i < |rules| && hits[i] && IsMarking(sections, chain, rules[i]) && Wanted(sections, chain, env, p, rules[i])
  }

  /** The mark of the last of them, or the one the packet came with. */
  ghost predicate IsMetaMark(sections: seq<Section>, chain: Chain, env: Env, rules: seq<Rule>, p: Packet, hits: seq<bool>,
                             before: Mark, after: Mark)
    requires |hits| == |rules|
  {
    && ((forall i :: 0 <= i < |rules| ==> !Throttles(sections, chain, env, rules, p, hits, i)) ==> after == before)
    && forall i :: 0 <= i < |rules| && Throttles(sections, chain, env, rules, p, hits, i)
                   && (forall j :: i < j < |rules| ==> !Throttles(sections, chain, env, rules, p, hits, j))
                   ==> after == ThrottleMark(sections[rules[i].limit.value.id], chain, rules[i])
  }

  lemma MetaStep(sections: seq<Section>, chain: Chain, env: Env, r: Rule, p: Packet, m: Marks, hit: bool)
    requires MarksRight(sections, chain, r)
    requires r.limit.Some? ==> r.limit.value.id < |sections| && (Applies(r, p, m.ct) <==> Wanted(sections, chain, env, p, r))
    ensures Step(r, p, m, hit).meta
         == if hit && IsMarking(sections, chain, r) && Wanted(sections, chain, env, p, r)
            then ThrottleMark(sections[r.limit.value.id], chain, r) else m.meta
  {}

  lemma LaterThrottles(sections: seq<Section>, chain: Chain, env: Env, rules: seq<Rule>, p: Packet, hits: seq<bool>)
    requires |hits| == |rules| > 0
    ensures forall i :: 0 < i < |rules| ==>
              (Throttles(sections, chain, env, rules, p, hits, i) <==> Throttles(sections, chain, env, rules[1..], p, hits[1..], i - 1))
    ensures forall i :: 0 <= i < |rules| - 1 ==>
              (Throttles(sections, chain, env, rules[1..], p, hits[1..], i) <==> Throttles(sections, chain, env, rules, p, hits, i + 1))
  {}

  lemma {:induction false} MetaWalk(sections: seq<Section>, chain: Chain, env: Env, rules: seq<Rule>,
                                    p: Packet, m: Marks, hits: seq<bool>)
    requires |hits| == |rules| && Right(sections, chain, env, rules, p, m, hits)
    requires forall r :: r in rules ==> MarksRight(sections, chain, r)
    ensures IsMetaMark(sections, chain, env, rules, p, hits, m.meta, Walk(rules, p, m, hits).meta)
    decreases |rules|
  {
    if rules != [] {
      assert rules[0] in rules;
      var m1 := Step(rules[0], p, m, hits[0]);
      MetaStep(sections, chain, env, rules[0], p, m, hits[0]);
      MetaWalk(sections, chain, env, rules[1..], p, m1, hits[1..]);
      MetaJoin(sections, chain, env, rules, p, hits, m.meta, m1.meta, Walk(rules, p, m, hits).meta);
    }
  }

  lemma MetaJoin(sections: seq<Section>, chain: Chain, env: Env, rules: seq<Rule>, p: Packet, hits: seq<bool>,
                 before: Mark, mid: Mark, after: Mark)
    requires |hits| == |rules| > 0
    requires IsMetaMark(sections, chain, env, rules[1..], p, hits[1..], mid, after)
    requires mid == if Throttles(sections, chain, env, rules, p, hits, 0)
                    then ThrottleMark(sections[rules[0].limit.value.id], chain, rules[0]) else before
    ensures IsMetaMark(sections, chain, env, rules, p, hits, before, after)
  {
    LaterThrottles(sections, chain, env, rules, p, hits);
    forall i | 0 <= i < |rules| && Throttles(sections, chain, env, rules, p, hits, i)
               && forall j :: i < j < |rules| ==> !Throttles(sections, chain, env, rules, p, hits, j)
      ensures after == ThrottleMark(sections[rules[i].limit.value.id], chain, rules[i])
    {
      if i > 0 {
        assert rules[1..][i - 1] == rules[i];
        assert Throttles(sections, chain, env, rules[1..], p, hits[1..], i - 1);
      }
    }
  }

  lemma BlockMarksRight(sections: seq<Section>, id: nat, chain: Chain, env: Env)
    requires id < |sections|
    ensures forall r :: r in Block(sections[id], id, chain, env) ==> MarksRight(sections, chain, r)
  {
    var s := sections[id];
    forall r | r in Block(s, id, chain, env) ensures MarksRight(sections, chain, r) {
      if r in Marking(s.target, chain, env) {
        PlainMarks(s.target, chain, env, r);
      } else if r in OwnRules(s, id, chain, env) {
        OwnMarksRight(sections, id, chain, env, r);
      } else {
        assert r in Cleanup(s.target, chain, env);
      }
    }
  }

  lemma PlainMarks(t: Target, chain: Chain, env: Env, r: Rule)
    requires r in Marking(t, chain, env)
    ensures r.limit.None? && r.action.Ct?
  {
    assert r.action == SET_HERE || r.action == SET_SEEN;
  }

  lemma OwnMarksRight(sections: seq<Section>, id: nat, chain: Chain, env: Env, r: Rule)
    requires id < |sections| && r in OwnRules(sections[id], id, chain, env)
    ensures MarksRight(sections, chain, r)
  {
    var s := sections[id];
    if r in OtherDirection(s, id, chain, env) {
    } else if r in Bandwidth(s, id, chain, env, IpTest(s.target, chain, env)) {
    } else {
      assert r in Bandwidth(s, id, chain, env, Ip6Test(s.target, chain, env));
    }
  }

  lemma {:induction false} BlocksMarkRight(sections: seq<Section>, ids: seq<nat>, chain: Chain, env: Env)
    requires forall k :: 0 <= k < |ids| ==> ids[k] < |sections|
    ensures forall r :: r in Blocks(sections, ids, chain, env) ==> MarksRight(sections, chain, r)
    decreases |ids|
  {
    if ids != [] {
      var n := |ids| - 1;
      BlocksMarkRight(sections, ids[..n], chain, env);
      BlockMarksRight(sections, ids[n], chain, env);
    }
  }

  lemma CompileMarksRight(sections: seq<Section>, chain: Chain, env: Env)
    ensures forall r :: r in Compile(sections, chain, env) ==> MarksRight(sections, chain, r)
  {
    var body := Blocks(sections, Order(sections), chain, env);
    BlocksMarkRight(sections, Order(sections), chain, env);
    forall r | r in Compile(sections, chain, env) ensures MarksRight(sections, chain, r) {
      MemberOfTwo(r, Head(env) + body, TAIL);
      MemberOfTwo(r, Head(env), body);
    }
  }

  /**
   A packet leaves a compiled chain with the meta mark of the last throttling limit that has it and is
   exceeded, or with the one it came with: up for packets that go out, down for those that come in.
   */
  lemma ThrottledByLast(sections: seq<Section>, chain: Chain, env: Env, p: Packet, m: Marks, hits: seq<bool>)
    requires Sound(env) && |hits| == |Compile(sections, chain, env)|
    ensures IsMetaMark(sections, chain, env, Compile(sections, chain, env), p, hits, m.meta,
                       Walk(Compile(sections, chain, env), p, m, hits).meta)
  {
    CompilePreservesMeaning(sections, chain, env, p, m, hits);
    CompileMarksRight(sections, chain, env);
    MetaWalk(sections, chain, env, Compile(sections, chain, env), p, m, hits);
  }
}
