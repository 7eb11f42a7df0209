/**
 The quota compiler of restore_quotas: quota sections in, nftables rules for the three
 mangle quota chains out, an interpreter for such rules, and the proof that the emitted
 rules mean what the sections say.
 */
module Quota {
  import opened Words

  /** The three chains, in the order of type_index. */
  datatype Chain = Ingress | Egress | Combined

  type AddrSet = set<int>

  /** A 32-bit mark as the set of the numbers of its one bits: & is *, | is +, and 0 is {}. */
  type Mark = set<nat>

  /** The ip option of a quota section; v4 and v6 are the addresses it lists of each family. */
  datatype Target =
    | All
    | OthersCombined
    | OthersIndividual
    | Single(v6: bool, addrs: AddrSet)
    | Several(v4s: AddrSet, v6s: AddrSet)
  {
    predicate Others() {
      OthersCombined? || OthersIndividual?
    }

    predicate Explicit() {
      Single? || Several?
    }
  }

  /** A quota section: which of the three limits it has and, for throttling quotas, its two marks. */
  datatype Section = Section(target: Target, enabled: bool, limits: set<Chain>, qos: Option<(Mark, Mark)>)

  /** The command line: subnets of the local network, death mark and mask. */
  datatype Env = Env(subnet: AddrSet, subnet6: AddrSet, deathMark: Mark, deathMask: Mark)

  // ----- Rules -----

  datatype AddrTest = AddrTest(v6: bool, source: bool, addrs: AddrSet)
  datatype MarkTest = MarkTest(mask: Mark, value: Mark)
  datatype Test = Test(addr: Option<AddrTest>, mark: Option<MarkTest>)

  /** Ct: ct mark set ct mark & (all but clear) | put. Meta: meta mark set value. */
  datatype Action = Ct(clear: Mark, put: Mark) | Meta(value: Mark) | NoAction

  /** One of the limits of a section, by the chain it belongs to. */
  datatype Limit = Limit(id: nat, of: Chain)

  /**
   How a bandwidth match uses the counter of its limit: it counts the packet and compares, or it only
   compares (bcheck), or it compares for the packet with its addresses swapped (bcheck-with-src-dst-swap).
   */
  datatype Check = Counting | Checking | CheckingSwapped

  /** `limit` is the limit whose bandwidth (and time) match the rule carries, and how. */
  datatype Rule = Rule(iifWan: bool, oifWan: bool, test: Test, limit: Option<Limit>, check: Check, action: Action)

  const ALWAYS := Test(None, None)

  const HERE: Mark := {24, 25, 26, 27}    // 0x0F000000: the packet is one of the quota at hand
  const SEEN: Mark := {28, 29, 30, 31}    // 0xF0000000: some explicit quota has matched it

  const SET_HERE := Ct(HERE, HERE)
  const CLEAR_HERE := Ct(HERE, {})
  const SET_SEEN := Ct(SEEN, SEEN)
  const CLEAR_BOTH := Ct(HERE + SEEN, {})

  const IS_HERE := Test(None, Some(MarkTest(HERE, HERE)))
  const NOT_SEEN := MarkTest(SEEN, {})

  function Plain(test: Test, action: Action): Rule {
    Rule(false, false, test, None, Checking, action)
  }

  // ----- Emission -----

  /** The rules that mark packets with an address in addrs, per chain. */
  function MarkAddrs(chain: Chain, v6: bool, addrs: AddrSet): seq<Rule> {
    var from := Test(Some(AddrTest(v6, true, addrs)), None);
    var to := Test(Some(AddrTest(v6, false, addrs)), None);
    match chain
    case Egress => [Plain(from, SET_HERE)]
    case Ingress => [Plain(to, SET_HERE)]
    case Combined => [Plain(to, SET_HERE).(iifWan := true), Plain(from, SET_HERE).(oifWan := true)]
  }

  /** ip_test: how the limit rule of a section recognises its packets. */
  function IpTest(t: Target, chain: Chain, env: Env): Test {
    match t
    case All => ALWAYS
    case OthersCombined => Test(None, Some(NOT_SEEN))
    case OthersIndividual =>
      if chain.Combined? then Test(None, Some(NOT_SEEN))
      else Test(Some(AddrTest(false, chain.Egress?, env.subnet)), Some(NOT_SEEN))
    case Single(v6, addrs) =>
      if chain.Combined? then IS_HERE else Test(Some(AddrTest(v6, chain.Egress?, addrs)), None)
    case Several(_, _) => IS_HERE
  }

  /** ip6_test, which is ip_test except for ALL_OTHERS_INDIVIDUAL. */
  function Ip6Test(t: Target, chain: Chain, env: Env): Test {
    if t.OthersIndividual? && !chain.Combined?
    then Test(Some(AddrTest(true, chain.Egress?, env.subnet6)), Some(NOT_SEEN))
    else IpTest(t, chain, env)
  }

  /** A list with no address of a family gets no rule for that family. */
  function FindFamily(chain: Chain, v6: bool, addrs: AddrSet): seq<Rule> {
    if addrs != {} then MarkAddrs(chain, v6, addrs) else []
  }

  /** The rules that find out whether the packet is one of an explicit quota. */
  function Finding(t: Target, chain: Chain): seq<Rule> {
    match t
    case Single(v6, addrs) => if chain.Combined? then MarkAddrs(chain, v6, addrs) else []
    case Several(v4s, v6s) => FindFamily(chain, false, v4s) + FindFamily(chain, true, v6s)
    case _ => []
  }

  /** The rules that come before any limit: they end by recording that an explicit quota matched. */
  function Marking(t: Target, chain: Chain, env: Env): seq<Rule> {
    if t.Explicit() then Finding(t, chain) + [Plain(IpTest(t, chain, env), SET_SEEN)] else []
  }

  predicate FoundIp4(t: Target) {
    match t
    case Single(v6, _) => !v6
    case Several(v4s, _) => v4s != {}
    case _ => true
  }

  predicate FoundIp6(t: Target) {
    match t
    case Single(v6, _) => v6
    case Several(_, v6s) => v6s != {}
    case _ => true
  }

  /** ip6_test is used only where it says something else than ip_test. */
  predicate TwoTests(t: Target, chain: Chain, env: Env) {
    FoundIp6(t) && IpTest(t, chain, env) != Ip6Test(t, chain, env)
  }

  function Limiting(test: Test, id: nat, of: Chain, check: Check, action: Action): Rule {
    Rule(false, false, test, Some(Limit(id, of)), check, action)
  }

  function Opposite(chain: Chain): Chain {
    if chain.Egress? then Ingress else Egress
  }

  /** With throttling, the limit of the opposite direction is checked as well. */
  function OtherDirection(s: Section, id: nat, chain: Chain, env: Env): seq<Rule> {
    if s.qos.None? || chain.Combined? || Opposite(chain) !in s.limits then []
    else
      var mark := if chain.Egress? then s.qos.value.0 else s.qos.value.1;
      (if FoundIp4(s.target) then [Limiting(IpTest(s.target, chain, env), id, Opposite(chain), CheckingSwapped, Meta(mark))] else [])
      + (if TwoTests(s.target, chain, env)
         then [Limiting(Ip6Test(s.target, chain, env), id, Opposite(chain), CheckingSwapped, Meta(mark))] else [])
  }

  /** The limit itself, for one address test: throttle by a meta mark, or block by the death mark. */
  function Bandwidth(s: Section, id: nat, chain: Chain, env: Env, test: Test): seq<Rule> {
    if s.qos.None? then [Limiting(test, id, chain, Counting, Ct(env.deathMask, env.deathMark))]
    else if chain.Egress? then [Limiting(test, id, chain, Counting, Meta(s.qos.value.0))]
    else if chain.Ingress? then [Limiting(test, id, chain, Counting, Meta(s.qos.value.1))]
    else [Limiting(test, id, chain, Counting, NoAction),
          Limiting(test, id, chain, Checking, Meta(s.qos.value.0)).(oifWan := true),
          Limiting(test, id, chain, CheckingSwapped, Meta(s.qos.value.1)).(iifWan := true)]
  }

  function LimitRules(s: Section, id: nat, chain: Chain, env: Env): seq<Rule> {
    if chain !in s.limits then []
    else
      (if FoundIp4(s.target) then Bandwidth(s, id, chain, env, IpTest(s.target, chain, env)) else [])
      + (if TwoTests(s.target, chain, env) then Bandwidth(s, id, chain, env, Ip6Test(s.target, chain, env)) else [])
  }

  function Cleanup(t: Target, chain: Chain, env: Env): seq<Rule> {
    if IpTest(t, chain, env).mark.Some? then [Plain(ALWAYS, CLEAR_HERE)] else []
  }

  /** All rules one section adds to a chain. */
  function Block(s: Section, id: nat, chain: Chain, env: Env): seq<Rule> {
    Marking(s.target, chain, env)
    + ((OtherDirection(s, id, chain, env) + LimitRules(s, id, chain, env)) + Cleanup(s.target, chain, env))
  }

  function Head(env: Env): seq<Rule> {
    [Plain(ALWAYS, Ct(env.deathMask, {})), Plain(ALWAYS, CLEAR_BOTH)]
  }

  const TAIL := [Plain(ALWAYS, CLEAR_BOTH)]

  // ----- Order of the sections -----

  /** Sections from i on that are enabled, those for all others only or those not. */
  function Pick(sections: seq<Section>, others: bool, i: nat): (ids: seq<nat>)
    requires i <= |sections|
    ensures forall k :: 0 <= k < |ids| ==>
      i <= ids[k] < |sections| && sections[ids[k]].enabled && sections[ids[k]].target.Others() == others
    decreases |sections| - i
  {
    if i == |sections| then []
    else
      (if sections[i].enabled && sections[i].target.Others() == others then [i] else [])
      + Pick(sections, others, i + 1)
  }

  function Blocks(sections: seq<Section>, ids: seq<nat>, chain: Chain, env: Env): seq<Rule>
    requires forall k :: 0 <= k < |ids| ==> ids[k] < |sections|
  {
    if ids == [] then []
    else
      var n := |ids| - 1;
      Blocks(sections, ids[..n], chain, env) + Block(sections[ids[n]], ids[n], chain, env)
  }

  /** ALL_OTHERS sections are put off until all the others have been processed. */
  function Order(sections: seq<Section>): (ids: seq<nat>)
    ensures forall k :: 0 <= k < |ids| ==> ids[k] < |sections|
  {
    Pick(sections, false, 0) + Pick(sections, true, 0)
  }

  /** A whole mangle quota chain, up to the quality-of-service rules at the very end. */
  function Compile(sections: seq<Section>, chain: Chain, env: Env): seq<Rule> {
    Head(env) + Blocks(sections, Order(sections), chain, env) + TAIL
  }

  // ----- What rules do to a packet -----

  /** A packet of the wide-area interface, with the interfaces it comes in and goes out by. */
  datatype Packet = Packet(v6: bool, src: int, dst: int, iifWan: bool, oifWan: bool)

  datatype Marks = Marks(ct: Mark, meta: Mark)

  predicate InterfaceOk(r: Rule, p: Packet) {
    (r.iifWan ==> p.iifWan) && (r.oifWan ==> p.oifWan)
  }

  predicate AddrOk(a: Option<AddrTest>, p: Packet) {
    a.Some? ==> p.v6 == a.value.v6 && (if a.value.source then p.src else p.dst) in a.value.addrs
  }

  predicate MarkOk(t: Option<MarkTest>, ct: Mark) {
    t.Some? ==> ct * t.value.mask == t.value.value
  }

  /** All matches of the rule but the bandwidth and time ones. */
  predicate Applies(r: Rule, p: Packet, ct: Mark) {
    InterfaceOk(r, p) && AddrOk(r.test.addr, p) && MarkOk(r.test.mark, ct)
  }

  /** `hit` is the outcome of the rule's bandwidth and time match, if it comes to that. */
  function Step(r: Rule, p: Packet, m: Marks, hit: bool): Marks {
    if !Applies(r, p, m.ct) || (r.limit.Some? && !hit) then m
    else match r.action
      case Ct(clear, put) => m.(ct := m.ct - clear + put)
      case Meta(value) => m.(meta := value)
      case NoAction => m
  }

  function Walk(rules: seq<Rule>, p: Packet, m: Marks, hits: seq<bool>): Marks
    requires |hits| == |rules|
  {
    if rules == [] then m else Walk(rules[1..], p, Step(rules[0], p, m, hits[0]), hits[1..])
  }

  // ----- What the sections mean -----

  predicate Belongs(t: Target, p: Packet, addr: int) {
    match t
    case Single(v6, addrs) => p.v6 == v6 && addr in addrs
    case Several(v4s, v6s) => if p.v6 then addr in v6s else addr in v4s
    case _ => false
  }

  /** The packet is one of an explicit quota's own, in the direction of the chain. */
  predicate InSet(t: Target, chain: Chain, p: Packet) {
    match chain
    case Ingress => Belongs(t, p, p.dst)
    case Egress => Belongs(t, p, p.src)
    case Combined => (p.iifWan && Belongs(t, p, p.dst)) || (p.oifWan && Belongs(t, p, p.src))
  }

  /** Some enabled explicit quota has the packet. */
  predicate Claimed(sections: seq<Section>, chain: Chain, p: Packet) {
    exists i :: 0 <= i < |sections| && sections[i].enabled && sections[i].target.Explicit()
                && InSet(sections[i].target, chain, p)
  }

  /** The local address of a packet in one direction, as ALL_OTHERS_INDIVIDUAL looks for it. */
  predicate Local(chain: Chain, env: Env, p: Packet) {
    (if chain.Egress? then p.src else p.dst) in (if p.v6 then env.subnet6 else env.subnet)
  }

  /** The packet is declared to be one of section id, by the sections and the subnets alone. */
  predicate Declared(sections: seq<Section>, id: nat, chain: Chain, env: Env, p: Packet)
    requires id < |sections|
  {
    match sections[id].target
    case All => true
    case OthersCombined => !Claimed(sections, chain, p)
    case OthersIndividual => !Claimed(sections, chain, p) && (chain.Combined? || Local(chain, env, p))
    case _ => InSet(sections[id].target, chain, p)
  }

  /** When the limit rule r should apply to p; of two rules for ALL_OTHERS_INDIVIDUAL each has its family. */
  predicate Wanted(sections: seq<Section>, chain: Chain, env: Env, p: Packet, r: Rule)
    requires r.limit.Some? && r.limit.value.id < |sections|
  {
    && InterfaceOk(r, p)
    && Declared(sections, r.limit.value.id, chain, env, p)
    && (sections[r.limit.value.id].target.OthersIndividual? && r.test.addr.Some? ==> p.v6 == r.test.addr.value.v6)
  }

  /** On the packet's walk, every limit rule applies exactly when it is wanted. */
  predicate Right(sections: seq<Section>, chain: Chain, env: Env, rules: seq<Rule>, p: Packet, m: Marks, hits: seq<bool>)
    requires |hits| == |rules|
  {
    rules == [] ||
    (&& (rules[0].limit.Some? ==>
           rules[0].limit.value.id < |sections| && (Applies(rules[0], p, m.ct) <==> Wanted(sections, chain, env, p, rules[0])))
     && Right(sections, chain, env, rules[1..], p, Step(rules[0], p, m, hits[0]), hits[1..]))
  }

  lemma {:induction false} WalkConcat(sections: seq<Section>, chain: Chain, env: Env, a: seq<Rule>, b: seq<Rule>, p: Packet, m: Marks, hits: seq<bool>)
    requires |hits| == |a| + |b|
    ensures Walk(a + b, p, m, hits) == Walk(b, p, Walk(a, p, m, hits[..|a|]), hits[|a|..])
    ensures Right(sections, chain, env, a + b, p, m, hits) <==>
              && Right(sections, chain, env, a, p, m, hits[..|a|])
              && Right(sections, chain, env, b, p, Walk(a, p, m, hits[..|a|]), hits[|a|..])
    decreases |a|
  {
    if a == [] {
      assert a + b == b && hits[0..] == hits;
    } else {
      assert (a + b)[1..] == a[1..] + b;
      assert hits[1..][..|a| - 1] == hits[..|a|][1..] && hits[1..][|a| - 1..] == hits[|a|..];
      WalkConcat(sections, chain, env, a[1..], b, p, Step(a[0], p, m, hits[0]), hits[1..]);
    }
  }

  // ----- The two groups of mark bits -----

  predicate Bits(ct: Mark, here: bool, seen: bool) {
    && ct * HERE == (if here then HERE else {})
    && ct * SEEN == (if seen then SEEN else {})
  }

  /** The death mark keeps clear of both groups. */
  predicate Sound(env: Env) {
    env.deathMask !! HERE + SEEN && env.deathMark <= env.deathMask
  }

  /** What a mark test says about the two groups. */
  predicate Says(t: Option<MarkTest>, here: bool, seen: bool) {
    && (t == IS_HERE.mark ==> here)
    && (t == Some(NOT_SEEN) ==> !seen)
  }

  predicate Known(t: Option<MarkTest>) {
    t.None? || t == IS_HERE.mark || t == Some(NOT_SEEN)
  }

  lemma TestBits(t: Option<MarkTest>, ct: Mark, here: bool, seen: bool)
    requires Known(t) && Bits(ct, here, seen)
    ensures MarkOk(t, ct) <==> Says(t, here, seen)
  {}

  // ----- Walking the block of one section -----

  /** What the actions in use do to the two groups of bits. */
  datatype Effect = ToHere | NotHere | ToSeen | Wipe | Nothing

  predicate Does(a: Action, e: Effect) {
    match e
    case ToHere => a == SET_HERE
    case NotHere => a == CLEAR_HERE
    case ToSeen => a == SET_SEEN
    case Wipe => a == CLEAR_BOTH
    case Nothing => a.Ct? ==> a.clear !! HERE + SEEN && a.put <= a.clear
  }

  function HereAfter(e: Effect, here: bool): bool {
    match e case ToHere => true case NotHere => false case Wipe => false case _ => here
  }

  function SeenAfter(e: Effect, seen: bool): bool {
    match e case ToSeen => true case Wipe => false case _ => seen
  }

  predicate Matched(r: Rule, p: Packet, here: bool, seen: bool) {
    InterfaceOk(r, p) && AddrOk(r.test.addr, p) && Says(r.test.mark, here, seen)
  }

  lemma ActionBits(a: Action, e: Effect, ct: Mark, here: bool, seen: bool)
    requires Does(a, e) && Bits(ct, here, seen) && a.Ct?
    ensures Bits(ct - a.clear + a.put, HereAfter(e, here), SeenAfter(e, seen))
  {
    assert HERE !! SEEN;
  }

  /** One rule, on the two groups of bits. */
  lemma StepBits(r: Rule, e: Effect, p: Packet, m: Marks, hit: bool, here: bool, seen: bool)
    requires Does(r.action, e) && Known(r.test.mark) && Bits(m.ct, here, seen)
    ensures Applies(r, p, m.ct) <==> Matched(r, p, here, seen)
    ensures var fires := Matched(r, p, here, seen) && (r.limit.Some? ==> hit);
            Bits(Step(r, p, m, hit).ct, if fires then HereAfter(e, here) else here,
                                        if fires then SeenAfter(e, seen) else seen)
  {
    TestBits(r.test.mark, m.ct, here, seen);
    if r.action.Ct? {
      ActionBits(r.action, e, m.ct, here, seen);
    } else {
      assert e.Nothing?;
    }
  }

  /** A limit rule that touches neither group and matches exactly when it is wanted. */
  predicate GoodLimit(sections: seq<Section>, chain: Chain, env: Env, r: Rule, p: Packet, here: bool, seen: bool) {
    && r.limit.Some? && r.limit.value.id < |sections| && Known(r.test.mark)
    && Does(r.action, Nothing)
    && (Matched(r, p, here, seen) <==> Wanted(sections, chain, env, p, r))
  }

  lemma {:induction false} LimitsWalk(sections: seq<Section>, chain: Chain, env: Env, rules: seq<Rule>,
                                      p: Packet, m: Marks, hits: seq<bool>, here: bool, seen: bool)
    requires |hits| == |rules| && Sound(env) && Bits(m.ct, here, seen)
    requires forall r :: r in rules ==> GoodLimit(sections, chain, env, r, p, here, seen)
    ensures Right(sections, chain, env, rules, p, m, hits)
    ensures Bits(Walk(rules, p, m, hits).ct, here, seen)
    decreases |rules|
  {
    if rules != [] {
      assert GoodLimit(sections, chain, env, rules[0], p, here, seen);
      StepBits(rules[0], Nothing, p, m, hits[0], here, seen);
      LimitsWalk(sections, chain, env, rules[1..], p, Step(rules[0], p, m, hits[0]), hits[1..], here, seen);
    }
  }

  /** The walk ends with these bits, and every limit rule on it applied when wanted. */
  predicate Goes(sections: seq<Section>, chain: Chain, env: Env, rules: seq<Rule>, p: Packet, m: Marks, hits: seq<bool>,
                 here: bool, seen: bool)
    requires |hits| == |rules|
  {
    Right(sections, chain, env, rules, p, m, hits) && Bits(Walk(rules, p, m, hits).ct, here, seen)
  }

  lemma GoesOn(sections: seq<Section>, chain: Chain, env: Env, a: seq<Rule>, b: seq<Rule>, p: Packet, m: Marks, hits: seq<bool>,
               here: bool, seen: bool)
    requires |hits| == |a| + |b| && Right(sections, chain, env, a, p, m, hits[..|a|])
    requires Goes(sections, chain, env, b, p, Walk(a, p, m, hits[..|a|]), hits[|a|..], here, seen)
    ensures Goes(sections, chain, env, a + b, p, m, hits, here, seen)
  {
    WalkConcat(sections, chain, env, a, b, p, m, hits);
  }

  /** A single rule without a limit. */
  lemma OneRule(sections: seq<Section>, chain: Chain, env: Env, r: Rule, e: Effect, p: Packet, m: Marks, hits: seq<bool>,
                here: bool, seen: bool)
    requires |hits| == 1 && r.limit.None? && Does(r.action, e) && Known(r.test.mark) && Bits(m.ct, here, seen)
    ensures var fires := Matched(r, p, here, seen);
            Goes(sections, chain, env, [r], p, m, hits, if fires then HereAfter(e, here) else here,
                                                   if fires then SeenAfter(e, seen) else seen)
  {
    StepBits(r, e, p, m, hits[0], here, seen);
    assert Walk([r], p, m, hits) == Walk([r][1..], p, Step(r, p, m, hits[0]), hits[1..]);
  }

  lemma MarkAddrsWalk(sections: seq<Section>, chain: Chain, env: Env, v6: bool, addrs: AddrSet, p: Packet, m: Marks,
                      hits: seq<bool>, here: bool, seen: bool)
    requires |hits| == |MarkAddrs(chain, v6, addrs)| && Bits(m.ct, here, seen)
    ensures Goes(sections, chain, env, MarkAddrs(chain, v6, addrs), p, m, hits,
                 here || InSet(Single(v6, addrs), chain, p), seen)
  {
    var rules := MarkAddrs(chain, v6, addrs);
    if chain.Combined? {
      var here1 := here || (p.iifWan && Belongs(Single(v6, addrs), p, p.dst));
      OneRule(sections, chain, env, rules[0], ToHere, p, m, hits[..1], here, seen);
      OneRule(sections, chain, env, rules[1], ToHere, p, Walk([rules[0]], p, m, hits[..1]), hits[1..], here1, seen);
      GoesOn(sections, chain, env, [rules[0]], [rules[1]], p, m, hits, here1 || InSet(Single(v6, addrs), chain, p), seen);
      assert rules == [rules[0]] + [rules[1]];
    } else {
      OneRule(sections, chain, env, rules[0], ToHere, p, m, hits, here, seen);
      assert rules == [rules[0]];
    }
  }

  /** Whether HERE is set for p when the limit rules of t are reached. */
  predicate FoundHere(t: Target, chain: Chain, p: Packet) {
    t.Explicit() && (t.Several? || chain.Combined?) && InSet(t, chain, p)
  }

  lemma FindingWalk(sections: seq<Section>, chain: Chain, env: Env, t: Target, p: Packet, m: Marks, hits: seq<bool>, seen: bool)
    requires |hits| == |Finding(t, chain)| && Bits(m.ct, false, seen)
    ensures Goes(sections, chain, env, Finding(t, chain), p, m, hits, FoundHere(t, chain, p), seen)
  {
    match t
    case Single(v6, addrs) =>
      if chain.Combined? {
        MarkAddrsWalk(sections, chain, env, v6, addrs, p, m, hits, false, seen);
      }
    case Several(v4s, v6s) =>
      var a, b := FindFamily(chain, false, v4s), FindFamily(chain, true, v6s);
      var here := InSet(Single(false, v4s), chain, p);
      FamilyWalk(sections, chain, env, false, v4s, p, m, hits[..|a|], false, seen);
      FamilyWalk(sections, chain, env, true, v6s, p, Walk(a, p, m, hits[..|a|]), hits[|a|..], here, seen);
      GoesOn(sections, chain, env, a, b, p, m, hits, here || InSet(Single(true, v6s), chain, p), seen);
      EitherFamily(t, chain, p);
    case _ =>
  }

  lemma EitherFamily(t: Target, chain: Chain, p: Packet)
    requires t.Several?
    ensures FoundHere(t, chain, p) <==> InSet(Single(false, t.v4s), chain, p) || InSet(Single(true, t.v6s), chain, p)
  {}

  lemma FamilyWalk(sections: seq<Section>, chain: Chain, env: Env, v6: bool, addrs: AddrSet, p: Packet, m: Marks,
                   hits: seq<bool>, here: bool, seen: bool)
    requires |hits| == |FindFamily(chain, v6, addrs)| && Bits(m.ct, here, seen)
    ensures Goes(sections, chain, env, FindFamily(chain, v6, addrs), p, m, hits,
                 here || InSet(Single(v6, addrs), chain, p), seen)
  {
    if addrs != {} {
      MarkAddrsWalk(sections, chain, env, v6, addrs, p, m, hits, here, seen);
    }
  }

  lemma MarkingWalk(sections: seq<Section>, chain: Chain, env: Env, t: Target, p: Packet, m: Marks, hits: seq<bool>, seen: bool)
    requires |hits| == |Marking(t, chain, env)| && Bits(m.ct, false, seen)
    ensures Goes(sections, chain, env, Marking(t, chain, env), p, m, hits,
                 FoundHere(t, chain, p), seen || (t.Explicit() && InSet(t, chain, p)))
  {
    if t.Explicit() {
      var a := Finding(t, chain);
      var r := Plain(IpTest(t, chain, env), SET_SEEN);
      FindingWalk(sections, chain, env, t, p, m, hits[..|a|], seen);
      OneRule(sections, chain, env, r, ToSeen, p, Walk(a, p, m, hits[..|a|]), hits[|a|..], FoundHere(t, chain, p), seen);
      GoesOn(sections, chain, env, a, [r], p, m, hits, FoundHere(t, chain, p), seen || InSet(t, chain, p));
    }
  }

  /** A limit rule built on one of the section's own tests matches exactly when it is wanted. */
  lemma TestGood(sections: seq<Section>, chain: Chain, env: Env, r: Rule, p: Packet, seen: bool)
    requires r.limit.Some? && r.limit.value.id < |sections|
    requires var t := sections[r.limit.value.id].target;
             && (r.test == IpTest(t, chain, env) || r.test == Ip6Test(t, chain, env))
             && (t.Others() ==> seen == Claimed(sections, chain, p))
    ensures var here := FoundHere(sections[r.limit.value.id].target, chain, p);
            Known(r.test.mark) && (Matched(r, p, here, seen) <==> Wanted(sections, chain, env, p, r))
  {}

  lemma LimitsGood(sections: seq<Section>, chain: Chain, env: Env, id: nat, p: Packet, seen: bool)
    requires id < |sections| && Sound(env)
    requires sections[id].target.Others() ==> seen == Claimed(sections, chain, p)
    ensures var s := sections[id];
            forall r :: r in OtherDirection(s, id, chain, env) + LimitRules(s, id, chain, env) ==>
              GoodLimit(sections, chain, env, r, p, FoundHere(s.target, chain, p), seen)
  {
    var s := sections[id];
    forall r | r in OtherDirection(s, id, chain, env) + LimitRules(s, id, chain, env)
      ensures GoodLimit(sections, chain, env, r, p, FoundHere(s.target, chain, p), seen)
    {
      LimitRuleOf(s, id, chain, env, r);
      TestGood(sections, chain, env, r, p, seen);
    }
  }

  /** What the limit rules of a section have in common. */
  lemma LimitRuleOf(s: Section, id: nat, chain: Chain, env: Env, r: Rule)
    requires r in OtherDirection(s, id, chain, env) + LimitRules(s, id, chain, env)
    ensures r.limit.Some? && r.limit.value.id == id
    ensures r.test == IpTest(s.target, chain, env) || r.test == Ip6Test(s.target, chain, env)
    ensures r.action.Ct? ==> r.action == Ct(env.deathMask, env.deathMark)
  {
    if r in OtherDirection(s, id, chain, env) {
    } else if r in Bandwidth(s, id, chain, env, IpTest(s.target, chain, env)) {
    } else {
      assert r in Bandwidth(s, id, chain, env, Ip6Test(s.target, chain, env));
    }
  }

  /** The block of one section: right on the way, and SEEN afterwards if it was or the quota matched. */
  lemma BlockWalk(sections: seq<Section>, chain: Chain, env: Env, id: nat, p: Packet, m: Marks, hits: seq<bool>, seen: bool)
    requires id < |sections| && Sound(env) && |hits| == |Block(sections[id], id, chain, env)|
    requires Bits(m.ct, false, seen)
    requires sections[id].target.Others() ==> seen == Claimed(sections, chain, p)
    ensures var t := sections[id].target;
            Goes(sections, chain, env, Block(sections[id], id, chain, env), p, m, hits,
                 false, seen || (t.Explicit() && InSet(t, chain, p)))
  {
    var s := sections[id];
    var t := s.target;
    var seen1 := seen || (t.Explicit() && InSet(t, chain, p));
    var a := Marking(t, chain, env);
    var b := OtherDirection(s, id, chain, env) + LimitRules(s, id, chain, env);
    var c := Cleanup(t, chain, env);
    MarkingWalk(sections, chain, env, t, p, m, hits[..|a|], seen);
    var m1, rest := Walk(a, p, m, hits[..|a|]), hits[|a|..];
    LimitsGood(sections, chain, env, id, p, seen1);
    LimitsWalk(sections, chain, env, b, p, m1, rest[..|b|], FoundHere(t, chain, p), seen1);
    CleanupWalk(sections, chain, env, t, p, Walk(b, p, m1, rest[..|b|]), rest[|b|..], seen1);
    GoesOn(sections, chain, env, b, c, p, m1, rest, false, seen1);
    GoesOn(sections, chain, env, a, b + c, p, m, hits, false, seen1);
  }

  lemma CleanupWalk(sections: seq<Section>, chain: Chain, env: Env, t: Target, p: Packet, m: Marks, hits: seq<bool>, seen: bool)
    requires |hits| == |Cleanup(t, chain, env)| && Bits(m.ct, FoundHere(t, chain, p), seen)
    ensures Goes(sections, chain, env, Cleanup(t, chain, env), p, m, hits, false, seen)
  {
    if IpTest(t, chain, env).mark.Some? {
      OneRule(sections, chain, env, Plain(ALWAYS, CLEAR_HERE), NotHere, p, m, hits, FoundHere(t, chain, p), seen);
    }
  }

  // ----- Walking a whole chain -----

  /** Some explicit quota among ids has the packet. */
  predicate ClaimedBy(sections: seq<Section>, ids: seq<nat>, chain: Chain, p: Packet)
    requires forall k :: 0 <= k < |ids| ==> ids[k] < |sections|
  {
    exists k :: 0 <= k < |ids| && sections[ids[k]].target.Explicit() && InSet(sections[ids[k]].target, chain, p)
  }

  lemma ClaimedByMore(sections: seq<Section>, ids: seq<nat>, id: nat, chain: Chain, p: Packet)
    requires (forall k :: 0 <= k < |ids| ==> ids[k] < |sections|) && id < |sections|
    ensures ClaimedBy(sections, ids + [id], chain, p) <==>
              ClaimedBy(sections, ids, chain, p) || (sections[id].target.Explicit() && InSet(sections[id].target, chain, p))
  {
    var more := ids + [id];
    assert more[|ids|] == id;
    if k :| 0 <= k < |ids| && sections[ids[k]].target.Explicit() && InSet(sections[ids[k]].target, chain, p) {
      assert more[k] == ids[k];
    }
  }

  predicate AllOf(sections: seq<Section>, ids: seq<nat>, others: bool) {
    forall k :: 0 <= k < |ids| ==> ids[k] < |sections| && sections[ids[k]].target.Others() == others
  }

  /**
   The blocks of some sections one after the other. Those of ALL_OTHERS sections may only come
   where SEEN says whether any explicit quota at all has the packet.
   */
  lemma {:induction false} BlocksWalk(sections: seq<Section>, chain: Chain, env: Env, ids: seq<nat>, others: bool,
                                      p: Packet, m: Marks, hits: seq<bool>, seen: bool)
    requires AllOf(sections, ids, others) && (others ==> seen == Claimed(sections, chain, p))
    requires Sound(env) && |hits| == |Blocks(sections, ids, chain, env)| && Bits(m.ct, false, seen)
    ensures Goes(sections, chain, env, Blocks(sections, ids, chain, env), p, m, hits,
                 false, seen || ClaimedBy(sections, ids, chain, p))
    decreases |ids|
  {
    if ids != [] {
      var n := |ids| - 1;
      var k := |Blocks(sections, ids[..n], chain, env)|;
      BlocksWalk(sections, chain, env, ids[..n], others, p, m, hits[..k], seen);
      assert others ==> !ClaimedBy(sections, ids[..n], chain, p);
      NextBlockWalk(sections, chain, env, ids[..n], ids[n], p, m, hits, seen);
      SplitLast(ids);
    }
  }

  lemma NextBlockWalk(sections: seq<Section>, chain: Chain, env: Env, ids: seq<nat>, id: nat,
                      p: Packet, m: Marks, hits: seq<bool>, seen: bool)
    requires (forall k :: 0 <= k < |ids| ==> ids[k] < |sections|) && id < |sections| && Sound(env)
    requires |hits| == |Blocks(sections, ids, chain, env) + Block(sections[id], id, chain, env)|
    requires var seen1 := seen || ClaimedBy(sections, ids, chain, p);
             && Goes(sections, chain, env, Blocks(sections, ids, chain, env), p, m,
                     hits[..|Blocks(sections, ids, chain, env)|], false, seen1)
             && (sections[id].target.Others() ==> seen1 == Claimed(sections, chain, p))
    ensures Goes(sections, chain, env, Blocks(sections, ids, chain, env) + Block(sections[id], id, chain, env), p, m, hits,
                 false, seen || ClaimedBy(sections, ids + [id], chain, p))
  {
    var a, b := Blocks(sections, ids, chain, env), Block(sections[id], id, chain, env);
    var seen1 := seen || ClaimedBy(sections, ids, chain, p);
    BlockWalk(sections, chain, env, id, p, Walk(a, p, m, hits[..|a|]), hits[|a|..], seen1);
    ClaimedByMore(sections, ids, id, chain, p);
    GoesOn(sections, chain, env, a, b, p, m, hits, false, seen || ClaimedBy(sections, ids + [id], chain, p));
  }

  lemma {:induction false} BlocksConcat(sections: seq<Section>, chain: Chain, env: Env, a: seq<nat>, b: seq<nat>)
    requires forall k :: 0 <= k < |a| ==> a[k] < |sections|
    requires forall k :: 0 <= k < |b| ==> b[k] < |sections|
    ensures Blocks(sections, a + b, chain, env) == Blocks(sections, a, chain, env) + Blocks(sections, b, chain, env)
    decreases |b|
  {
    if b == [] {
      assert a + b == a;
    } else {
      var n := |b| - 1;
      ConcatLast(a, b);
      BlocksConcat(sections, chain, env, a, b[..n]);
      Assoc(Blocks(sections, a, chain, env), Blocks(sections, b[..n], chain, env), Block(sections[b[n]], b[n], chain, env));
    }
  }

  lemma {:induction false} PickHas(sections: seq<Section>, others: bool, i: nat, j: nat)
    requires i <= j < |sections| && sections[j].enabled && sections[j].target.Others() == others
    ensures j in Pick(sections, others, i)
    decreases |sections| - i
  {
    if i < j {
      PickHas(sections, others, i + 1, j);
    }
  }

  /** By the time the ALL_OTHERS sections come, all explicit quotas have been tried. */
  lemma AllTried(sections: seq<Section>, chain: Chain, p: Packet)
    ensures ClaimedBy(sections, Pick(sections, false, 0), chain, p) <==> Claimed(sections, chain, p)
  {
    var ids := Pick(sections, false, 0);
    if i :| 0 <= i < |sections| && sections[i].enabled && sections[i].target.Explicit()
            && InSet(sections[i].target, chain, p) {
      PickHas(sections, false, 0, i);
      var k :| 0 <= k < |ids| && ids[k] == i;
      assert ClaimedBy(sections, ids, chain, p);
    }
  }

  lemma HeadWalk(sections: seq<Section>, chain: Chain, env: Env, p: Packet, m: Marks, hits: seq<bool>)
    requires |hits| == 2
    ensures Goes(sections, chain, env, Head(env), p, m, hits, false, false)
  {
    var rules := Head(env);
    var m1 := Step(rules[0], p, m, hits[0]);
    var m2 := Step(rules[1], p, m1, hits[1]);
    assert m2.ct == m1.ct - (HERE + SEEN);
    assert Walk(rules, p, m, hits) == Walk(rules[1..], p, m1, hits[1..]) == Walk(rules[1..][1..], p, m2, hits[1..][1..]);
  }

  /**
   Quota compilation preserves meaning. For every list of sections in whatever order, every
   packet with whatever marks and whatever the bandwidth counters say: on the packet's walk
   through an emitted chain, each limit rule of an explicit quota applies exactly to the
   packets of its own address set in the direction of the chain, and each limit rule of an
   ALL_OTHERS quota exactly to packets that no enabled explicit quota claims (for
   ALL_OTHERS_INDIVIDUAL, of the local subnet). Afterwards both groups of mark bits are clear.
   */
  lemma CompilePreservesMeaning(sections: seq<Section>, chain: Chain, env: Env, p: Packet, m: Marks, hits: seq<bool>)
    requires Sound(env) && |hits| == |Compile(sections, chain, env)|
    ensures Right(sections, chain, env, Compile(sections, chain, env), p, m, hits)
    ensures Bits(Walk(Compile(sections, chain, env), p, m, hits).ct, false, false)
  {
    var body := Blocks(sections, Order(sections), chain, env);
    Assoc(Head(env), body, TAIL);
    HeadWalk(sections, chain, env, p, m, hits[..2]);
    var m1, rest := Walk(Head(env), p, m, hits[..2]), hits[2..];
    BodyWalk(sections, chain, env, p, m1, rest[..|body|]);
    OneRule(sections, chain, env, TAIL[0], Wipe, p, Walk(body, p, m1, rest[..|body|]), rest[|body|..],
            false, Claimed(sections, chain, p));
    GoesOn(sections, chain, env, body, TAIL, p, m1, rest, false, false);
    GoesOn(sections, chain, env, Head(env), body + TAIL, p, m, hits, false, false);
  }

  lemma BodyWalk(sections: seq<Section>, chain: Chain, env: Env, p: Packet, m: Marks, hits: seq<bool>)
    requires Sound(env) && |hits| == |Blocks(sections, Order(sections), chain, env)| && Bits(m.ct, false, false)
    ensures Goes(sections, chain, env, Blocks(sections, Order(sections), chain, env), p, m, hits,
                 false, Claimed(sections, chain, p))
  {
    var first, second := Pick(sections, false, 0), Pick(sections, true, 0);
    var a, b := Blocks(sections, first, chain, env), Blocks(sections, second, chain, env);
    BlocksConcat(sections, chain, env, first, second);
    BlocksWalk(sections, chain, env, first, false, p, m, hits[..|a|], false);
    AllTried(sections, chain, p);
    BlocksWalk(sections, chain, env, second, true, p, Walk(a, p, m, hits[..|a|]), hits[|a|..],
               Claimed(sections, chain, p));
    assert !ClaimedBy(sections, second, chain, p);
    GoesOn(sections, chain, env, a, b, p, m, hits, false, Claimed(sections, chain, p));
  }
}
