/**
 * The first loop of `updateAgents`: each agent in list order runs its own
 * update, then scans the resources for the first one it touches, has not
 * seen taken earlier in the tick and may eat, and eats it. Eating applies
 * the node-resource rules (defector punishment at co-op resources,
 * predator-only predator resources, the competitor's raid-time access and
 * double yield) and, for cooperators, the investment in the co-op pool and
 * the 50/50 share with the nearest cooperator or defector, with the
 * exclusion bookkeeping for defectors.
 */
module Feeding {
  import opened Wrappers
  import opened Geometry
  import opened Entities
  import opened Agents
  import opened Counting

  /** What the loop carries from one agent to the next. */
  datatype Larder = Larder(agents: seq<Agent>, taken: seq<nat>, coopPool: real, stats: Stats)

  // ---------------------------------------------------------------------
  // The resource scan
  // ---------------------------------------------------------------------

  /** The `canConsume` rules. Enforcers skip every resource they touch. */
  predicate MayEat(kind: AgentType, res: ResourceKind, anyRaid: bool) {
    kind != Enforcer &&
    match res
    case Normal => true
    case FromCoopNode => kind == Cooperator || kind == Defector
    case FromPredatorNode => kind == Predator || (kind == Competitor && anyRaid)
  }

  /** Resource k is not taken yet, and the agent touches it and may eat it. */
  predicate Edible(a: Agent, rs: seq<Resource>, taken: seq<nat>, anyRaid: bool, k: nat)
    requires k < |rs|
  {
    k !in taken && TouchesResource(a, rs[k]) && MayEat(a.kind, rs[k].kind, anyRaid)
  }

  /** The first edible resource at index `from` or later. */
  function EdibleFrom(a: Agent, rs: seq<Resource>, taken: seq<nat>, anyRaid: bool, from: nat): (r: Option<nat>)
    requires from <= |rs|
    ensures r.Some? ==> from <= r.value < |rs| && Edible(a, rs, taken, anyRaid, r.value)
    ensures r.Some? ==> forall k :: from <= k < r.value ==> !Edible(a, rs, taken, anyRaid, k)
    ensures r.None? ==> forall k :: from <= k < |rs| ==> !Edible(a, rs, taken, anyRaid, k)
    decreases |rs| - from
  {
    if from == |rs| then None
    else if Edible(a, rs, taken, anyRaid, from) then Some(from)
    else EdibleFrom(a, rs, taken, anyRaid, from + 1)
  }

  /** The resource the scan settles on: the lowest edible index, or none. */
  function FirstEdible(a: Agent, rs: seq<Resource>, taken: seq<nat>, anyRaid: bool): (r: Option<nat>)
    ensures r.Some? ==> r.value < |rs| && Edible(a, rs, taken, anyRaid, r.value)
    ensures r.Some? ==> forall k :: 0 <= k < r.value ==> !Edible(a, rs, taken, anyRaid, k)
    ensures r.None? ==> forall k :: 0 <= k < |rs| ==> !Edible(a, rs, taken, anyRaid, k)
  {
    EdibleFrom(a, rs, taken, anyRaid, 0)
  }

  /** The scan loop, with its `break` at the first resource eaten. */
  method FindEdible(a: Agent, rs: seq<Resource>, taken: seq<nat>, anyRaid: bool) returns (r: Option<nat>)
    ensures r == FirstEdible(a, rs, taken, anyRaid)
  {
    var k := 0;
    while k < |rs|
      invariant 0 <= k <= |rs|
      invariant EdibleFrom(a, rs, taken, anyRaid, k) == FirstEdible(a, rs, taken, anyRaid)
    {
      if Edible(a, rs, taken, anyRaid, k) {
        return Some(k);
      }
      k := k + 1;
    }
    return None;
  }

  // ---------------------------------------------------------------------
  // The sharing partner
  // ---------------------------------------------------------------------

  /** Agent k may receive a cooperator's share: another cooperator or a defector. */
  predicate Sharer(s: seq<Agent>, i: nat, k: nat)
    requires k < |s|
  {
    k != i && (s[k].kind == Cooperator || s[k].kind == Defector)
  }

  function PartnerKeys(s: seq<Agent>, i: nat): (keys: seq<real>)
    requires i < |s|
    ensures |keys| == |s|
    ensures forall k :: 0 <= k < |s| ==> keys[k] == DistSq(s[i].x, s[i].y, s[k].x, s[k].y)
  {
    seq(|s|, k requires 0 <= k < |s| => DistSq(s[i].x, s[i].y, s[k].x, s[k].y))
  }

  function PartnerFlags(s: seq<Agent>, i: nat): (flags: seq<bool>)
    ensures |flags| == |s|
    ensures forall k :: 0 <= k < |s| ==> flags[k] == Sharer(s, i, k)
  {
    seq(|s|, k requires 0 <= k < |s| => Sharer(s, i, k))
  }

  /**
   * The nearest sharer strictly closer than COOPERATION_RANGE + 1, the
   * first in list order among equally near ones, or none.
   */
  function Partner(s: seq<Agent>, i: nat, range: real): (p: Option<nat>)
    requires i < |s|
    ensures p.Some? ==> p.value < |s| && Sharer(s, i, p.value)
  {
    var b := range + 1.0;
    if b <= 0.0 then None
    else FirstMin(PartnerKeys(s, i), PartnerFlags(s, i), Some(b * b))
  }

  /**
   * The partner is the nearest sharer strictly closer than
   * COOPERATION_RANGE + 1, and there is none only when no sharer is that
   * close.
   */
  lemma PartnerNearest(s: seq<Agent>, i: nat, range: real)
    requires i < |s|
    ensures var p := Partner(s, i, range);
      && (p.Some? ==> Within(s[i].x, s[i].y, s[p.value].x, s[p.value].y, range + 1.0))
      && (p.Some? ==> forall k :: 0 <= k < |s| && Sharer(s, i, k) ==>
            DistSq(s[i].x, s[i].y, s[p.value].x, s[p.value].y) <= DistSq(s[i].x, s[i].y, s[k].x, s[k].y))
      && (p.None? ==> forall k :: 0 <= k < |s| && Sharer(s, i, k) ==>
            !Within(s[i].x, s[i].y, s[k].x, s[k].y, range + 1.0))
  {
    var p := Partner(s, i, range);
    var keys := PartnerKeys(s, i);
    assert p.Some? ==> keys[p.value] == DistSq(s[i].x, s[i].y, s[p.value].x, s[p.value].y);
  }

  /** The partner scan loop. */
  method FindPartner(s: seq<Agent>, i: nat, range: real) returns (p: Option<nat>)
    requires i < |s|
    ensures p == Partner(s, i, range)
  {
    if range + 1.0 <= 0.0 {
      p := None;
    } else {
      p := FindFirstMin(PartnerKeys(s, i), PartnerFlags(s, i), Some((range + 1.0) * (range + 1.0)));
    }
  }

  // ---------------------------------------------------------------------
  // Eating
  // ---------------------------------------------------------------------

  /** `resource.mass * (1 + ability * 2)`, halved for cooperators. */
  function BaseGain(a: Agent, res: Resource): real {
    var g := res.mass * (1.0 + a.ability * 2.0);
    if a.kind == Cooperator then g * 0.5 else g
  }

  /** What a cooperator keeps of a gain after its investment in the co-op pool. */
  function Net(gain: real, cfg: Config): real {
    gain - gain * cfg.nodeContributionRate
  }

  /** The cooperator keeps the whole net gain: no partner, or a partner it has excluded. */
  predicate KeepsAll(s: seq<Agent>, i: nat, p: Option<nat>)
    requires i < |s| && (p.Some? ==> p.value < |s|)
  {
    p.None? || (s[p.value].kind == Defector && s[p.value].id in s[i].excludedDefectors)
  }

  /** How often cooperator a has shared with the defector `id`, counting one more share. */
  function SharesWith(a: Agent, id: nat): int {
    (if id in a.sharedWithDefectors then a.sharedWithDefectors[id] else 0) + 1
  }

  /**
   * A cooperator's gain: the contribution goes to the co-op pool and the
   * rest is kept whole or split in halves with partner p; a share with a
   * defector is counted, and the defector is excluded once the count
   * reaches the threshold.
   */
  function ShareWith(L: Larder, i: nat, gain: real, cfg: Config, p: Option<nat>): (r: Larder)
    requires i < |L.agents|
    requires p.Some? ==> p.value < |L.agents| && p.value != i
    ensures r.taken == L.taken && SameKinds(L.agents, r.agents)
  {
    var s := L.agents;
    var a := s[i];
    var pool := L.coopPool + gain * cfg.nodeContributionRate;
    var net := Net(gain, cfg);
    if KeepsAll(s, i, p) then
      L.(agents := s[i := a.(mass := a.mass + net)], coopPool := pool)
    else
      var b := s[p.value];
      var half := net / 2.0;
      var a1 := if b.kind == Defector then Counted(a, b.id, cfg).(mass := a.mass + half) else a.(mass := a.mass + half);
      var st := if b.kind == Defector && SharesWith(a, b.id) >= cfg.defectorExclusionThreshold
        then L.stats.(defectorExclusions := L.stats.defectorExclusions + 1) else L.stats;
      L.(agents := s[i := a1][p.value := b.(mass := b.mass + half)], coopPool := pool, stats := st)
  }

  /**
   * One more share with defector `id`: the count rises by one and reaching
   * the threshold puts the defector in the exclusion set.
   */
  function Counted(a: Agent, id: nat, cfg: Config): (r: Agent)
    ensures r == a.(sharedWithDefectors := r.sharedWithDefectors, excludedDefectors := r.excludedDefectors)
    ensures r.sharedWithDefectors == a.sharedWithDefectors[id := SharesWith(a, id)]
    ensures a.excludedDefectors <= r.excludedDefectors
    ensures id in r.excludedDefectors <==> id in a.excludedDefectors || SharesWith(a, id) >= cfg.defectorExclusionThreshold
    ensures r.excludedDefectors - a.excludedDefectors <= {id}
  {
    var count := SharesWith(a, id);
    a.(sharedWithDefectors := a.sharedWithDefectors[id := count],
       excludedDefectors := if count >= cfg.defectorExclusionThreshold then a.excludedDefectors + {id} else a.excludedDefectors)
  }

  /** The investment plus both halves (or the whole kept share) add up to the gain. */
  lemma ShareConserves(L: Larder, i: nat, gain: real, cfg: Config, p: Option<nat>)
    requires i < |L.agents|
    requires p.Some? ==> p.value < |L.agents| && p.value != i
    ensures var r := ShareWith(L, i, gain, cfg, p);
      && r.coopPool == L.coopPool + gain * cfg.nodeContributionRate
      && (r.coopPool - L.coopPool) + (TotalMass(r.agents) - TotalMass(L.agents)) == gain
  {
    var s := L.agents;
    var r := ShareWith(L, i, gain, cfg, p);
    if KeepsAll(s, i, p) {
      ShareKeepsAll(L, i, gain, cfg, p);
      TotalMassOne(s, r.agents, i);
    } else {
      ShareSplits(L, i, gain, cfg, p);
      TotalMassTwo(s, r.agents, i, p.value);
    }
    assert TotalMass(r.agents) == TotalMass(s) + Net(gain, cfg);
    assert r.coopPool - L.coopPool == gain * cfg.nodeContributionRate;
  }

  /** With no partner, or an excluded defector as partner, the cooperator keeps the whole net gain. */
  lemma ShareKeepsAll(L: Larder, i: nat, gain: real, cfg: Config, p: Option<nat>)
    requires i < |L.agents|
    requires p.Some? ==> p.value < |L.agents| && p.value != i
    requires KeepsAll(L.agents, i, p)
    ensures var r := ShareWith(L, i, gain, cfg, p);
      r.agents == L.agents[i := L.agents[i].(mass := L.agents[i].mass + Net(gain, cfg))] && r.stats == L.stats
  {
  }

  /**
   * Otherwise each side gets half of the net gain; a share with a defector
   * is counted, and `defectorExclusions` rises by one exactly when the
   * defector enters the exclusion set, which it had not been in.
   */
  lemma ShareSplits(L: Larder, i: nat, gain: real, cfg: Config, p: Option<nat>)
    requires i < |L.agents|
    requires p.Some? ==> p.value < |L.agents| && p.value != i
    requires !KeepsAll(L.agents, i, p)
    ensures var r := ShareWith(L, i, gain, cfg, p); var a := L.agents[i]; var b := L.agents[p.value];
      && r.agents[i].mass == a.mass + Net(gain, cfg) / 2.0
      && r.agents[p.value] == b.(mass := b.mass + Net(gain, cfg) / 2.0)
      && (forall k :: 0 <= k < |L.agents| && k != i && k != p.value ==> r.agents[k] == L.agents[k])
      && (b.kind == Defector ==> r.agents[i] == Counted(a, b.id, cfg).(mass := r.agents[i].mass))
      && (b.kind != Defector ==> r.agents[i] == a.(mass := r.agents[i].mass))
      && r.stats == L.stats.(defectorExclusions := L.stats.defectorExclusions +
           |r.agents[i].excludedDefectors - a.excludedDefectors|)
  {
    var r := ShareWith(L, i, gain, cfg, p);
    var a := L.agents[i];
    var b := L.agents[p.value];
    if b.kind == Defector {
      assert b.id !in a.excludedDefectors;
      var e := r.agents[i].excludedDefectors;
      if SharesWith(a, b.id) >= cfg.defectorExclusionThreshold {
        assert e - a.excludedDefectors == {b.id};
      } else {
        assert e - a.excludedDefectors == {};
      }
    } else {
      assert r.agents[i].excludedDefectors - a.excludedDefectors == {};
    }
  }

  /** A resource's yield to a non-cooperator: nothing unless positive, doubled for a competitor at a predator resource. */
  function Yield(a: Agent, res: Resource): real {
    var g := BaseGain(a, res);
    if g <= 0.0 then 0.0
    else if a.kind == Competitor && res.kind == FromPredatorNode then g * 2.0
    else g
  }

  /** The defector punishment: NODE_PUNISH_RATE of the mass is lost and the agent is moved. */
  function Punished(a: Agent, cfg: Config, teleport: (real, real)): (r: Agent)
    ensures r == a.(mass := r.mass, x := teleport.0, y := teleport.1)
    ensures r.mass == a.mass - a.mass * cfg.nodePunishRate
  {
    a.(mass := a.mass * (1.0 - cfg.nodePunishRate), x := teleport.0, y := teleport.1)
  }

  /**
   * Agent i eats `res`. A defector at a co-op resource is punished and
   * teleported instead of fed; a predator at a predator resource is
   * counted; positive gains go to the eater, through ShareWith for a
   * cooperator.
   */
  function Eat(L: Larder, i: nat, res: Resource, cfg: Config, teleport: (real, real), p: Option<nat>): (r: Larder)
    requires i < |L.agents|
    requires p.Some? ==> p.value < |L.agents| && p.value != i
    ensures r.taken == L.taken && SameKinds(L.agents, r.agents)
  {
    var a := L.agents[i];
    if res.kind == FromCoopNode && a.kind == Defector then
      L.(agents := L.agents[i := Punished(a, cfg, teleport)],
         stats := L.stats.(defectorPunishmentsNode := L.stats.defectorPunishmentsNode + 1))
    else
      var st := if res.kind == FromPredatorNode && a.kind == Predator
        then L.stats.(predatorNodeResourcesConsumed := L.stats.predatorNodeResourcesConsumed + 1)
        else L.stats;
      var g := BaseGain(a, res);
      if a.kind == Cooperator then
        if g <= 0.0 then L.(stats := st) else ShareWith(L.(stats := st), i, g, cfg, p)
      else
        L.(agents := L.agents[i := a.(mass := a.mass + Yield(a, res))], stats := st)
  }

  /** A defector at a co-op resource loses NODE_PUNISH_RATE of its mass and is moved; nothing else changes but the counter. */
  lemma EatPunishes(L: Larder, i: nat, res: Resource, cfg: Config, teleport: (real, real), p: Option<nat>)
    requires i < |L.agents|
    requires p.Some? ==> p.value < |L.agents| && p.value != i
    requires res.kind == FromCoopNode && L.agents[i].kind == Defector
    ensures var r := Eat(L, i, res, cfg, teleport, p); var a := L.agents[i];
      && r.agents == L.agents[i := Punished(a, cfg, teleport)]
      && r.coopPool == L.coopPool
      && r.stats == L.stats.(defectorPunishmentsNode := L.stats.defectorPunishmentsNode + 1)
  {
  }

  /** Any other non-cooperator gains exactly the resource's yield, and only it changes. */
  lemma EatFeeds(L: Larder, i: nat, res: Resource, cfg: Config, teleport: (real, real), p: Option<nat>)
    requires i < |L.agents|
    requires p.Some? ==> p.value < |L.agents| && p.value != i
    requires L.agents[i].kind != Cooperator && !(res.kind == FromCoopNode && L.agents[i].kind == Defector)
    ensures var r := Eat(L, i, res, cfg, teleport, p); var a := L.agents[i];
      && r.agents == L.agents[i := a.(mass := a.mass + Yield(a, res))]
      && r.coopPool == L.coopPool
      && r.stats.predatorNodeResourcesConsumed ==
           L.stats.predatorNodeResourcesConsumed + (if res.kind == FromPredatorNode && a.kind == Predator then 1 else 0)
      && r.stats == L.stats.(predatorNodeResourcesConsumed := r.stats.predatorNodeResourcesConsumed)
  {
    var a := L.agents[i];
    var st := if res.kind == FromPredatorNode && a.kind == Predator
      then L.stats.(predatorNodeResourcesConsumed := L.stats.predatorNodeResourcesConsumed + 1)
      else L.stats;
    assert Eat(L, i, res, cfg, teleport, p) == L.(agents := L.agents[i := a.(mass := a.mass + Yield(a, res))], stats := st);
  }

  /** A cooperator's meal adds exactly its positive gain to the pool and the agents together. */
  lemma EatCooperatorConserves(L: Larder, i: nat, res: Resource, cfg: Config, teleport: (real, real), p: Option<nat>)
    requires i < |L.agents|
    requires p.Some? ==> p.value < |L.agents| && p.value != i
    requires L.agents[i].kind == Cooperator
    ensures var r := Eat(L, i, res, cfg, teleport, p);
      (r.coopPool - L.coopPool) + (TotalMass(r.agents) - TotalMass(L.agents)) == Max(0.0, BaseGain(L.agents[i], res))
  {
    var g := BaseGain(L.agents[i], res);
    if g > 0.0 {
      ShareConserves(L, i, g, cfg, p);
    }
  }

  /** Eating never lowers a counter, any agent's exclusion set, or an id. */
  lemma EatGrows(L: Larder, i: nat, res: Resource, cfg: Config, teleport: (real, real), p: Option<nat>)
    requires i < |L.agents|
    requires p.Some? ==> p.value < |L.agents| && p.value != i
    ensures var r := Eat(L, i, res, cfg, teleport, p);
      && StatsGrew(L.stats, r.stats)
      && (forall k :: 0 <= k < |L.agents| ==> r.agents[k].id == L.agents[k].id)
      && (forall k :: 0 <= k < |L.agents| ==> L.agents[k].excludedDefectors <= r.agents[k].excludedDefectors)
  {
    var a := L.agents[i];
    var g := BaseGain(a, res);
    if a.kind == Cooperator && g > 0.0 && !KeepsAll(L.agents, i, p) {
      assert L.(stats := L.stats) == L;
      ShareSplits(L, i, g, cfg, p);
    }
  }

  // ---------------------------------------------------------------------
  // One agent's turn, and the whole loop
  // ---------------------------------------------------------------------

  /** What one agent's turn needs from outside the model. */
  datatype Turn = Turn(steer: Steer, teleport: (real, real))

  /**
   * The agent's own update, `agent.update()`, enters the loop as a
   * parameter (the world passes Agents.AgentTick). The loop relies only on
   * it keeping the agent's type, id and exclusion set.
   */
  ghost predicate KeepsIdentity(tick: (Agent, Steer) -> Agent) {
    forall a: Agent, st: Steer {:trigger tick(a, st)} ::
      tick(a, st).kind == a.kind && tick(a, st).id == a.id && tick(a, st).excludedDefectors == a.excludedDefectors
  }

  /**
   * Agent i's turn: its update, then the scan and, when it finds a
   * resource, the meal; the resource index joins the taken list.
   */
  function FeedOne(L: Larder, i: nat, rs: seq<Resource>, anyRaid: bool, t: Turn, cfg: Config, tick: (Agent, Steer) -> Agent): (r: Larder)
    requires KeepsIdentity(tick) && i < |L.agents|
    ensures SameKinds(L.agents, r.agents)
    ensures TakesAtMostOne(L.taken, r.taken, |rs|)
  {
    var a := tick(L.agents[i], t.steer);
    var L1 := L.(agents := L.agents[i := a]);
    match FirstEdible(a, rs, L.taken, anyRaid)
    case None => L1
    case Some(k) =>
      var p := if a.kind == Cooperator then Partner(L1.agents, i, cfg.cooperationRange) else None;
      var r := Eat(L1.(taken := L.taken + [k]), i, rs[k], cfg, t.teleport, p);
      assert r.taken[..|L.taken|] == L.taken;
      r
  }

  /** An enforcer's turn is its update alone: enforcers never eat. */
  lemma EnforcersNeverEat(L: Larder, i: nat, rs: seq<Resource>, anyRaid: bool, t: Turn, cfg: Config,
    tick: (Agent, Steer) -> Agent)
    requires KeepsIdentity(tick) && i < |L.agents| && L.agents[i].kind == Enforcer
    ensures FeedOne(L, i, rs, anyRaid, t, cfg, tick) ==
      L.(agents := L.agents[i := tick(L.agents[i], t.steer)])
  {
  }

  /** A turn never lowers a counter, any agent's exclusion set, or an id. */
  lemma FeedOneGrows(L: Larder, i: nat, rs: seq<Resource>, anyRaid: bool, t: Turn, cfg: Config,
    tick: (Agent, Steer) -> Agent)
    requires KeepsIdentity(tick) && i < |L.agents|
    ensures var r := FeedOne(L, i, rs, anyRaid, t, cfg, tick);
      && Grew(L, r)
      && (forall k :: 0 <= k < |L.agents| ==> L.agents[k].excludedDefectors <= r.agents[k].excludedDefectors)
  {
    var a := tick(L.agents[i], t.steer);
    var L1 := L.(agents := L.agents[i := a]);
    var e := FirstEdible(a, rs, L.taken, anyRaid);
    if e.Some? {
      var p := if a.kind == Cooperator then Partner(L1.agents, i, cfg.cooperationRange) else None;
      EatGrows(L1.(taken := L.taken + [e.value]), i, rs[e.value], cfg, t.teleport, p);
    }
  }

  /** The loop after its first n turns. */
  function FeedUpTo(L: Larder, n: nat, rs: seq<Resource>, anyRaid: bool, turns: seq<Turn>, cfg: Config,
    tick: (Agent, Steer) -> Agent): (r: Larder)
    requires KeepsIdentity(tick) && n <= |L.agents| && |turns| == |L.agents|
    ensures SameKinds(L.agents, r.agents)
    decreases n
  {
    if n == 0 then L
    else
      var prev := FeedUpTo(L, n - 1, rs, anyRaid, turns, cfg, tick);
      FeedOne(prev, n - 1, rs, anyRaid, turns[n - 1], cfg, tick)
  }

  /** One more turn of the loop. */
  lemma FeedUpToStep(L: Larder, n: nat, rs: seq<Resource>, anyRaid: bool, turns: seq<Turn>, cfg: Config,
    tick: (Agent, Steer) -> Agent)
    requires KeepsIdentity(tick) && n < |L.agents| && |turns| == |L.agents|
    ensures var prev := FeedUpTo(L, n, rs, anyRaid, turns, cfg, tick);
      |prev.agents| == |L.agents| &&
      FeedUpTo(L, n + 1, rs, anyRaid, turns, cfg, tick) == FeedOne(prev, n, rs, anyRaid, turns[n], cfg, tick)
  {
  }

  /** next is prev, or prev with one more in-range index it did not hold. */
  predicate TakesAtMostOne(prev: seq<nat>, next: seq<nat>, bound: nat) {
    next == prev || (|next| == |prev| + 1 && next[..|prev|] == prev &&
      next[|prev|] < bound && next[|prev|] !in prev)
  }

  /** Each resource is eaten at most once in a tick: the taken list never repeats an index. */
  predicate Distinct(t: seq<nat>) {
    forall a, b :: 0 <= a < b < |t| ==> t[a] != t[b]
  }

  /** r keeps the length and every id of L, and its counters only grew. */
  predicate Grew(L: Larder, r: Larder) {
    && |r.agents| == |L.agents| && StatsGrew(L.stats, r.stats)
    && (forall k :: 0 <= k < |L.agents| ==> r.agents[k].id == L.agents[k].id)
  }

  /**
   * Over the whole loop every agent keeps its type and id and counters
   * only grow.
   */
  lemma {:induction false} FeedUpToWellBehaved(L: Larder, n: nat, rs: seq<Resource>, anyRaid: bool, turns: seq<Turn>, cfg: Config,
    tick: (Agent, Steer) -> Agent)
    requires KeepsIdentity(tick) && n <= |L.agents| && |turns| == |L.agents|
    ensures Grew(L, FeedUpTo(L, n, rs, anyRaid, turns, cfg, tick))
    decreases n
  {
    if n > 0 {
      FeedUpToWellBehaved(L, n - 1, rs, anyRaid, turns, cfg, tick);
      FeedUpToGrowsStep(L, n - 1, rs, anyRaid, turns, cfg, tick);
      assert n - 1 + 1 == n;
    }
  }

  /** If the first n turns grew the larder, so do the first n + 1. */
  lemma FeedUpToGrowsStep(L: Larder, n: nat, rs: seq<Resource>, anyRaid: bool, turns: seq<Turn>, cfg: Config,
    tick: (Agent, Steer) -> Agent)
    requires KeepsIdentity(tick) && n < |L.agents| && |turns| == |L.agents|
    requires Grew(L, FeedUpTo(L, n, rs, anyRaid, turns, cfg, tick))
    ensures Grew(L, FeedUpTo(L, n + 1, rs, anyRaid, turns, cfg, tick))
  {
    FeedUpToStep(L, n, rs, anyRaid, turns, cfg, tick);
    var prev := FeedUpTo(L, n, rs, anyRaid, turns, cfg, tick);
    FeedOneGrows(prev, n, rs, anyRaid, turns[n], cfg, tick);
    GrewChain(L, prev, FeedUpTo(L, n + 1, rs, anyRaid, turns, cfg, tick));
  }

  /** Growing twice is growing. */
  lemma GrewChain(L0: Larder, L1: Larder, L2: Larder)
    requires Grew(L0, L1) && Grew(L1, L2)
    ensures Grew(L0, L2)
  {
  }

  /** No resource is taken twice in a tick, and every taken index is in range. */
  lemma {:induction false} FeedUpToTakesOnce(L: Larder, n: nat, rs: seq<Resource>, anyRaid: bool, turns: seq<Turn>, cfg: Config,
    tick: (Agent, Steer) -> Agent)
    requires KeepsIdentity(tick) && n <= |L.agents| && |turns| == |L.agents|
    requires L.taken == []
    ensures var r := FeedUpTo(L, n, rs, anyRaid, turns, cfg, tick);
      Distinct(r.taken) && |r.taken| <= n && (forall k :: 0 <= k < |r.taken| ==> r.taken[k] < |rs|)
    decreases n
  {
    if n > 0 {
      FeedUpToTakesOnce(L, n - 1, rs, anyRaid, turns, cfg, tick);
      var prev := FeedUpTo(L, n - 1, rs, anyRaid, turns, cfg, tick);
      var next := FeedUpTo(L, n, rs, anyRaid, turns, cfg, tick);
      assert next == FeedOne(prev, n - 1, rs, anyRaid, turns[n - 1], cfg, tick);
      assert TakesAtMostOne(prev.taken, next.taken, |rs|);
      TakenStep(prev.taken, next.taken, |rs|);
    }
  }

  /** Appending one index not yet taken keeps the list repetition-free and in range. */
  lemma TakenStep(prev: seq<nat>, next: seq<nat>, bound: nat)
    requires Distinct(prev) && forall k :: 0 <= k < |prev| ==> prev[k] < bound
    requires TakesAtMostOne(prev, next, bound)
    ensures Distinct(next) && |next| <= |prev| + 1
    ensures forall k :: 0 <= k < |next| ==> next[k] < bound
  {
    if next != prev {
      forall a, b | 0 <= a < b < |next| ensures next[a] != next[b] {
        assert next[a] == prev[a];
        if b < |prev| {
          assert next[b] == prev[b];
        } else {
          assert next[a] in prev;
        }
      }
      forall k | 0 <= k < |prev| ensures next[k] < bound {
        assert next[k] == prev[k];
      }
    }
  }

  /** One agent's turn, with its two scan loops. */
  method FeedAgent(L: Larder, i: nat, rs: seq<Resource>, anyRaid: bool, t: Turn, cfg: Config, tick: (Agent, Steer) -> Agent) returns (r: Larder)
    requires KeepsIdentity(tick) && i < |L.agents|
    ensures r == FeedOne(L, i, rs, anyRaid, t, cfg, tick)
  {
    var a := tick(L.agents[i], t.steer);
    var L1 := L.(agents := L.agents[i := a]);
    var k := FindEdible(a, rs, L.taken, anyRaid);
    if k.None? {
      return L1;
    }
    var p := None;
    if a.kind == Cooperator {
      p := FindPartner(L1.agents, i, cfg.cooperationRange);
    }
    r := Eat(L1.(taken := L.taken + [k.value]), i, rs[k.value], cfg, t.teleport, p);
  }

  /**
   * The feeding loop over all agents, in list order. It returns the
   * agents, the taken resource indices (at most one per agent, none
   * repeated), the co-op pool and the counters.
   */
  method FeedAll(L: Larder, rs: seq<Resource>, anyRaid: bool, turns: seq<Turn>, cfg: Config,
    tick: (Agent, Steer) -> Agent) returns (r: Larder)
    requires KeepsIdentity(tick) && |turns| == |L.agents| && L.taken == []
    ensures r == FeedUpTo(L, |L.agents|, rs, anyRaid, turns, cfg, tick)
    ensures SameKinds(L.agents, r.agents) && StatsGrew(L.stats, r.stats)
    ensures Distinct(r.taken) && forall k :: 0 <= k < |r.taken| ==> r.taken[k] < |rs|
  {
    r := L;
    var i := 0;
    while i < |L.agents|
      invariant 0 <= i <= |L.agents|
      invariant r == FeedUpTo(L, i, rs, anyRaid, turns, cfg, tick)
      invariant |r.agents| == |L.agents|
    {
      FeedUpToStep(L, i, rs, anyRaid, turns, cfg, tick);
      r := FeedAgent(r, i, rs, anyRaid, turns[i], cfg, tick);
      i := i + 1;
    }
    FeedUpToWellBehaved(L, |L.agents|, rs, anyRaid, turns, cfg, tick);
    FeedUpToTakesOnce(L, |L.agents|, rs, anyRaid, turns, cfg, tick);
  }
}
