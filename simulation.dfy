/**
 * The script's global state and `gameLoop`. The arrays and pools the
 * script keeps at top level become the fields of one `World`; each phase
 * of the loop is a method that changes those fields through the verified
 * per-phase operations of the other modules, and every phase keeps the
 * world's invariant: the node list is valid (at most one raid, on a
 * predator node, timers and crime levels in range), the public pool is
 * never negative, and only predators are ever in jail.
 */
module Simulation {
  import opened Wrappers
  import opened Geometry
  import opened Entities
  import opened Counting
  import opened Agents
  import opened Nodes
  import opened Feeding
  import opened Encounters
  import opened Sweep
  import opened Governance
  import opened Investment
  import opened Population
  import opened Crimes

  /** Every field the loop changes, as one value. */
  datatype Snapshot = Snapshot(
    agents: seq<Agent>,
    resources: seq<Resource>,
    nodes: seq<Node>,
    jail: seq<JailEntry>,
    crimes: seq<CrimeEvent>,
    publicPool: real,
    coopPool: real,
    predatorPool: real,
    stats: Stats,
    frame: int)

  /** Only predators are ever jailed. */
  predicate JailedPredators(jail: seq<JailEntry>) {
    forall e :: e in jail ==> e.agent.kind == Predator
  }

  /** `node.mass <= 0`: the test `draw()` splices nodes out by (the NaN test is left out). */
  predicate Gone(n: Node) {
    n.mass <= 0.0
  }

  /** `spawnResources`: below the cap, a roll under the spawn rate adds one normal resource. */
  function Spawn(resources: seq<Resource>, roll: real, at: (real, real), gain: real): (r: seq<Resource>)
    ensures |resources| <= |r| <= |resources| + 1 && r[..|resources|] == resources
    ensures |resources| <= MAX_RESOURCE_COUNT ==> |r| <= MAX_RESOURCE_COUNT
    ensures |r| == |resources| + 1 <==> |resources| < MAX_RESOURCE_COUNT && roll < RESOURCE_SPAWN_RATE
    ensures |r| == |resources| + 1 ==> r[|resources|] == Resource(at.0, at.1, gain, Normal)
  {
    if |resources| < MAX_RESOURCE_COUNT && roll < RESOURCE_SPAWN_RATE then
      assert (resources + [Resource(at.0, at.1, gain, Normal)])[..|resources|] == resources;
      resources + [Resource(at.0, at.1, gain, Normal)]
    else
      assert resources[..|resources|] == resources;
      resources
  }

  /** The snapshot after one investment step of the given kind, its counter included. */
  function Invested(w: Snapshot, kind: NodeKind, r: Investment): Snapshot {
    if kind == CoopNode then
      w.(coopPool := r.pool, nodes := r.nodes,
         stats := if r.built then w.stats.(nodesBuilt := w.stats.nodesBuilt + 1) else w.stats)
    else
      w.(predatorPool := r.pool, nodes := r.nodes,
         stats := if r.built then w.stats.(predatorNodesBuilt := w.stats.predatorNodesBuilt + 1) else w.stats)
  }

  /** Investment keeps the node list valid: a new node has no raid, no crime and a fresh timer. */
  lemma InvestKeepsValid(kind: NodeKind, pool: real, nodes: seq<Node>, width: real, height: real,
                         rolls: nat -> (real, real), id: nat)
    requires NodesValid(nodes)
    ensures NodesValid(Invest(kind, pool, nodes, width, height, rolls, id).nodes)
  {
    var r := Invest(kind, pool, nodes, width, height, rolls, id);
    if r.built {
      var t := FirstClear(kind, nodes, width, height, rolls, 0).value;
      var p := Spot(kind, width, height, rolls, t);
      assert r.nodes == nodes + [NewNode(id, p.0, p.1, kind)];
    }
  }

  /** What the encounter loop keeps: its nodes change only by rising crime levels, its jail only by predators. */
  lemma LawfulKeepsValid(s0: Scene, s: Scene, cfg: Config, frame: int)
    requires Lawful(s0, s, cfg, frame) && NodesValid(s0.nodes) && JailedPredators(s0.jail)
    ensures NodesValid(s.nodes) && JailedPredators(s.jail)
  {
    forall k | 0 <= k < |s.nodes| ensures NodeValid(s.nodes[k]) && s.nodes[k].isBeingRaided == s0.nodes[k].isBeingRaided
      && s.nodes[k].kind == s0.nodes[k].kind
    {
      assert NodeValid(s0.nodes[k]);
    }
    forall e | e in s.jail ensures e.agent.kind == Predator {
      var k :| 0 <= k < |s.jail| && s.jail[k] == e;
      if k < |s0.jail| {
        assert s.jail[..|s0.jail|][k] == e;
      }
    }
  }

  /** Splicing out dead nodes keeps the node list valid. */
  lemma {:induction false} SweepKeepsValid(s: seq<Node>)
    requires NodesValid(s)
    ensures NodesValid(Without(s, Gone))
    decreases |s|
  {
    if s != [] {
      var t := s[1..];
      assert forall k :: 0 <= k < |t| ==> t[k] == s[k + 1];
      SweepKeepsValid(t);
      var w := Without(t, Gone);
      var r := Without(s, Gone);
      assert r == (if Gone(s[0]) then [] else [s[0]]) + w;
      forall m | 0 <= m < |w|
        ensures NodeValid(w[m]) && (w[m].isBeingRaided ==> w[m].kind == PredatorNode)
        ensures s[0].isBeingRaided ==> !w[m].isBeingRaided
      {
        WithoutMembers(t, Gone, w[m]);
        var i :| 0 <= i < |t| && t[i] == w[m];
        assert s[i + 1] == w[m];
      }
      if !Gone(s[0]) {
        assert r == [s[0]] + w;
        forall k, l | 0 <= k < l < |r| && r[k].isBeingRaided ensures !r[l].isBeingRaided {
          assert r[l] == w[l - 1];
          if k > 0 {
            assert r[k] == w[k - 1];
          }
        }
      }
    }
  }

  /** A death sweep never raises a head count. */
  lemma {:induction false} CensusWithout(s: seq<Agent>, drop: Agent -> bool, kind: AgentType)
    ensures Census(Without(s, drop), kind) <= Census(s, kind)
    decreases |s|
  {
    if s != [] {
      CensusWithout(s[1..], drop, kind);
      var h := if drop(s[0]) then [] else [s[0]];
      CensusConcat(h, Without(s[1..], drop), kind);
      CensusConcat([s[0]], s[1..], kind);
      assert [s[0]] + s[1..] == s;
      assert [s[0]][..0] == [];
    }
  }

  /** The draws one sub-tick of the game loop consumes, indexed in the order the script draws them. */
  datatype TickDraws = TickDraws(
    spawnRoll: real, spawnAt: (real, real),
    releases: nat -> Release,
    reseedRoll: real, seeds: AgentType -> Seed,
    nodeSpots: nat -> (real, real),
    turns: nat -> Turn,
    bribes: nat -> real)

  /** Every draw used to pick a node is a `Math.random()` value in [0, 1). */
  ghost predicate TickDrawsInRange(d: TickDraws) {
    && (forall k: nat :: 0.0 <= d.releases(k).place.nodeRoll < 1.0)
    && SeedsInRange(d.seeds)
  }

  /** The draws of the once-per-frame phases. */
  datatype FrameDraws = FrameDraws(
    governance: Draws,
    coopSpots: nat -> (real, real), coopId: nat,
    predatorSpots: nat -> (real, real), predatorId: nat)

  /**
   * The state an agents pass may change, before (s0) and after (s): nobody
   * is left at the floor; no commonfolk agent and no enforcer has been
   * added; every predator that left the list is in jail or dead; the jail
   * and the crime log only grew, the jail only by predators; the node list
   * is still valid; counters and the predator pool only grew.
   */
  predicate AgentsPassed(s0: Scene, s: Scene) {
    && (forall a :: a in s.agents ==> !Dead(a))
    && (forall kind :: kind != Predator ==> Census(s.agents, kind) <= Census(s0.agents, kind))
    && Census(s.agents, Predator) + |s.jail| <= Census(s0.agents, Predator) + |s0.jail|
    && |s0.jail| <= |s.jail| && s.jail[..|s0.jail|] == s0.jail && JailedPredators(s.jail)
    && |s0.crimes| <= |s.crimes| && s.crimes[..|s0.crimes|] == s0.crimes
    && |s.nodes| == |s0.nodes| && NodesValid(s.nodes)
    && StatsGrew(s0.stats, s.stats) && s0.predatorPool <= s.predatorPool
  }

  /**
   * `updateAgents` on values: each agent's own update (`Agents.AgentTick`)
   * and meal in list order, the encounters, the death sweep, and the
   * removal of the eaten resources, which shrinks the resource list by one
   * per meal.
   */
  method AgentsPass(s0: Scene, resources: seq<Resource>, coopPool: real, turns: seq<Turn>, bribes: nat -> real,
                    cfg: Config, frame: int, width: real, height: real, radiusOf: real -> real)
    returns (s: Scene, kept: seq<Resource>, pool: real)
    requires |turns| == |s0.agents| && NodesValid(s0.nodes) && JailedPredators(s0.jail)
    ensures AgentsPassed(s0, s) && |kept| <= |resources|
  {
    var ns, decay := s0.nodes, cfg.baseMassDecay;
    var tick := (a: Agent, st: Steer) => AgentTick(a, ns, st, width, height, decay, radiusOf);
    assert KeepsIdentity(tick);
    var L := FeedAll(Larder(s0.agents, [], coopPool, s0.stats), resources, AnyRaidActive(ns), turns, cfg, tick);
    var s1 := s0.(agents := L.agents, stats := L.stats);
    var s2, _ := Encounter(s1, cfg, frame, bribes);
    var survivors := SweepDead(s2.agents);
    PassFacts(s0, s1, s2, cfg, frame);
    ConsumedRemoved(resources, L.taken);
    kept := RemoveConsumed(resources, L.taken);
    s, pool := s2.(agents := survivors), L.coopPool;
  }

  /** The facts of one agents pass, from those of its feeding loop, its encounter loop and its death sweep. */
  lemma PassFacts(s0: Scene, s1: Scene, s2: Scene, cfg: Config, frame: int)
    requires s1 == s0.(agents := s1.agents, stats := s1.stats)
    requires SameKinds(s0.agents, s1.agents) && StatsGrew(s0.stats, s1.stats)
    requires Lawful(s1, s2, cfg, frame) && NodesValid(s0.nodes) && JailedPredators(s0.jail)
    ensures AgentsPassed(s0, s2.(agents := Without(s2.agents, Dead)))
  {
    var survivors := Without(s2.agents, Dead);
    CensusSameKindsAll(s0.agents, s1.agents);
    LawfulKeepsValid(s1, s2, cfg, frame);
    forall kind ensures Census(survivors, kind) <= Census(s2.agents, kind) {
      CensusWithout(s2.agents, Dead, kind);
    }
    forall a ensures a in survivors ==> !Dead(a) {
      WithoutMembers(s2.agents, Dead, a);
    }
  }

  /**
   * `nodes.forEach(n => n.update())` on values: each node's update in list
   * order. No node is added or removed, the node list stays valid, the
   * agents keep their types and order, and `raids` is the number of raids
   * started: one when some node came under raid, none otherwise, since a
   * raid starts only while no other raid is on.
   */
  method NodesPass(nodes0: seq<Node>, agents0: seq<Agent>, resources0: seq<Resource>, spots: seq<(real, real)>,
                   width: real, height: real)
    returns (nodes: seq<Node>, resources: seq<Resource>, agents: seq<Agent>, raids: nat)
    requires NodesValid(nodes0) && |spots| == |nodes0|
    ensures NodesValid(nodes) && |nodes| == |nodes0| && SameKinds(agents0, agents)
    ensures raids <= 1 && (raids == 1 <==> RaidBegan(nodes0, nodes))
  {
    nodes, resources, agents, raids := nodes0, resources0, agents0, 0;
    var k := 0;
    while k < |nodes|
      invariant 0 <= k <= |nodes| == |spots| && NodesValid(nodes) && SameKinds(agents0, agents)
      invariant |nodes| == |nodes0| && raids <= 1
      invariant forall j :: k <= j < |nodes| ==> nodes[j].isBeingRaided == nodes0[j].isBeingRaided
      invariant raids == 1 <==> exists j :: 0 <= j < k && !nodes0[j].isBeingRaided && nodes[j].isBeingRaided
    {
      NodeUpdateKeepsValid(nodes, k, agents, resources, spots[k], width, height);
      var r, after := UpdateNode(nodes, k, agents, resources, spots[k], width, height);
      NodeFlagsKept(nodes0, nodes, r.nodes, k, raids);
      nodes, resources, agents := r.nodes, r.resources, after;
      if r.raidStarted {
        raids := raids + 1;
      }
      k := k + 1;
    }
  }

  /** One node's update keeps every other node's raid flag, so the raid counts of NodesPass carry over. */
  lemma NodeFlagsKept(nodes0: seq<Node>, nodes: seq<Node>, next: seq<Node>, k: nat, raids: nat)
    requires |nodes| == |nodes0| == |next| && k < |nodes|
    requires forall j :: 0 <= j < |nodes| && j != k ==> next[j].isBeingRaided == nodes[j].isBeingRaided
    requires forall j :: k <= j < |nodes| ==> nodes[j].isBeingRaided == nodes0[j].isBeingRaided
    requires raids == 1 <==> exists j :: 0 <= j < k && !nodes0[j].isBeingRaided && nodes[j].isBeingRaided
    ensures forall j :: k + 1 <= j < |nodes| ==> next[j].isBeingRaided == nodes0[j].isBeingRaided
    ensures (exists j :: 0 <= j < k + 1 && !nodes0[j].isBeingRaided && next[j].isBeingRaided) <==>
      raids == 1 || (!nodes[k].isBeingRaided && next[k].isBeingRaided)
    ensures raids == 1 ==> AnyRaidActive(nodes)
  {
    if raids == 1 {
      var j :| 0 <= j < k && !nodes0[j].isBeingRaided && nodes[j].isBeingRaided;
      assert next[j].isBeingRaided;
    }
  }

  /**
   * `updateCoopInvestment` and `updatePredatorInvestment` on values: the
   * threshold is taken first, the placement loop runs, and a failed
   * placement refunds it.
   */
  method InvestStep(kind: NodeKind, pool0: real, nodes0: seq<Node>, width: real, height: real,
                    spots: nat -> (real, real), id: nat) returns (r: Investment)
    ensures r == Invest(kind, pool0, nodes0, width, height, spots, id)
  {
    var pool, nodes, built := pool0, nodes0, false;
    if pool >= Threshold(kind) {
      pool := pool - Threshold(kind);
      var found := FindSpot(kind, nodes, width, height, spots);
      if found.Some? {
        var p := Spot(kind, width, height, spots, found.value);
        nodes := nodes + [NewNode(id, p.0, p.1, kind)];
        built := true;
      } else {
        pool := pool + Threshold(kind);
      }
    }
    r := Investment(pool, nodes, built);
  }

  class World {
    var agents: seq<Agent>
    var resources: seq<Resource>
    var nodes: seq<Node>
    var jail: seq<JailEntry>
    var recentCrimes: seq<CrimeEvent>
    var publicPool: real
    var coopPool: real
    var predatorPool: real
    var stats: Stats
    var gameFrame: int
    const config: Config
    const width: real
    const height: real
    /** `calculateRadius`. */
    const radiusOf: real -> real

    function Now(): Snapshot
      reads this
    {
      Snapshot(agents, resources, nodes, jail, recentCrimes, publicPool, coopPool, predatorPool, stats, gameFrame)
    }

    predicate Valid()
      reads this
    {
      NodesValid(nodes) && publicPool >= 0.0 && JailedPredators(jail)
    }

    /** `initializeSimulation` on a fresh page: empty lists, empty pools, zeroed counters, the starting agents. */
    constructor (config: Config, width: real, height: real, radiusOf: real -> real, start: seq<Agent>)
      ensures Valid()
      ensures Now() == Snapshot(start, [], [], [], [], 0.0, 0.0, 0.0, ZERO_STATS, 0)
      ensures this.config == config && this.width == width && this.height == height && this.radiusOf == radiusOf
    {
      this.config, this.width, this.height, this.radiusOf := config, width, height, radiusOf;
      agents, resources, nodes, jail, recentCrimes := start, [], [], [], [];
      publicPool, coopPool, predatorPool, stats, gameFrame := 0.0, 0.0, 0.0, ZERO_STATS, 0;
    }

    /** `spawnResources`. */
    method SpawnResources(roll: real, at: (real, real))
      requires Valid()
      modifies this
      ensures Valid()
      ensures Now() == old(Now()).(resources := Spawn(old(resources), roll, at, config.resourceMassGain))
    {
      if |resources| < MAX_RESOURCE_COUNT && roll < RESOURCE_SPAWN_RATE {
        resources := resources + [Resource(at.0, at.1, config.resourceMassGain, Normal)];
      }
    }

    /** `updateJail`: the due entries are released onto the agent list, the rest stay. */
    method UpdateJail(draws: seq<Release>)
      requires Valid() && DrawsFor(jail, draws)
      modifies this
      ensures Valid()
      ensures Now() == old(Now()).(
        agents := old(agents) + Releases(old(jail), 0, gameFrame, nodes, draws, width, height, radiusOf(RESET_MASS)),
        jail := Without(old(jail), DueAt(gameFrame)))
    {
      ghost var j0 := jail;
      agents, jail := ReleaseDue(agents, jail, gameFrame, nodes, draws, width, height, radiusOf(RESET_MASS));
      forall e | e in jail ensures e.agent.kind == Predator {
        WithoutMembers(j0, DueAt(gameFrame), e);
      }
    }

    /** `updatePopulationDynamics`. */
    method UpdatePopulation(roll: real, seeds: AgentType -> Seed)
      requires Valid() && SeedsInRange(seeds)
      modifies this
      ensures Valid()
      ensures Now() == old(Now()).(agents := Reseed(old(agents), jail, config, nodes, roll, seeds, width, height, radiusOf))
    {
      agents := ReseedStep(agents, jail, config, nodes, roll, seeds, width, height, radiusOf);
    }

    /**
     * `nodes.forEach(n => n.update())`: each node's update in list order,
     * each raid start counted. No node is added or removed here, and the
     * agents keep their types and order.
     */
    method UpdateNodes(spots: seq<(real, real)>)
      requires Valid() && |spots| == |nodes|
      modifies this
      ensures Valid()
      ensures |nodes| == |old(nodes)| && SameKinds(old(agents), agents) && StatsGrew(old(stats), stats)
      ensures stats == old(stats).(predatorNodeRaids := old(stats.predatorNodeRaids) + if RaidBegan(old(nodes), nodes) then 1 else 0)
      ensures jail == old(jail) && recentCrimes == old(recentCrimes) && gameFrame == old(gameFrame)
      ensures publicPool == old(publicPool) && coopPool == old(coopPool) && predatorPool == old(predatorPool)
    {
      var raids;
      nodes, resources, agents, raids := NodesPass(nodes, agents, resources, spots, width, height);
      stats := stats.(predatorNodeRaids := stats.predatorNodeRaids + raids);
    }

    /**
     * `updateAgents`: the feeding loop, the encounter loop, the death
     * sweep and the removal of the eaten resources, as `Simulation.AgentsPass`
     * states them.
     */
    method UpdateAgents(turns: seq<Turn>, bribes: nat -> real)
      requires Valid() && |turns| == |agents|
      modifies this
      ensures Valid()
      ensures AgentsPassed(Scene(old(agents), old(nodes), old(jail), old(recentCrimes), old(predatorPool), old(stats)),
                           Scene(agents, nodes, jail, recentCrimes, predatorPool, stats))
      ensures |resources| <= |old(resources)| && publicPool == old(publicPool) && gameFrame == old(gameFrame)
    {
      var s, kept, pool := AgentsPass(Scene(agents, nodes, jail, recentCrimes, predatorPool, stats), resources, coopPool,
                                      turns, bribes, config, gameFrame, width, height, radiusOf);
      agents, resources, coopPool := s.agents, kept, pool;
      nodes, jail, recentCrimes, predatorPool, stats := s.nodes, s.jail, s.crimes, s.predatorPool, s.stats;
    }

    /** `processCrimeEvents`. */
    method ProcessCrimeEvents()
      requires Valid()
      modifies this
      ensures Valid()
      ensures Now() == old(Now()).(agents := ProcessCrimes(old(agents), old(recentCrimes), nodes, gameFrame).0,
                                   crimes := ProcessCrimes(old(agents), old(recentCrimes), nodes, gameFrame).1)
    {
      agents, recentCrimes := WitnessCrimes(agents, recentCrimes, nodes, gameFrame);
    }

    /** `updateGovernance`: the agents and the pool become what `Governance.Govern` says. */
    method UpdateGovernance(d: Draws)
      requires Valid() && 0.0 <= d.spotRoll < 1.0
      modifies this
      ensures Valid()
      ensures Now() == old(Now()).(
        agents := Govern(Treasury(old(agents), old(publicPool)), config.enforcerSalary, nodes, d, width, height, radiusOf).agents,
        publicPool := Govern(Treasury(old(agents), old(publicPool)), config.enforcerSalary, nodes, d, width, height, radiusOf).publicPool)
    {
      GovernPool(Treasury(agents, publicPool), config.enforcerSalary, nodes, d, width, height, radiusOf);
      var t := GovernStep(Treasury(agents, publicPool), config.enforcerSalary, nodes, d, width, height, radiusOf);
      agents, publicPool := t.agents, t.publicPool;
    }

    /**
     * `updateCoopInvestment` (kind CoopNode) and `updatePredatorInvestment`
     * (kind PredatorNode): the threshold is taken first, the placement loop
     * runs, and a failed placement refunds it.
     */
    method UpdateInvestment(kind: NodeKind, spots: nat -> (real, real), id: nat)
      requires Valid()
      modifies this
      ensures Valid()
      ensures Now() == Invested(old(Now()), kind,
        Invest(kind, if kind == CoopNode then old(coopPool) else old(predatorPool), old(nodes), width, height, spots, id))
    {
      var r := InvestStep(kind, if kind == CoopNode then coopPool else predatorPool, nodes, width, height, spots, id);
      InvestKeepsValid(kind, if kind == CoopNode then coopPool else predatorPool, nodes, width, height, spots, id);
      if kind == CoopNode {
        coopPool, nodes := r.pool, r.nodes;
        if r.built {
          stats := stats.(nodesBuilt := stats.nodesBuilt + 1);
        }
      } else {
        predatorPool, nodes := r.pool, r.nodes;
        if r.built {
          stats := stats.(predatorNodesBuilt := stats.predatorNodesBuilt + 1);
        }
      }
    }

    /** The node splice at the top of `draw()`: nodes marked dead leave the list, in order. */
    method SweepNodes()
      requires Valid()
      modifies this
      ensures Valid()
      ensures Now() == old(Now()).(nodes := Without(old(nodes), Gone))
    {
      SweepKeepsValid(nodes);
      nodes := RemoveWhere(nodes, Gone);
    }

    /** One pass of the speed loop in `gameLoop`, phase by phase in the script's order. */
    method SubTick(d: TickDraws)
      requires Valid() && TickDrawsInRange(d)
      modifies this
      ensures Valid() && gameFrame == old(gameFrame) + 1
    {
      gameFrame := gameFrame + 1;
      SpawnResources(d.spawnRoll, d.spawnAt);
      var releases := seq(|jail|, k requires 0 <= k => d.releases(k));
      UpdateJail(releases);
      UpdatePopulation(d.reseedRoll, d.seeds);
      UpdateNodes(seq(|nodes|, k requires 0 <= k => d.nodeSpots(k)));
      UpdateAgents(seq(|agents|, k requires 0 <= k => d.turns(k)), d.bribes);
      ProcessCrimeEvents();
    }

    /**
     * One animation frame: `max(1, speed)` sub-ticks, then governance, the
     * two investments and the dead-node splice of `draw()`. A node marked
     * dead during a sub-tick therefore stays in the list for the rest of
     * the frame.
     */
    method Frame(speed: int, ticks: nat -> TickDraws, f: FrameDraws)
      requires Valid() && 0.0 <= f.governance.spotRoll < 1.0
      requires forall k: nat :: TickDrawsInRange(ticks(k))
      modifies this
      ensures Valid()
      ensures gameFrame == old(gameFrame) + (if speed < 1 then 1 else speed)
    {
      var n := if speed < 1 then 1 else speed;
      var i := 0;
      while i < n
        invariant 0 <= i <= n && Valid() && gameFrame == old(gameFrame) + i
      {
        SubTick(ticks(i));
        i := i + 1;
      }
      UpdateGovernance(f.governance);
      UpdateInvestment(CoopNode, f.coopSpots, f.coopId);
      UpdateInvestment(PredatorNode, f.predatorSpots, f.predatorId);
      SweepNodes();
    }
  }
}
