/**
 * Nodes (`Node.update`): mass decay and the mark for removal, the
 * predator-node raid clock and crime decay, the crime reset when a raid
 * ends, and the periodic resource spawn. The force adjustment during a raid
 * is in the Raids module.
 */
module Nodes {
  import opened Wrappers
  import opened Geometry
  import opened Entities
  import opened Agents
  import opened Raids

  // ---------------------------------------------------------------------
  // Node mass
  // ---------------------------------------------------------------------

  /** The update marks the node: its mass drops under the minimum. */
  predicate Marked(n: Node) {
    n.mass - NODE_DECAY_RATE < n.minMass
  }

  /** Decay by NODE_DECAY_RATE, with mass 0 as the mark for removal. */
  function NodeDecay(n: Node): (r: Node)
    ensures r == n.(mass := r.mass)
    ensures Marked(n) ==> r.mass == 0.0
    ensures !Marked(n) ==> r.mass == n.mass - NODE_DECAY_RATE && r.mass >= n.minMass
    ensures n.mass <= 0.0 && n.minMass > 0.0 ==> r.mass == 0.0
  {
    var m := n.mass - NODE_DECAY_RATE;
    if m < n.minMass then n.(mass := 0.0) else n.(mass := m)
  }

  function DecayNodeTicks(n: Node, k: nat): Node
    decreases k
  {
    if k == 0 then n else NodeDecay(DecayNodeTicks(n, k - 1))
  }

  /**
   * A node loses exactly NODE_DECAY_RATE per update while its mass stays
   * at or above the minimum, and is marked from then on: nothing else
   * feeds a node, so every node is marked after finitely many updates.
   */
  lemma {:induction false} NodeLifetime(n: Node, k: nat)
    requires n.minMass > 0.0 && n.mass >= n.minMass
    ensures n.mass - k as real * NODE_DECAY_RATE >= n.minMass ==>
      DecayNodeTicks(n, k).mass == n.mass - k as real * NODE_DECAY_RATE
    ensures n.mass - k as real * NODE_DECAY_RATE < n.minMass ==> DecayNodeTicks(n, k).mass == 0.0
    ensures DecayNodeTicks(n, k) == n.(mass := DecayNodeTicks(n, k).mass)
    decreases k
  {
    if k > 0 {
      NodeLifetime(n, k - 1);
      assert (k - 1) as real * NODE_DECAY_RATE + NODE_DECAY_RATE == k as real * NODE_DECAY_RATE;
    }
  }

  // ---------------------------------------------------------------------
  // The raid clock and crime level of a predator node
  // ---------------------------------------------------------------------

  /**
   * The timer part of `Node.update` for a live predator node. During a
   * raid the timer counts down and the raid ends at 0 with a fresh cooldown;
   * otherwise the cooldown counts down, the crime level decays towards 0,
   * and a raid starts when crime reaches the threshold, no raid is active
   * anywhere and the cooldown has run out.
   */
  function RaidClock(n: Node, anyRaid: bool): (r: Node)
    ensures r == n.(raidTimer := r.raidTimer, isBeingRaided := r.isBeingRaided,
                    raidCooldownTimer := r.raidCooldownTimer, crimeLevel := r.crimeLevel,
                    currentRaidForce := r.currentRaidForce)
    ensures n.isBeingRaided ==> r.raidTimer == n.raidTimer - 1 && r.crimeLevel == n.crimeLevel
    ensures n.isBeingRaided ==> (r.isBeingRaided <==> r.raidTimer > 0)
    ensures n.isBeingRaided && !r.isBeingRaided ==>
      r.raidCooldownTimer == RAID_COOLDOWN_TIME && r.currentRaidForce == 0
    ensures n.isBeingRaided && r.isBeingRaided ==>
      r.raidCooldownTimer == n.raidCooldownTimer && r.currentRaidForce == n.currentRaidForce
    ensures !n.isBeingRaided ==> r.crimeLevel >= 0.0 && r.raidCooldownTimer == CountDown(n.raidCooldownTimer)
    ensures !n.isBeingRaided && n.crimeLevel >= NODE_DECAY_RATE / 2.0 ==>
      r.crimeLevel == n.crimeLevel - NODE_DECAY_RATE / 2.0
    ensures !n.isBeingRaided && n.crimeLevel < NODE_DECAY_RATE / 2.0 ==> r.crimeLevel == 0.0
    ensures !n.isBeingRaided ==>
      (r.isBeingRaided <==> r.crimeLevel >= PREDATOR_NODE_CRIME_THRESHOLD && !anyRaid && r.raidCooldownTimer <= 0)
    ensures !n.isBeingRaided && r.isBeingRaided ==>
      r.raidTimer == PREDATOR_NODE_RAID_TIME && r.currentRaidForce == 0
    ensures !n.isBeingRaided && !r.isBeingRaided ==>
      r.raidTimer == n.raidTimer && r.currentRaidForce == n.currentRaidForce
  {
    if n.isBeingRaided then
      var t := n.raidTimer - 1;
      if t <= 0 then
        n.(raidTimer := t, isBeingRaided := false, raidCooldownTimer := RAID_COOLDOWN_TIME, currentRaidForce := 0)
      else n.(raidTimer := t)
    else
      var cd := CountDown(n.raidCooldownTimer);
      var crime := Max(0.0, n.crimeLevel - NODE_DECAY_RATE / 2.0);
      if crime >= PREDATOR_NODE_CRIME_THRESHOLD && !anyRaid && cd <= 0 then
        n.(raidCooldownTimer := cd, crimeLevel := crime, isBeingRaided := true,
           raidTimer := PREDATOR_NODE_RAID_TIME, currentRaidForce := 0)
      else n.(raidCooldownTimer := cd, crimeLevel := crime)
  }

  /** The clock over k updates; `anyRaid(j)` says whether a raid was active at update j. */
  function ClockTicks(n: Node, anyRaid: nat -> bool, k: nat): Node
    decreases k
  {
    if k == 0 then n else RaidClock(ClockTicks(n, anyRaid, k - 1), anyRaid(k - 1))
  }

  /**
   * A raid with t ticks on its timer lasts exactly t updates: it is still
   * on after fewer, and after t it is over with the full cooldown. A fresh
   * raid starts with PREDATOR_NODE_RAID_TIME ticks.
   */
  lemma {:induction false} RaidLasts(n: Node, anyRaid: nat -> bool, k: nat)
    requires n.isBeingRaided && n.raidTimer > 0 && k <= n.raidTimer
    ensures k < n.raidTimer ==>
      ClockTicks(n, anyRaid, k).isBeingRaided && ClockTicks(n, anyRaid, k).raidTimer == n.raidTimer - k
    ensures k == n.raidTimer ==>
      !ClockTicks(n, anyRaid, k).isBeingRaided && ClockTicks(n, anyRaid, k).raidCooldownTimer == RAID_COOLDOWN_TIME
    decreases k
  {
    if k > 0 {
      RaidLasts(n, anyRaid, k - 1);
    }
  }

  /**
   * No raid during the cooldown: a node that is not being raided, with c
   * cooldown ticks left, stays so for the next c - 1 updates, whatever the
   * crime level and whatever other nodes do, and after k < c updates its
   * cooldown is c - k. The update that takes the cooldown to 0 may already
   * start a raid, since the cooldown drops before the trigger is tested.
   */
  lemma {:induction false} NoRaidDuringCooldown(n: Node, anyRaid: nat -> bool, k: nat)
    requires !n.isBeingRaided && k < n.raidCooldownTimer
    ensures !ClockTicks(n, anyRaid, k).isBeingRaided
    ensures ClockTicks(n, anyRaid, k).raidCooldownTimer == n.raidCooldownTimer - k
    decreases k
  {
    if k > 0 {
      NoRaidDuringCooldown(n, anyRaid, k - 1);
    }
  }

  /** The reset when a raid ends: every predator node's crime level becomes 0. */
  function ClearCrime(nodes: seq<Node>): (r: seq<Node>)
    ensures |r| == |nodes|
    ensures forall k :: 0 <= k < |nodes| ==> r[k] == nodes[k].(crimeLevel := r[k].crimeLevel)
    ensures forall k :: 0 <= k < |nodes| ==>
      r[k].crimeLevel == if nodes[k].kind == PredatorNode then 0.0 else nodes[k].crimeLevel
  {
    seq(|nodes|, k requires 0 <= k < |nodes| =>
      if nodes[k].kind == PredatorNode then nodes[k].(crimeLevel := 0.0) else nodes[k])
  }

  /** The reset loop. */
  method ResetCrimeLevels(nodes: seq<Node>) returns (r: seq<Node>)
    ensures r == ClearCrime(nodes)
  {
    r := nodes;
    var k := 0;
    while k < |r|
      invariant 0 <= k <= |r| == |nodes|
      invariant forall j :: 0 <= j < k ==> r[j] == ClearCrime(nodes)[j]
      invariant forall j :: k <= j < |r| ==> r[j] == nodes[j]
    {
      if r[k].kind == PredatorNode {
        r := r[k := r[k].(crimeLevel := 0.0)];
      }
      k := k + 1;
    }
  }

  // ---------------------------------------------------------------------
  // Resource spawning
  // ---------------------------------------------------------------------

  /** The core radius squared: `max(1, radius || 1)` with radius = sqrt(max(0, mass) / PI). */
  function CoreRadiusSq(n: Node): real {
    Max(1.0, Max(0.0, n.mass) / PI)
  }

  /** `spawnRadius <= coreRadius`, decided on squares (the core radius is at least 1). */
  predicate SpawnBlocked(n: Node) {
    n.spawnRadius <= 0.0 || n.spawnRadius * n.spawnRadius <= CoreRadiusSq(n)
  }

  function NodeResourceKind(k: NodeKind): ResourceKind {
    if k == CoopNode then FromCoopNode else FromPredatorNode
  }

  datatype Spawned = Spawned(node: Node, resource: Option<Resource>)

  /** The spawn timer step, the only part of spawning that decides when. */
  function SpawnTimerStep(t: int, interval: int): int {
    if t + 1 >= interval then 0 else t + 1
  }

  /**
   * The spawn timer and `spawnResource`. `at` is the random point in the
   * annulus between the core and the spawn radius; it yields a resource
   * only when it lies strictly inside the canvas and the core does not
   * cover the spawn area.
   */
  function NodeSpawn(n: Node, at: (real, real), width: real, height: real): (r: Spawned)
    ensures r.node == n.(spawnTimer := SpawnTimerStep(n.spawnTimer, n.spawnInterval))
    ensures r.resource.Some? <==>
      n.spawnTimer + 1 >= n.spawnInterval && !SpawnBlocked(n) && 0.0 < at.0 < width && 0.0 < at.1 < height
    ensures r.resource.Some? ==>
      r.resource.value == Resource(at.0, at.1, n.resourceMass, NodeResourceKind(n.kind))
  {
    var t := n.spawnTimer + 1;
    if t >= n.spawnInterval then
      Spawned(n.(spawnTimer := 0),
              if !SpawnBlocked(n) && 0.0 < at.0 < width && 0.0 < at.1 < height
              then Some(Resource(at.0, at.1, n.resourceMass, NodeResourceKind(n.kind)))
              else None)
    else Spawned(n.(spawnTimer := t), None)
  }

  function SpawnTimerAfter(interval: int, k: nat): int
    decreases k
  {
    if k == 0 then 0 else SpawnTimerStep(SpawnTimerAfter(interval, k - 1), interval)
  }

  /**
   * From a fresh timer, the timer after q full intervals and t more updates
   * is t, so update number q * interval + t + 1 spawns exactly when
   * t == interval - 1: one spawn every `interval` updates.
   */
  lemma {:induction false} SpawnPeriodic(interval: int, q: nat, t: nat)
    requires interval >= 1 && t < interval
    ensures SpawnTimerAfter(interval, q * interval + t) == t
    ensures SpawnTimerAfter(interval, q * interval + t) + 1 >= interval <==> t == interval - 1
    decreases q, t
  {
    if t > 0 {
      SpawnPeriodic(interval, q, t - 1);
    } else if q > 0 {
      assert q * interval == (q - 1) * interval + (interval - 1) + 1;
      SpawnPeriodic(interval, q - 1, interval - 1);
    }
  }

  // ---------------------------------------------------------------------
  // The whole update of one node
  // ---------------------------------------------------------------------

  /** A node is valid when its counters are in the ranges `Node.update` keeps them in. */
  predicate NodeValid(n: Node) {
    && n.minMass > 0.0
    && n.spawnInterval >= 1 && 0 <= n.spawnTimer < n.spawnInterval
    && n.crimeLevel >= 0.0
    && (n.isBeingRaided ==> 0 < n.raidTimer <= PREDATOR_NODE_RAID_TIME)
  }

  predicate NodesValid(nodes: seq<Node>) {
    RaidsWellFormed(nodes) && forall k :: 0 <= k < |nodes| ==> NodeValid(nodes[k])
  }

  /** A predator-node resource inside node n's area, purged when n dies. */
  predicate InPredatorArea(r: Resource, n: Node) {
    r.kind == FromPredatorNode && Within(r.x, r.y, n.x, n.y, n.spawnRadius)
  }

  function PredatorResourceOf(n: Node): Resource -> bool {
    r => InPredatorArea(r, n)
  }

  function OptionToSeq<T>(o: Option<T>): seq<T> {
    if o.Some? then [o.value] else []
  }

  datatype NodeStep = NodeStep(nodes: seq<Node>, resources: seq<Resource>, raidStarted: bool)

  /** Some node of `before` that was not under raid is under raid in `after`. */
  predicate RaidBegan(before: seq<Node>, after: seq<Node>)
    requires |after| == |before|
  {
    exists k :: 0 <= k < |before| && !before[k].isBeingRaided && after[k].isBeingRaided
  }

  /** The update re-balances the raid force: the node is a live predator node under raid. */
  predicate Rebalances(n: Node) {
    !Marked(n) && n.kind == PredatorNode && n.isBeingRaided
  }

  /**
   * `nodes[k].update()` on the node list (the crime reset touches every
   * predator node) and the resources (the purge of a dying predator node's
   * resources, the periodic spawn). A marked node stays in the list; only
   * the end-of-frame sweep removes it. The agents enter only through the
   * size of the raid force, kept for the statistics; their reassignment is
   * `UpdateNode`'s.
   */
  function NodeUpdate(nodes: seq<Node>, k: nat, agents: seq<Agent>, resources: seq<Resource>,
                      at: (real, real), width: real, height: real): (r: NodeStep)
    requires k < |nodes|
    ensures |r.nodes| == |nodes|
    ensures r.raidStarted ==> !AnyRaidActive(nodes) && nodes[k].kind == PredatorNode && r.nodes[k].isBeingRaided
    ensures r.raidStarted <==> !nodes[k].isBeingRaided && r.nodes[k].isBeingRaided
    ensures forall j :: 0 <= j < |nodes| && j != k ==>
      r.nodes[j] == nodes[j] || (nodes[j].kind == PredatorNode && r.nodes[j] == nodes[j].(crimeLevel := 0.0))
    ensures Marked(nodes[k]) ==> r.nodes[k] == nodes[k].(mass := 0.0) && !r.raidStarted
    ensures Marked(nodes[k]) && nodes[k].kind == PredatorNode ==>
      r.resources == Without(resources, PredatorResourceOf(nodes[k]))
    ensures !Marked(nodes[k]) ==>
      |resources| <= |r.resources| <= |resources| + 1 && r.resources[..|resources|] == resources
    // A raid that ends here clears the crime level of every predator node;
    // otherwise no other node changes.
    ensures !Marked(nodes[k]) && nodes[k].isBeingRaided && !r.nodes[k].isBeingRaided ==>
      forall j :: 0 <= j < |nodes| && nodes[j].kind == PredatorNode ==> r.nodes[j].crimeLevel == 0.0
    ensures !(!Marked(nodes[k]) && nodes[k].isBeingRaided && !r.nodes[k].isBeingRaided) ==>
      forall j :: 0 <= j < |nodes| && j != k ==> r.nodes[j] == nodes[j]
  {
    var n := nodes[k];
    var d := NodeDecay(n);
    if Marked(n) then
      NodeStep(nodes[k := d],
               if n.kind == PredatorNode then Without(resources, PredatorResourceOf(n)) else resources, false)
    else
      var c :=
        if d.kind == CoopNode then d
        else if d.isBeingRaided then RaidClock(d.(currentRaidForce := CountWhere(agents, RaidersOf(d.id))), true)
        else RaidClock(d, AnyRaidActive(nodes));
      var ended := d.isBeingRaided && !c.isBeingRaided;
      var placed := if ended then ClearCrime(nodes[k := c]) else nodes[k := c];
      var s := NodeSpawn(placed[k], at, width, height);
      assert (resources + OptionToSeq(s.resource))[..|resources|] == resources;
      NodeStep(placed[k := s.node], resources + OptionToSeq(s.resource), !d.isBeingRaided && c.isBeingRaided)
  }

  /**
   * One node's update keeps the node list valid: still at most one raid,
   * and only on a predator node; raid timers within (0, PREDATOR_NODE_RAID_TIME];
   * crime levels non-negative; spawn timers below their interval.
   */
  lemma NodeUpdateKeepsValid(nodes: seq<Node>, k: nat, agents: seq<Agent>, resources: seq<Resource>,
                             at: (real, real), width: real, height: real)
    requires k < |nodes| && NodesValid(nodes)
    ensures NodesValid(NodeUpdate(nodes, k, agents, resources, at, width, height).nodes)
  {
    assert NodeValid(nodes[k]);
  }

  /**
   * The imperative `Node.update`: the splice loop of the purge, the force
   * adjustment, the crime-reset loop. The node list and resources are what
   * NodeUpdate says; the agents are re-balanced exactly when the node is a
   * live predator node under raid.
   */
  method UpdateNode(nodes: seq<Node>, k: nat, agents: seq<Agent>, resources: seq<Resource>,
                    at: (real, real), width: real, height: real) returns (r: NodeStep, after: seq<Agent>)
    requires k < |nodes|
    ensures r == NodeUpdate(nodes, k, agents, resources, at, width, height)
    ensures Rebalances(nodes[k]) ==> Balanced(agents, nodes[k], after)
    ensures !Rebalances(nodes[k]) ==> after == agents
    ensures |after| == |agents|
    ensures forall i :: 0 <= i < |agents| ==>
      after[i] == agents[i].(isRaiding := after[i].isRaiding, raidTarget := after[i].raidTarget)
  {
    var n := nodes[k];
    var d := NodeDecay(n);
    after := agents;
    if Marked(n) {
      var kept := resources;
      if n.kind == PredatorNode {
        kept := RemoveWhere(resources, PredatorResourceOf(n));
      }
      r := NodeStep(nodes[k := d], kept, false);
      return;
    }
    var c := d;
    if d.kind == PredatorNode {
      if d.isBeingRaided {
        var force;
        after, force := Balance(agents, n);
        c := RaidClock(d.(currentRaidForce := force), true);
      } else {
        c := RaidClock(d, AnyRaidActive(nodes));
      }
    }
    var placed := nodes[k := c];
    if d.isBeingRaided && !c.isBeingRaided {
      placed := ResetCrimeLevels(placed);
    }
    var s := NodeSpawn(placed[k], at, width, height);
    r := NodeStep(placed[k := s.node], resources + OptionToSeq(s.resource), !d.isBeingRaided && c.isBeingRaided);
  }
}
