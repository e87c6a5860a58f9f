/**
 * The entity records of the simulation and its constants: agents,
 * resources, nodes, jail entries, crime events, the counters record and the
 * configuration read at reset time.
 */
module Entities {
  import opened Wrappers
  import opened Geometry

  // ---------------------------------------------------------------------
  // Constants (v03.js:43-109 and literals inside the functions)
  // ---------------------------------------------------------------------

  const TAX_RATE: real := 0.01
  const TOP_AGENT_TAX_COUNT: nat := 5
  const ENFORCER_SPAWN_THRESHOLD: real := 2500.0
  const ENFORCER_START_MASS: real := 1000.0
  const NODE_MASS_THRESHOLD: real := 10000.0
  const NODE_START_MASS: real := 2000.0
  const NODE_SPAWN_RADIUS: real := 150.0
  const NODE_RESOURCE_MASS: real := 50.0
  const NODE_DECAY_RATE: real := 0.1
  const NODE_MINIMUM_MASS: real := 100.0
  const BRIBE_RATE: real := 0.1
  const POPULATION_RESEED_CHANCE: real := 0.01
  const RESOURCE_SPAWN_RATE: real := 0.5
  const MAX_RESOURCE_COUNT: nat := 150
  const MASS_DECAY_RATE: real := 0.00005
  /** Every agent's `MINIMUM_MASS`, its death floor. */
  const AGENT_DEATH_THRESHOLD: real := 5.0
  const PREDATOR_NODE_CONTRIBUTION_RATE: real := 0.10
  const PREDATOR_NODE_MASS_THRESHOLD: real := 20000.0
  const PREDATOR_NODE_CRIME_THRESHOLD: real := 4000.0
  const PREDATOR_NODE_RADIUS_MULTIPLIER: real := 0.707
  const PREDATOR_NODE_START_MASS: real := NODE_START_MASS * 0.5
  const PREDATOR_NODE_SPAWN_RADIUS: real := NODE_SPAWN_RADIUS * PREDATOR_NODE_RADIUS_MULTIPLIER
  const PREDATOR_NODE_RESOURCE_MASS: real := NODE_RESOURCE_MASS * 0.5
  const PREDATOR_NODE_MINIMUM_MASS: real := NODE_MINIMUM_MASS * 0.5
  const PREDATOR_NODE_RAID_TIME: int := 3000
  /** The cooldown a node enters when its raid ends (a literal in Node.update). */
  const RAID_COOLDOWN_TIME: int := 3000
  const RAID_COMBAT_DRAIN_RATE: real := 10.0
  const CRIME_FLEE_RADIUS: real := 150.0
  /** Crime events older than this many ticks are forgotten. */
  const CRIME_MEMORY_TICKS: int := 60
  const LEVEL_1_MASS_THRESHOLD: real := ENFORCER_START_MASS * 1.5
  const LEVEL_2_MASS_THRESHOLD: real := ENFORCER_START_MASS * 3.0
  const LEVEL_3_MASS_THRESHOLD: real := ENFORCER_START_MASS * 5.0
  /** INITIAL_RADIUS * INITIAL_RADIUS * Math.PI, as the double the source computes. */
  const BASE_AGENT_MASS: real := 314.1592653589793
  /** Immunity granted to a predator placed with no predator node to hide in. */
  const RESPAWN_IMMUNITY: int := 300
  const NODE_SPAWN_INTERVAL: int := 100
  const NODE_PLACEMENT_ATTEMPTS: nat := 10
  const NORMAL_RESOURCE_RADIUS: real := 2.0
  const NODE_RESOURCE_RADIUS: real := 4.0
  const MAX_SPEED: real := 0.8
  /** `Math.PI` as a double. */
  const PI: real := 3.141592653589793

  // ---------------------------------------------------------------------
  // Entities
  // ---------------------------------------------------------------------

  datatype AgentType = Cooperator | Defector | Competitor | Predator | Enforcer {
    /** Cooperators, defectors and competitors: the types `commonfolkAI` drives. */
    predicate IsCommonfolk() { this != Predator && this != Enforcer }
  }

  datatype NodeKind = CoopNode | PredatorNode

  datatype ResourceKind = Normal | FromCoopNode | FromPredatorNode

  /** The node a fleeing commonfolk agent runs to; nodes never move, so a copy suffices. */
  datatype FleeTarget = FleeTarget(x: real, y: real, spawnRadius: real)

  datatype Agent = Agent(
    id: nat,
    kind: AgentType,
    x: real, y: real,
    vx: real, vy: real,
    mass: real,
    radius: real,
    ability: real,
    baseSpeed: real,
    visualLevel: nat,
    isSafeInNode: bool,
    isRaiding: bool,
    raidTarget: Option<nat>,
    immunityTimer: int,
    crimeCount: nat,
    fleeingCrime: bool,
    fleeTarget: Option<FleeTarget>,
    sharedWithDefectors: map<nat, int>,
    excludedDefectors: set<nat>)

  datatype Resource = Resource(x: real, y: real, mass: real, kind: ResourceKind) {
    /** Node resources are drawn (and collide) bigger than ambient ones. */
    function Radius(): real {
      if kind == Normal then NORMAL_RESOURCE_RADIUS else NODE_RESOURCE_RADIUS
    }
  }

  datatype Node = Node(
    id: nat,
    kind: NodeKind,
    x: real, y: real,
    mass: real,
    spawnRadius: real,
    resourceMass: real,
    minMass: real,
    spawnTimer: int,
    spawnInterval: int,
    crimeLevel: real,
    isBeingRaided: bool,
    raidTimer: int,
    raidCooldownTimer: int,
    currentRaidForce: nat)

  datatype JailEntry = JailEntry(agent: Agent, releaseTime: int)

  datatype CrimeEvent = CrimeEvent(x: real, y: real, time: int)

  /** `global.stats`, without `enforcersActive`, which only the display code writes. */
  datatype Stats = Stats(
    nodesBuilt: nat,
    predatorMassRecovered: real,
    defectorExclusions: nat,
    defectorPunishmentsNode: nat,
    arrestsMade: nat,
    theftsCommitted: nat,
    bribesPaid: nat,
    corruptEnforcersCaught: nat,
    predatorNodesBuilt: nat,
    predatorNodeRaids: nat,
    predatorNodeResourcesConsumed: nat)

  const ZERO_STATS: Stats := Stats(0, 0.0, 0, 0, 0, 0, 0, 0, 0, 0, 0)

  /** No event counter went down from s to t (the recovered mass is a sum of masses, not a count). */
  predicate StatsGrew(s: Stats, t: Stats) {
    && s.nodesBuilt <= t.nodesBuilt
    && s.defectorExclusions <= t.defectorExclusions
    && s.defectorPunishmentsNode <= t.defectorPunishmentsNode
    && s.arrestsMade <= t.arrestsMade
    && s.theftsCommitted <= t.theftsCommitted
    && s.bribesPaid <= t.bribesPaid
    && s.corruptEnforcersCaught <= t.corruptEnforcersCaught
    && s.predatorNodesBuilt <= t.predatorNodesBuilt
    && s.predatorNodeRaids <= t.predatorNodeRaids
    && s.predatorNodeResourcesConsumed <= t.predatorNodeResourcesConsumed
  }

  /**
   * GLOBAL_CONFIG after `updateConfigFromUI`. The input parsing and its
   * fallbacks are display glue; the values are taken as already parsed.
   */
  datatype Config = Config(
    startCooperators: int,
    startCompetitors: int,
    startDefectors: int,
    startPredators: int,
    enforcerSalary: real,
    enforcerVision: real,
    jailTime: int,
    bribeChancePercent: real,
    cooperationRange: real,
    defectorExclusionThreshold: int,
    predatorTheftRate: real,
    predatorAvoidanceRange: real,
    nodeContributionRate: real,
    nodePunishRate: real,
    resourceMassGain: real,
    baseMassDecay: real,
    naturalCooperator: real,
    naturalCompetitor: real,
    naturalDefector: real,
    naturalPredator: real)

  // ---------------------------------------------------------------------
  // Derived values
  // ---------------------------------------------------------------------

  /** `updateVisualLevel`: how many of the three level thresholds the mass has reached. */
  function VisualLevel(mass: real): (level: nat)
    ensures level <= 3
    ensures level >= 1 <==> mass >= LEVEL_1_MASS_THRESHOLD
    ensures level >= 2 <==> mass >= LEVEL_2_MASS_THRESHOLD
    ensures level >= 3 <==> mass >= LEVEL_3_MASS_THRESHOLD
  {
    if mass >= LEVEL_3_MASS_THRESHOLD then 3
    else if mass >= LEVEL_2_MASS_THRESHOLD then 2
    else if mass >= LEVEL_1_MASS_THRESHOLD then 1
    else 0
  }

  /** Heavier agents never show a lower level. */
  lemma VisualLevelMonotone(m1: real, m2: real)
    requires m1 <= m2
    ensures VisualLevel(m1) <= VisualLevel(m2)
  {
  }

  /** The four natural fractions, in the order cooperator, competitor, defector, predator. */
  datatype Naturals = Naturals(cooperator: real, competitor: real, defector: real, predator: real) {
    function Sum(): real { cooperator + competitor + defector + predator }
  }

  /**
   * The natural-percentage block of `updateConfigFromUI`: each starting
   * count divided by their total, or a quarter each when the total is not
   * positive. Enforcers take no part.
   */
  function NaturalPercents(coop: int, comp: int, def: int, pred: int): (n: Naturals)
    ensures n.Sum() == 1.0
    ensures coop + comp + def + pred > 0 ==>
      n.cooperator * (coop + comp + def + pred) as real == coop as real &&
      n.competitor * (coop + comp + def + pred) as real == comp as real &&
      n.defector * (coop + comp + def + pred) as real == def as real &&
      n.predator * (coop + comp + def + pred) as real == pred as real
    ensures coop + comp + def + pred <= 0 ==> n == Naturals(0.25, 0.25, 0.25, 0.25)
  {
    var total := coop + comp + def + pred;
    if total > 0 then
      var t := total as real;
      Shares(coop as real, comp as real, def as real, pred as real, t);
      Naturals(coop as real / t, comp as real / t, def as real / t, pred as real / t)
    else
      Naturals(0.25, 0.25, 0.25, 0.25)
  }

  /** Four parts of a positive whole, each divided by it, add up to one and scale back. */
  lemma Shares(a: real, b: real, c: real, d: real, t: real)
    requires t > 0.0 && a + b + c + d == t
    ensures a / t + b / t + c / t + d / t == 1.0
    ensures (a / t) * t == a && (b / t) * t == b && (c / t) * t == c && (d / t) * t == d
  {
    assert a / t + b / t + c / t + d / t == (a + b + c + d) / t;
  }

  /** With non-negative starting counts every natural fraction is a proportion. */
  lemma NaturalPercentsAreFractions(coop: nat, comp: nat, def: nat, pred: nat)
    ensures var n := NaturalPercents(coop, comp, def, pred);
      0.0 <= n.cooperator <= 1.0 && 0.0 <= n.competitor <= 1.0 &&
      0.0 <= n.defector <= 1.0 && 0.0 <= n.predator <= 1.0
  {
    var n := NaturalPercents(coop, comp, def, pred);
    var total := coop + comp + def + pred;
    if total > 0 {
      var t := total as real;
      assert n.cooperator == coop as real / t;
      assert n.competitor == comp as real / t;
      assert n.defector == def as real / t;
      assert n.predator == pred as real / t;
    }
  }

  /** The `radius || 1` guard: a zero radius counts as 1. */
  function OrOne(r: real): real {
    if r == 0.0 then 1.0 else r
  }

  /** Agent-agent collision: `distance < (a.radius || 1) + (b.radius || 1)`. */
  predicate AgentsCollide(a: Agent, b: Agent) {
    Within(a.x, a.y, b.x, b.y, OrOne(a.radius) + OrOne(b.radius))
  }

  /** Agent-resource collision. */
  predicate TouchesResource(a: Agent, r: Resource) {
    Within(a.x, a.y, r.x, r.y, OrOne(a.radius) + r.Radius())
  }

  /** Random draws an agent's constructor makes, plus the id it is given. */
  datatype Fresh = Fresh(id: nat, ability: real, rollVx: real, rollVy: real)

  /**
   * `new Agent(x, y, type)`: enforcers start at ENFORCER_START_MASS, every
   * other type at the base mass; flags, counters and bookkeeping start
   * empty. The radius is `calculateRadius` (here `radiusOf`) of that mass.
   */
  function NewAgent(f: Fresh, x: real, y: real, kind: AgentType, radiusOf: real -> real): (a: Agent)
    ensures a.id == f.id && a.kind == kind && a.x == x && a.y == y
    ensures a.mass == if kind == Enforcer then ENFORCER_START_MASS else BASE_AGENT_MASS
    ensures a.mass > AGENT_DEATH_THRESHOLD && a.radius == radiusOf(a.mass)
    ensures !a.isRaiding && a.raidTarget.None? && !a.fleeingCrime && a.immunityTimer == 0
    ensures a.crimeCount == 0 && a.visualLevel == 0
    ensures a.sharedWithDefectors == map[] && a.excludedDefectors == {}
  {
    var baseSpeed := (0.5 + f.ability * 5.0) * MAX_SPEED;
    var mass := if kind == Enforcer then ENFORCER_START_MASS else BASE_AGENT_MASS;
    Agent(f.id, kind, x, y,
          (f.rollVx - 0.5) * baseSpeed, (f.rollVy - 0.5) * baseSpeed,
          mass, radiusOf(mass), f.ability, baseSpeed, 0,
          false, false, None, 0, 0, false, None, map[], {})
  }

  /** `new Node(x, y, nodeType)` with the per-kind constants. */
  function NewNode(id: nat, x: real, y: real, kind: NodeKind): (n: Node)
    ensures n.id == id && n.kind == kind && n.x == x && n.y == y
    ensures n.mass > n.minMass > 0.0
    ensures n.spawnTimer == 0 && n.spawnInterval == NODE_SPAWN_INTERVAL
    ensures n.crimeLevel == 0.0 && !n.isBeingRaided && n.raidTimer == 0 && n.raidCooldownTimer == 0
    ensures n.spawnRadius == if kind == CoopNode then NODE_SPAWN_RADIUS else PREDATOR_NODE_SPAWN_RADIUS
  {
    if kind == CoopNode then
      Node(id, kind, x, y, NODE_START_MASS, NODE_SPAWN_RADIUS, NODE_RESOURCE_MASS,
           NODE_MINIMUM_MASS, 0, NODE_SPAWN_INTERVAL, 0.0, false, 0, 0, 0)
    else
      Node(id, kind, x, y, PREDATOR_NODE_START_MASS, PREDATOR_NODE_SPAWN_RADIUS,
           PREDATOR_NODE_RESOURCE_MASS, PREDATOR_NODE_MINIMUM_MASS, 0,
           NODE_SPAWN_INTERVAL, 0.0, false, 0, 0, 0)
  }

  // ---------------------------------------------------------------------
  // Whole-list views used by several subsystems
  // ---------------------------------------------------------------------

  /** `isAnyRaidActive`: some node has its raid flag up. */
  predicate AnyRaidActive(nodes: seq<Node>) {
    exists k :: 0 <= k < |nodes| && nodes[k].isBeingRaided
  }

  /** Some node is a predator node. */
  predicate AnyPredatorNode(nodes: seq<Node>) {
    exists k :: 0 <= k < |nodes| && nodes[k].kind == PredatorNode
  }

  /** At most one node is being raided, and only predator nodes ever are. */
  predicate RaidsWellFormed(nodes: seq<Node>) {
    && (forall k :: 0 <= k < |nodes| && nodes[k].isBeingRaided ==> nodes[k].kind == PredatorNode)
    && (forall k, l :: 0 <= k < l < |nodes| && nodes[k].isBeingRaided ==> !nodes[l].isBeingRaided)
  }
}
