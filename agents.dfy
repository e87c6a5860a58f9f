/**
 * One agent's own update (`Agent.update`): the predator-node safety flag,
 * the flag logic at the head of each AI routine, integration and clamping
 * to the arena with reflection, the immunity countdown, metabolic decay
 * and the visual level. The steering the AI routines and the avoidance
 * force compute (headings, speeds, bounces inside raided nodes) is an
 * input: `Steer` is the position and velocity they leave behind.
 */
module Agents {
  import opened Wrappers
  import opened Geometry
  import opened Entities

  /** Position and velocity after the type's AI routine and the avoidance force. */
  datatype Steer = Steer(x: real, y: real, vx: real, vy: real)

  // ---------------------------------------------------------------------
  // Flags
  // ---------------------------------------------------------------------

  /** The `isSafeInNode` scan: the point lies inside some predator node's spawn radius. */
  predicate InsidePredatorNode(x: real, y: real, nodes: seq<Node>) {
    exists k :: 0 <= k < |nodes| && nodes[k].kind == PredatorNode &&
      Within(x, y, nodes[k].x, nodes[k].y, nodes[k].spawnRadius)
  }

  predicate RaidedPredatorNode(n: Node) {
    n.isBeingRaided && n.kind == PredatorNode
  }

  /** The first raided predator node, as `enforcerAI` finds it (scan with break). */
  function FirstRaidedNode(nodes: seq<Node>): (r: Option<nat>)
    ensures r.Some? ==> r.value < |nodes| && RaidedPredatorNode(nodes[r.value])
    ensures r.Some? ==> forall k :: 0 <= k < r.value ==> !RaidedPredatorNode(nodes[k])
    ensures r.None? <==> forall k :: 0 <= k < |nodes| ==> !RaidedPredatorNode(nodes[k])
    decreases |nodes|
  {
    if |nodes| == 0 then None
    else if RaidedPredatorNode(nodes[0]) then Some(0)
    else
      var r := FirstRaidedNode(nodes[1..]);
      if r.None? then None else Some(r.value + 1)
  }

  /**
   * The raid-assignment prelude of `enforcerAI`. An enforcer keeps raiding
   * only if it is assigned to the node currently under raid; otherwise both
   * raid fields are cleared. The "join if spots are open" branch compares
   * `currentRaidForce` against the removed field `raidForceSize`, which is
   * `undefined`, so it never fires: this function never starts a raid.
   */
  function EnforcerRaidFlags(a: Agent, nodes: seq<Node>): (r: Agent)
    ensures r == a.(isRaiding := r.isRaiding, raidTarget := r.raidTarget)
    ensures r.isRaiding ==> a.isRaiding && r.raidTarget == a.raidTarget
    ensures r.isRaiding <==>
      a.isRaiding && FirstRaidedNode(nodes).Some? &&
      a.raidTarget == Some(nodes[FirstRaidedNode(nodes).value].id)
    ensures !r.isRaiding ==> r.raidTarget.None?
  {
    var t := FirstRaidedNode(nodes);
    if t.Some? && a.isRaiding && a.raidTarget == Some(nodes[t.value].id) then a
    else a.(isRaiding := false, raidTarget := None)
  }

  /** Priority 1 of `commonfolkAI`: a fleeing agent stops on reaching its node, or when it has none. */
  function FleeFlags(a: Agent): (r: Agent)
    ensures r == a.(fleeingCrime := r.fleeingCrime, fleeTarget := r.fleeTarget)
    ensures r.fleeingCrime <==>
      a.fleeingCrime && a.fleeTarget.Some? &&
      !Within(a.x, a.y, a.fleeTarget.value.x, a.fleeTarget.value.y, a.fleeTarget.value.spawnRadius)
    ensures r.fleeTarget.Some? ==> r.fleeTarget == a.fleeTarget
  {
    if !a.fleeingCrime then a
    else
      match a.fleeTarget
      case None => a.(fleeingCrime := false)
      case Some(t) =>
        if Within(a.x, a.y, t.x, t.y, t.spawnRadius) then a.(fleeingCrime := false, fleeTarget := None)
        else a
  }

  /**
   * Priority 1 of `predatorAI` and the flag of priority 2: a predator near
   * a co-op node (within its spawn radius + 20 of the nearest one) returns
   * early and leaves its flags alone; otherwise `isRaiding` marks that some
   * predator node is under raid. (The `isSafeInNode = true` of the in-raid
   * branch only re-asserts what the scan already found.)
   */
  function PredatorRaidFlag(a: Agent, nodes: seq<Node>): (r: Agent)
    ensures r == a.(isRaiding := r.isRaiding)
    ensures r.isRaiding != a.isRaiding ==> (r.isRaiding <==> FirstRaidedNode(nodes).Some?)
  {
    var keys := seq(|nodes|, k requires 0 <= k < |nodes| => DistSq(a.x, a.y, nodes[k].x, nodes[k].y));
    var ok := seq(|nodes|, k requires 0 <= k < |nodes| => nodes[k].kind == CoopNode);
    var c := FirstMin(keys, ok, None);
    if c.Some? && Within(a.x, a.y, nodes[c.value].x, nodes[c.value].y, nodes[c.value].spawnRadius + 20.0) then a
    else a.(isRaiding := FirstRaidedNode(nodes).Some?)
  }

  /** The flag updates of the type's AI routine. */
  function AiFlags(a: Agent, nodes: seq<Node>): (r: Agent)
    ensures r.id == a.id && r.kind == a.kind && r.mass == a.mass && r.radius == a.radius
    ensures r.x == a.x && r.y == a.y && r.immunityTimer == a.immunityTimer
    ensures r.crimeCount == a.crimeCount && r.sharedWithDefectors == a.sharedWithDefectors
    ensures r.excludedDefectors == a.excludedDefectors && r.isSafeInNode == a.isSafeInNode
    ensures a.kind == Enforcer && r.isRaiding ==> a.isRaiding
  {
    match a.kind
    case Enforcer => EnforcerRaidFlags(a, nodes)
    case Predator => PredatorRaidFlag(a, nodes)
    case _ => FleeFlags(a)
  }

  // ---------------------------------------------------------------------
  // Movement bookkeeping
  // ---------------------------------------------------------------------

  /** `Math.max(1, this.radius || 1)`. */
  function SafeRadius(a: Agent): (r: real)
    ensures r >= 1.0
  {
    Max(1.0, OrOne(a.radius))
  }

  /**
   * One axis of "move, clamp to [safeR, size - safeR], reverse the
   * velocity when the clamped coordinate sits on a bound".
   */
  function ClampAxis(p: real, v: real, size: real, safeR: real): (r: (real, real))
    ensures safeR <= size - safeR ==> safeR <= r.0 <= size - safeR
    ensures safeR <= p + v <= size - safeR ==> r.0 == p + v
    ensures r.0 == safeR || r.0 == size - safeR ==> r.1 == -v
    ensures r.0 != safeR && r.0 != size - safeR ==> r.1 == v
  {
    var q := Max(safeR, Min(p + v, size - safeR));
    (q, if q == safeR || q == size - safeR then -v else v)
  }

  /** `BASE_MASS_DECAY + mass * MASS_DECAY_RATE`. */
  function DecayAmount(mass: real, baseDecay: real): real {
    baseDecay + mass * MASS_DECAY_RATE
  }

  /** Metabolic decay with the clamp to the death floor. */
  function Decay(mass: real, baseDecay: real): (m: real)
    ensures m >= AGENT_DEATH_THRESHOLD
    ensures mass - DecayAmount(mass, baseDecay) >= AGENT_DEATH_THRESHOLD ==> m == mass - DecayAmount(mass, baseDecay)
    ensures mass - DecayAmount(mass, baseDecay) < AGENT_DEATH_THRESHOLD ==> m == AGENT_DEATH_THRESHOLD
  {
    var m := mass - DecayAmount(mass, baseDecay);
    if m < AGENT_DEATH_THRESHOLD then AGENT_DEATH_THRESHOLD else m
  }

  /** `if (this.immunityTimer > 0) this.immunityTimer--`. */
  function CountDown(t: int): (r: int)
    ensures t > 0 ==> r == t - 1
    ensures t <= 0 ==> r == t
  {
    if t > 0 then t - 1 else t
  }

  /**
   * `Agent.update`. `radiusOf` is `calculateRadius`; the clamp uses the
   * radius from before the update, as the source does.
   */
  function AgentTick(a: Agent, nodes: seq<Node>, steer: Steer, width: real, height: real,
                     baseDecay: real, radiusOf: real -> real): (r: Agent)
    ensures r.id == a.id && r.kind == a.kind && r.ability == a.ability && r.baseSpeed == a.baseSpeed
    ensures r.crimeCount == a.crimeCount
    ensures r.sharedWithDefectors == a.sharedWithDefectors && r.excludedDefectors == a.excludedDefectors
    ensures r.mass == Decay(a.mass, baseDecay) && r.mass >= AGENT_DEATH_THRESHOLD
    ensures r.radius == radiusOf(r.mass) && r.visualLevel == VisualLevel(r.mass)
    ensures r.immunityTimer == CountDown(a.immunityTimer)
    ensures r.isSafeInNode == InsidePredatorNode(a.x, a.y, nodes)
    ensures 2.0 * SafeRadius(a) <= width ==> SafeRadius(a) <= r.x <= width - SafeRadius(a)
    ensures 2.0 * SafeRadius(a) <= height ==> SafeRadius(a) <= r.y <= height - SafeRadius(a)
    ensures a.kind == Enforcer && r.isRaiding ==> a.isRaiding
  {
    var a1 := a.(isSafeInNode := InsidePredatorNode(a.x, a.y, nodes));
    var a2 := AiFlags(a1, nodes);
    var sr := SafeRadius(a2);
    var px := ClampAxis(steer.x, steer.vx, width, sr);
    var py := ClampAxis(steer.y, steer.vy, height, sr);
    var m := Decay(a2.mass, baseDecay);
    a2.(x := px.0, y := py.0, vx := px.1, vy := py.1,
        immunityTimer := CountDown(a2.immunityTimer),
        mass := m, radius := radiusOf(m), visualLevel := VisualLevel(m))
  }

  // ---------------------------------------------------------------------
  // Decay over many ticks: a lone agent with no income
  // ---------------------------------------------------------------------

  /** The mass after n ticks of decay and nothing else. */
  function DecayTicks(mass: real, baseDecay: real, n: nat): real
    decreases n
  {
    if n == 0 then mass else Decay(DecayTicks(mass, baseDecay, n - 1), baseDecay)
  }

  /** From a non-negative mass, one tick removes at least the base decay, or stops at the floor. */
  lemma DecayAtLeastBase(mass: real, baseDecay: real)
    requires mass >= 0.0
    ensures Decay(mass, baseDecay) <= Max(AGENT_DEATH_THRESHOLD, mass - baseDecay)
  {
    assert mass * MASS_DECAY_RATE >= 0.0;
  }

  /** n times the base decay, accumulated tick by tick. */
  function Spent(baseDecay: real, n: nat): (r: real)
    ensures r == n as real * baseDecay
    decreases n
  {
    if n == 0 then 0.0 else Spent(baseDecay, n - 1) + baseDecay
  }

  /**
   * Without income an agent never goes below the floor and after n ticks
   * is no heavier than max(floor, mass - n * baseDecay).
   */
  lemma {:induction false} DecayTicksBound(mass: real, baseDecay: real, n: nat)
    requires mass >= AGENT_DEATH_THRESHOLD
    ensures AGENT_DEATH_THRESHOLD <= DecayTicks(mass, baseDecay, n)
    ensures DecayTicks(mass, baseDecay, n) <= Max(AGENT_DEATH_THRESHOLD, mass - Spent(baseDecay, n))
    decreases n
  {
    if n > 0 {
      DecayTicksBound(mass, baseDecay, n - 1);
      DecayAtLeastBase(DecayTicks(mass, baseDecay, n - 1), baseDecay);
    }
  }

  /** With a positive base decay the floor is reached after (mass - floor) / baseDecay ticks. */
  lemma DecayReachesFloor(mass: real, baseDecay: real, n: nat)
    requires mass >= AGENT_DEATH_THRESHOLD && baseDecay > 0.0
    requires n as real * baseDecay >= mass - AGENT_DEATH_THRESHOLD
    ensures DecayTicks(mass, baseDecay, n) == AGENT_DEATH_THRESHOLD
  {
    DecayTicksBound(mass, baseDecay, n);
  }
}
