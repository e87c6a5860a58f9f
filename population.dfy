/**
 * Where agents come back from: `updateJail`, which releases every jail
 * entry whose release tick has come, and `updatePopulationDynamics`, which
 * now and then adds one agent of each commonfolk or predator type whose
 * head count (alive plus jailed) has fallen below its natural share of the
 * whole population. Released agents and reseeded predators land inside a
 * predator node, a raided one if there is one, or anywhere with a spell of
 * immunity when there is no predator node at all.
 */
module Population {
  import opened Wrappers
  import opened Geometry
  import opened Entities
  import opened Counting
  import opened Agents

  // ---------------------------------------------------------------------
  // Landing spots
  // ---------------------------------------------------------------------

  /**
   * The draws one landing needs: which candidate node, the cosine and sine
   * of the random angle (trigonometry is outside the model), how far out
   * as a fraction, and the two coordinates used when there is no node.
   */
  datatype Placement = Placement(nodeRoll: real, cos: real, sin: real, distRoll: real, xRoll: real, yRoll: real)

  predicate CalmPredatorNode(n: Node) {
    n.kind == PredatorNode && !n.isBeingRaided
  }

  /** `nodes.filter(p)`, as indices. */
  function IndicesWhere(nodes: seq<Node>, p: Node -> bool): (r: seq<nat>)
    ensures forall j :: 0 <= j < |r| ==> r[j] < |nodes| && p(nodes[r[j]])
    ensures forall k :: 0 <= k < |nodes| && p(nodes[k]) ==> k in r
    decreases |nodes|
  {
    if |nodes| == 0 then []
    else
      var n := |nodes| - 1;
      var r := IndicesWhere(nodes[..n], p);
      assert forall k :: 0 <= k < n ==> nodes[..n][k] == nodes[k];
      if p(nodes[n]) then r + [n] else r
  }

  /** The candidate nodes: the raided predator nodes if any, else the others. */
  function Hideouts(nodes: seq<Node>): (r: seq<nat>)
    ensures forall j :: 0 <= j < |r| ==> r[j] < |nodes| && nodes[r[j]].kind == PredatorNode
  {
    var raided := IndicesWhere(nodes, RaidedPredatorNode);
    if |raided| > 0 then raided else IndicesWhere(nodes, CalmPredatorNode)
  }

  /** The node a placement picks, if there is a predator node. */
  function Hideout(nodes: seq<Node>, roll: real): (h: Option<nat>)
    requires 0.0 <= roll < 1.0
    ensures h.Some? ==> h.value < |nodes| && nodes[h.value].kind == PredatorNode
  {
    var c := Hideouts(nodes);
    if |c| == 0 then None else Some(c[Pick(roll, |c|)])
  }

  /** Where an agent lands and the immunity it is given. */
  datatype Landing = Landing(x: real, y: real, immunity: int)

  /** A point inside node n, at the drawn angle and at the drawn fraction of 0.9 of its radius. */
  function NodeLanding(n: Node, d: Placement): Landing {
    var r := d.distRoll * (n.spawnRadius * 0.9);
    Landing(n.x + d.cos * r, n.y + d.sin * r, 0)
  }

  function Land(nodes: seq<Node>, d: Placement, width: real, height: real): (l: Landing)
    requires 0.0 <= d.nodeRoll < 1.0
  {
    match Hideout(nodes, d.nodeRoll)
    case Some(k) => NodeLanding(nodes[k], d)
    case None => Landing(d.xRoll * width, d.yRoll * height, RESPAWN_IMMUNITY)
  }

  /**
   * A predator node, when there is one, is always chosen, and a raided one
   * whenever one exists; the immunity is 300 exactly when there is none.
   */
  lemma HideoutFacts(nodes: seq<Node>, roll: real)
    requires 0.0 <= roll < 1.0
    ensures Hideout(nodes, roll).Some? <==> AnyPredatorNode(nodes)
    ensures Hideout(nodes, roll).Some? ==> nodes[Hideout(nodes, roll).value].kind == PredatorNode
    ensures Hideout(nodes, roll).Some? && (exists k :: 0 <= k < |nodes| && RaidedPredatorNode(nodes[k])) ==>
      nodes[Hideout(nodes, roll).value].isBeingRaided
  {
    var raided := IndicesWhere(nodes, RaidedPredatorNode);
    var calm := IndicesWhere(nodes, CalmPredatorNode);
    if AnyPredatorNode(nodes) {
      var k :| 0 <= k < |nodes| && nodes[k].kind == PredatorNode;
      if nodes[k].isBeingRaided {
        assert k in raided;
      } else {
        assert k in calm;
      }
    }
    if exists k :: 0 <= k < |nodes| && RaidedPredatorNode(nodes[k]) {
      var k :| 0 <= k < |nodes| && RaidedPredatorNode(nodes[k]);
      assert k in raided;
    }
  }

  lemma LandImmunity(nodes: seq<Node>, d: Placement, width: real, height: real)
    requires 0.0 <= d.nodeRoll < 1.0
    ensures Land(nodes, d, width, height).immunity == if AnyPredatorNode(nodes) then 0 else RESPAWN_IMMUNITY
  {
    HideoutFacts(nodes, d.nodeRoll);
  }

  /** With a true angle and a fraction in [0, 1), the landing is strictly inside the chosen node. */
  lemma LandInside(nodes: seq<Node>, d: Placement, width: real, height: real)
    requires 0.0 <= d.nodeRoll < 1.0 && 0.0 <= d.distRoll < 1.0 && d.cos * d.cos + d.sin * d.sin == 1.0
    requires forall k :: 0 <= k < |nodes| && nodes[k].kind == PredatorNode ==> nodes[k].spawnRadius > 0.0
    ensures var h := Hideout(nodes, d.nodeRoll); var l := Land(nodes, d, width, height);
      h.Some? ==> Within(l.x, l.y, nodes[h.value].x, nodes[h.value].y, nodes[h.value].spawnRadius)
  {
    var h := Hideout(nodes, d.nodeRoll);
    if h.Some? {
      var n := nodes[h.value];
      assert n.spawnRadius > 0.0;
      assert Land(nodes, d, width, height) == NodeLanding(n, d);
      InsideCircle(n.x, n.y, d.cos, d.sin, d.distRoll, n.spawnRadius);
    }
  }

  /** A point at a fraction below 0.9 of the radius along a unit direction lies inside the circle. */
  lemma InsideCircle(x: real, y: real, c: real, s: real, f: real, R: real)
    requires c * c + s * s == 1.0 && 0.0 <= f < 1.0 && R > 0.0
    ensures Within(x + c * (f * (R * 0.9)), y + s * (f * (R * 0.9)), x, y, R)
  {
    var w := R * 0.9;
    var r := f * w;
    MulBounds(f, w);
    assert 0.0 <= r < w;
    assert w < R;
    SquareBelow(r, R);
    CircleDistance(x, y, c, s, r);
  }

  lemma MulBounds(a: real, w: real)
    requires 0.0 <= a < 1.0 && w > 0.0
    ensures 0.0 <= a * w < w
  {
    MulPositive(1.0 - a, w);
    MulNonNegative(a, w);
  }

  lemma CircleDistance(x: real, y: real, c: real, s: real, r: real)
    requires c * c + s * s == 1.0
    ensures DistSq(x + c * r, y + s * r, x, y) == r * r
  {
    assert DistSq(x + c * r, y + s * r, x, y) == (c * r) * (c * r) + (s * r) * (s * r);
    assert (c * r) * (c * r) + (s * r) * (s * r) == (c * c + s * s) * (r * r);
  }

  lemma SquareBelow(r: real, R: real)
    requires 0.0 <= r < R
    ensures R > 0.0 && r * r < R * R
  {
    MulNonNegative(R - r, r);
    assert (R - r) * r == R * r - r * r;
    MulPositive(R - r, R);
    calc {
      r * r;
    ==
      R * r - (R - r) * r;
    <=
      R * r;
    ==
      R * R - (R - r) * R;
    <
      R * R;
    }
  }

  // ---------------------------------------------------------------------
  // Jail release
  // ---------------------------------------------------------------------

  /** The draws a release needs: the landing and the two velocity rolls. */
  datatype Release = Release(place: Placement, rollVx: real, rollVy: real)

  /** The reset mass: the base mass, raised to the death floor if it were below it. */
  const RESET_MASS: real := Max(BASE_AGENT_MASS, AGENT_DEATH_THRESHOLD)

  predicate Due(e: JailEntry, frame: int) {
    frame >= e.releaseTime
  }

  /** `jailEntry.releaseTime <= gameFrame`, as a test on entries. */
  function DueAt(frame: int): JailEntry -> bool {
    e => Due(e, frame)
  }

  /** One draw per jail entry, each node roll a `Math.random()` value. */
  predicate DrawsFor(jail: seq<JailEntry>, draws: seq<Release>) {
    |draws| == |jail| && forall i :: 0 <= i < |draws| ==> 0.0 <= draws[i].place.nodeRoll < 1.0
  }

  /**
   * The released agent: landed, mass reset (radius from `calculateRadius`
   * for the reset mass, given as `resetRadius`), visual level and crime count zeroed, velocity
   * drawn afresh. Every other field keeps its value from the arrest.
   */
  function Freed(a: Agent, nodes: seq<Node>, d: Release, width: real, height: real, resetRadius: real): (r: Agent)
    requires 0.0 <= d.place.nodeRoll < 1.0
  {
    var l := Land(nodes, d.place, width, height);
    a.(x := l.x, y := l.y, immunityTimer := l.immunity,
       mass := RESET_MASS, radius := resetRadius, visualLevel := 0, crimeCount := 0,
       vx := (d.rollVx - 0.5) * a.baseSpeed, vy := (d.rollVy - 0.5) * a.baseSpeed)
  }

  /**
   * The agents the backward scan over jail[i..] pushes, in push order:
   * the highest index first. Entry k uses draw k.
   */
  function Releases(jail: seq<JailEntry>, i: nat, frame: int, nodes: seq<Node>, draws: seq<Release>,
                    width: real, height: real, resetRadius: real): (r: seq<Agent>)
    requires i <= |jail| && DrawsFor(jail, draws)
    decreases |jail| - i
  {
    if i == |jail| then []
    else
      Releases(jail, i + 1, frame, nodes, draws, width, height, resetRadius) +
      (if Due(jail[i], frame) then [Freed(jail[i].agent, nodes, draws[i], width, height, resetRadius)] else [])
  }

  /** `updateJail`: the backward scan that pushes the released agents and splices their entries out. */
  method ReleaseDue(agents: seq<Agent>, jail: seq<JailEntry>, frame: int, nodes: seq<Node>, draws: seq<Release>,
                    width: real, height: real, resetRadius: real)
    returns (out: seq<Agent>, kept: seq<JailEntry>)
    requires DrawsFor(jail, draws)
    ensures out == agents + Releases(jail, 0, frame, nodes, draws, width, height, resetRadius)
    ensures kept == Without(jail, DueAt(frame))
  {
    out, kept := agents, jail;
    var i := |jail|;
    while i > 0
      invariant 0 <= i <= |jail|
      invariant kept == jail[..i] + Without(jail[i..], DueAt(frame))
      invariant out == agents + Releases(jail, i, frame, nodes, draws, width, height, resetRadius)
    {
      i := i - 1;
      ghost var rest := Without(jail[i + 1..], DueAt(frame));
      WithoutStep(jail, i, DueAt(frame));
      assert jail[..i + 1] == jail[..i] + [jail[i]];
      assert kept == jail[..i] + [jail[i]] + rest;
      assert kept[..i] == jail[..i] && kept[i] == jail[i] && kept[i + 1..] == rest;
      if Due(kept[i], frame) {
        out := out + [Freed(kept[i].agent, nodes, draws[i], width, height, resetRadius)];
        kept := kept[..i] + kept[i + 1..];
      } else {
        assert kept == jail[..i] + ([jail[i]] + rest);
      }
    }
    assert jail[..0] == [] && jail[0..] == jail;
  }

  /** Number of jailed agents of one type. */
  function JailCensus(jail: seq<JailEntry>, kind: AgentType): nat
    decreases |jail|
  {
    if |jail| == 0 then 0 else (if jail[0].agent.kind == kind then 1 else 0) + JailCensus(jail[1..], kind)
  }

  /**
   * Release moves agents from the jail to the list and loses or adds
   * nobody: for every type, alive plus jailed is the same afterwards.
   */
  lemma {:induction false} ReleaseKeepsHeadcount(jail: seq<JailEntry>, i: nat, frame: int, nodes: seq<Node>,
                                                 draws: seq<Release>, width: real, height: real,
                                                 resetRadius: real, kind: AgentType)
    requires i <= |jail| && DrawsFor(jail, draws)
    ensures Census(Releases(jail, i, frame, nodes, draws, width, height, resetRadius), kind) +
            JailCensus(Without(jail[i..], DueAt(frame)), kind) == JailCensus(jail[i..], kind)
    decreases |jail| - i
  {
    if i < |jail| {
      ReleaseKeepsHeadcount(jail, i + 1, frame, nodes, draws, width, height, resetRadius, kind);
      WithoutStep(jail, i, DueAt(frame));
      var prev := Releases(jail, i + 1, frame, nodes, draws, width, height, resetRadius);
      assert jail[i..][0] == jail[i] && jail[i..][1..] == jail[i + 1..];
      assert JailCensus(jail[i..], kind) == (if jail[i].agent.kind == kind then 1 else 0) + JailCensus(jail[i + 1..], kind);
      if Due(jail[i], frame) {
        var a := Freed(jail[i].agent, nodes, draws[i], width, height, resetRadius);
        assert a.kind == jail[i].agent.kind;
        CensusAppend(prev, a, kind);
        assert Without(jail[i..], DueAt(frame)) == Without(jail[i + 1..], DueAt(frame)) by {
          assert [] + Without(jail[i + 1..], DueAt(frame)) == Without(jail[i + 1..], DueAt(frame));
        }
      } else {
        assert prev + [] == prev;
        var rest := Without(jail[i + 1..], DueAt(frame));
        assert ([jail[i]] + rest)[0] == jail[i] && ([jail[i]] + rest)[1..] == rest;
      }
    } else {
      assert jail[i..] == [];
    }
  }

  /** Every due entry of jail[i..] was released into r. */
  predicate AllDueReleased(r: seq<Agent>, jail: seq<JailEntry>, i: nat, frame: int, nodes: seq<Node>,
                           draws: seq<Release>, width: real, height: real, resetRadius: real)
    requires DrawsFor(jail, draws)
  {
    forall k :: i <= k < |jail| && Due(jail[k], frame) ==> Freed(jail[k].agent, nodes, draws[k], width, height, resetRadius) in r
  }

  /**
   * Every due entry's agent is released with that entry's draw, and there
   * are exactly as many releases as entries leaving the jail.
   */
  lemma {:induction false} ReleasesFacts(jail: seq<JailEntry>, i: nat, frame: int, nodes: seq<Node>,
                                         draws: seq<Release>, width: real, height: real, resetRadius: real)
    requires i <= |jail| && DrawsFor(jail, draws)
    ensures AllDueReleased(Releases(jail, i, frame, nodes, draws, width, height, resetRadius), jail, i, frame, nodes, draws, width, height, resetRadius)
    ensures |Releases(jail, i, frame, nodes, draws, width, height, resetRadius)| + |Without(jail[i..], DueAt(frame))| == |jail| - i
    decreases |jail| - i
  {
    if i < |jail| {
      ReleasesFacts(jail, i + 1, frame, nodes, draws, width, height, resetRadius);
      WithoutStep(jail, i, DueAt(frame));
    } else {
      assert jail[i..] == [];
    }
  }

  /** What every released agent looks like. */
  lemma FreedFacts(a: Agent, nodes: seq<Node>, d: Release, width: real, height: real, resetRadius: real)
    requires 0.0 <= d.place.nodeRoll < 1.0
    ensures var r := Freed(a, nodes, d, width, height, resetRadius);
      && r.id == a.id && r.kind == a.kind
      && r.mass == BASE_AGENT_MASS && r.mass > AGENT_DEATH_THRESHOLD
      && r.crimeCount == 0 && r.visualLevel == 0
      && r.immunityTimer == (if AnyPredatorNode(nodes) then 0 else RESPAWN_IMMUNITY)
  {
    LandImmunity(nodes, d.place, width, height);
  }

  /** The jail keeps exactly the entries that are not yet due, in order. */
  lemma KeptFacts(jail: seq<JailEntry>, frame: int)
    ensures forall e :: e in Without(jail, DueAt(frame)) <==> e in jail && !Due(e, frame)
  {
    forall e ensures e in Without(jail, DueAt(frame)) <==> e in jail && !Due(e, frame) {
      WithoutMembers(jail, DueAt(frame), e);
    }
  }

  // ---------------------------------------------------------------------
  // Reseeding
  // ---------------------------------------------------------------------

  /** The draws one newcomer needs: its constructor's draws and its landing. */
  datatype Seed = Seed(recruit: Fresh, place: Placement)

  /** The four reseeded types, in the order their targets are listed. */
  const RESEEDED: seq<AgentType> := [Cooperator, Competitor, Defector, Predator]

  function Natural(cfg: Config, kind: AgentType): real {
    match kind
    case Cooperator => cfg.naturalCooperator
    case Competitor => cfg.naturalCompetitor
    case Defector => cfg.naturalDefector
    case Predator => cfg.naturalPredator
    case Enforcer => 0.0
  }

  /** `Math.floor(totalPopulationSize * NATURAL_..._PERCENT)`. */
  function Target(total: nat, share: real): int {
    (total as real * share).Floor
  }

  /** The type has fewer members, alive or jailed, than its target. */
  predicate Short(agents: seq<Agent>, jail: seq<JailEntry>, cfg: Config, kind: AgentType) {
    Census(agents, kind) + JailCensus(jail, kind) < Target(|agents| + |jail|, Natural(cfg, kind))
  }

  /** A new agent of the type: predators land like released agents, the others anywhere. */
  function Newcomer(kind: AgentType, nodes: seq<Node>, d: Seed, width: real, height: real, radiusOf: real -> real): (a: Agent)
    requires 0.0 <= d.place.nodeRoll < 1.0
    ensures a.kind == kind && a.id == d.recruit.id && a.crimeCount == 0
    ensures a.mass == BASE_AGENT_MASS || kind == Enforcer
    ensures a.radius == radiusOf(a.mass)
  {
    if kind == Predator then
      var l := Land(nodes, d.place, width, height);
      NewAgent(d.recruit, l.x, l.y, Predator, radiusOf).(immunityTimer := l.immunity)
    else NewAgent(d.recruit, d.place.xRoll * width, d.place.yRoll * height, kind, radiusOf)
  }

  ghost predicate SeedsInRange(seeds: AgentType -> Seed) {
    forall kind :: 0.0 <= seeds(kind).place.nodeRoll < 1.0
  }

  /** The newcomers the reseed loop pushes for the types of ks, in order. */
  function Newcomers(ks: seq<AgentType>, agents: seq<Agent>, jail: seq<JailEntry>, cfg: Config,
                     nodes: seq<Node>, seeds: AgentType -> Seed, width: real, height: real, radiusOf: real -> real): (r: seq<Agent>)
    requires SeedsInRange(seeds)
    ensures |r| <= |ks|
    decreases |ks|
  {
    if |ks| == 0 then []
    else
      var k := ks[|ks| - 1];
      Newcomers(ks[..|ks| - 1], agents, jail, cfg, nodes, seeds, width, height, radiusOf) +
      (if Short(agents, jail, cfg, k) then [Newcomer(k, nodes, seeds(k), width, height, radiusOf)] else [])
  }

  /** `updatePopulationDynamics`: the agent list afterwards. */
  function Reseed(agents: seq<Agent>, jail: seq<JailEntry>, cfg: Config, nodes: seq<Node>, roll: real,
                  seeds: AgentType -> Seed, width: real, height: real, radiusOf: real -> real): seq<Agent>
    requires SeedsInRange(seeds)
  {
    if roll > POPULATION_RESEED_CHANCE || |agents| + |jail| == 0 then agents
    else agents + Newcomers(RESEEDED, agents, jail, cfg, nodes, seeds, width, height, radiusOf)
  }

  /** The jailed-count loop. */
  method CountJailed(jail: seq<JailEntry>, kind: AgentType) returns (c: nat)
    ensures c == JailCensus(jail, kind)
  {
    c := 0;
    var i := |jail|;
    while i > 0
      invariant 0 <= i <= |jail|
      invariant c == JailCensus(jail[i..], kind)
    {
      i := i - 1;
      assert jail[i..][0] == jail[i] && jail[i..][1..] == jail[i + 1..];
      if jail[i].agent.kind == kind {
        c := c + 1;
      }
    }
    assert jail[0..] == jail;
  }

  /** The reseed step: the roll gate, the two counting loops and the loop over the four types. */
  method ReseedStep(agents: seq<Agent>, jail: seq<JailEntry>, cfg: Config, nodes: seq<Node>, roll: real,
                    seeds: AgentType -> Seed, width: real, height: real, radiusOf: real -> real) returns (r: seq<Agent>)
    requires SeedsInRange(seeds)
    ensures r == Reseed(agents, jail, cfg, nodes, roll, seeds, width, height, radiusOf)
  {
    r := agents;
    if roll > POPULATION_RESEED_CHANCE {
      return;
    }
    var total := |agents| + |jail|;
    if total == 0 {
      return;
    }
    var t := 0;
    while t < |RESEEDED|
      invariant 0 <= t <= |RESEEDED|
      invariant r == agents + Newcomers(RESEEDED[..t], agents, jail, cfg, nodes, seeds, width, height, radiusOf)
    {
      var kind := RESEEDED[t];
      var alive := CountKind(agents, kind);
      var jailed := CountJailed(jail, kind);
      assert RESEEDED[..t + 1][..t] == RESEEDED[..t];
      if alive + jailed < Target(total, Natural(cfg, kind)) {
        r := r + [Newcomer(kind, nodes, seeds(kind), width, height, radiusOf)];
      }
      t := t + 1;
    }
    assert RESEEDED[..t] == RESEEDED;
  }

  /**
   * The newcomers for ks: one of each type of ks that is short of its
   * target and none of any other type.
   */
  lemma {:induction false} NewcomersCensus(ks: seq<AgentType>, agents: seq<Agent>, jail: seq<JailEntry>, cfg: Config,
                                           nodes: seq<Node>, seeds: AgentType -> Seed, width: real, height: real, radiusOf: real -> real,
                                           kind: AgentType)
    requires SeedsInRange(seeds)
    requires forall a, b :: 0 <= a < b < |ks| ==> ks[a] != ks[b]
    ensures Census(Newcomers(ks, agents, jail, cfg, nodes, seeds, width, height, radiusOf), kind) ==
      if kind in ks && Short(agents, jail, cfg, kind) then 1 else 0
    decreases |ks|
  {
    if |ks| > 0 {
      var n := |ks| - 1;
      var prev := Newcomers(ks[..n], agents, jail, cfg, nodes, seeds, width, height, radiusOf);
      NewcomersCensus(ks[..n], agents, jail, cfg, nodes, seeds, width, height, radiusOf, kind);
      assert kind in ks <==> kind in ks[..n] || kind == ks[n] by {
        assert ks == ks[..n] + [ks[n]];
      }
      assert ks[n] == kind ==> kind !in ks[..n];
      if Short(agents, jail, cfg, ks[n]) {
        CensusAppend(prev, Newcomer(ks[n], nodes, seeds(ks[n]), width, height, radiusOf), kind);
      } else {
        assert prev + [] == prev;
      }
    }
  }

  /**
   * What reseeding does: nothing unless the roll passes and someone
   * exists; otherwise each of the four types gains exactly one agent when
   * its alive-plus-jailed count is below floor(total x natural share),
   * where the total counts every agent and jail entry, enforcers included,
   * and the enforcers gain none.
   */
  lemma ReseedCensus(agents: seq<Agent>, jail: seq<JailEntry>, cfg: Config, nodes: seq<Node>, roll: real,
                     seeds: AgentType -> Seed, width: real, height: real, radiusOf: real -> real, kind: AgentType)
    requires SeedsInRange(seeds)
    ensures var r := Reseed(agents, jail, cfg, nodes, roll, seeds, width, height, radiusOf);
      && |agents| <= |r| <= |agents| + 4 && r[..|agents|] == agents
      && Census(r, kind) == Census(agents, kind) +
           (if roll <= POPULATION_RESEED_CHANCE && |agents| + |jail| > 0 && kind != Enforcer && Short(agents, jail, cfg, kind)
            then 1 else 0)
  {
    var r := Reseed(agents, jail, cfg, nodes, roll, seeds, width, height, radiusOf);
    if roll <= POPULATION_RESEED_CHANCE && |agents| + |jail| > 0 {
      var extra := Newcomers(RESEEDED, agents, jail, cfg, nodes, seeds, width, height, radiusOf);
      NewcomersCensus(RESEEDED, agents, jail, cfg, nodes, seeds, width, height, radiusOf, kind);
      CensusConcat(agents, extra, kind);
      assert r[..|agents|] == agents;
      assert kind in RESEEDED <==> kind != Enforcer;
    }
  }
}
