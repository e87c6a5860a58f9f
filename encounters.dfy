/**
 * The second loop of `updateAgents`: every ordered pair of colliding
 * agents, both indices running from the end of the list, resolves one
 * encounter. A raiding enforcer and a predator drain each other; a
 * non-raiding enforcer meets an exposed predator with either a bribe
 * (which a nearby enforcer may witness) or an arrest; a predator robs any
 * commonfolk agent. Predators leave the list for the jail, enforcers are
 * removed when defeated or caught, and the outer scan restarts from the
 * end of the list whenever its own agent goes.
 */
module Encounters {
  import opened Wrappers
  import opened Geometry
  import opened Entities
  import opened Counting
  import opened Raids

  /** The state the loop changes. */
  datatype Scene = Scene(agents: seq<Agent>, nodes: seq<Node>, jail: seq<JailEntry>,
                         crimes: seq<CrimeEvent>, predatorPool: real, stats: Stats)

  /** One encounter's result: the new scene, the outer index after splices, and whether the outer scan restarts. */
  datatype Outcome = Outcome(scene: Scene, i: nat, restart: bool, rolled: bool)

  // ---------------------------------------------------------------------
  // Theft
  // ---------------------------------------------------------------------

  /** `Math.min(M * rate, Math.max(0, M - MINIMUM_MASS))`: a theft never takes the victim below its floor. */
  function Stolen(m: real, rate: real): (t: real)
    ensures t <= m * rate && t <= Max(0.0, m - AGENT_DEATH_THRESHOLD)
    ensures t == m * rate || t == Max(0.0, m - AGENT_DEATH_THRESHOLD)
    ensures t > 0.0 ==> m - t >= AGENT_DEATH_THRESHOLD
  {
    Min(m * rate, Max(0.0, m - AGENT_DEATH_THRESHOLD))
  }

  /** An un-raided predator node whose spawn radius holds the point. */
  predicate Den(n: Node, x: real, y: real) {
    n.kind == PredatorNode && !n.isBeingRaided && Within(x, y, n.x, n.y, n.spawnRadius)
  }

  /** The first den at index `from` or later (the crime-level loop with its `break`). */
  function DenFrom(nodes: seq<Node>, x: real, y: real, from: nat): (r: Option<nat>)
    requires from <= |nodes|
    ensures r.Some? ==> from <= r.value < |nodes| && Den(nodes[r.value], x, y)
    ensures r.Some? ==> forall k :: from <= k < r.value ==> !Den(nodes[k], x, y)
    ensures r.None? ==> forall k :: from <= k < |nodes| ==> !Den(nodes[k], x, y)
    decreases |nodes| - from
  {
    if from == |nodes| then None
    else if Den(nodes[from], x, y) then Some(from)
    else DenFrom(nodes, x, y, from + 1)
  }

  /** A theft inside a den raises that den's crime level by the amount stolen. */
  function AddCrime(nodes: seq<Node>, x: real, y: real, t: real): (r: seq<Node>)
    ensures |r| == |nodes|
  {
    match DenFrom(nodes, x, y, 0)
    case None => nodes
    case Some(k) => nodes[k := nodes[k].(crimeLevel := nodes[k].crimeLevel + t)]
  }

  /**
   * Predator i robs agent j: the amount moves from victim to predator, the
   * predator's crime count and `theftsCommitted` rise, a crime event is
   * logged at the predator's position, 10% of the amount is added to the
   * predator pool on top, and the den the predator stands in gets the
   * amount as crime. Nothing happens when the amount is not positive.
   */
  function Theft(sc: Scene, i: nat, j: nat, rate: real, frame: int): (r: Scene)
    requires i < |sc.agents| && j < |sc.agents| && i != j
    ensures SameKinds(sc.agents, r.agents) && r.jail == sc.jail
  {
    var p := sc.agents[i];
    var v := sc.agents[j];
    var t := Stolen(v.mass, rate);
    if t <= 0.0 then sc
    else
      sc.(agents := sc.agents[i := p.(mass := p.mass + t, crimeCount := p.crimeCount + 1)][j := v.(mass := v.mass - t)],
          nodes := AddCrime(sc.nodes, p.x, p.y, t),
          crimes := sc.crimes + [CrimeEvent(p.x, p.y, frame)],
          predatorPool := sc.predatorPool + t * PREDATOR_NODE_CONTRIBUTION_RATE,
          stats := sc.stats.(theftsCommitted := sc.stats.theftsCommitted + 1))
  }

  /**
   * The predator gains exactly what the victim loses, the victim keeps its
   * floor, the counters, the crime log and the pool move as described, the
   * den holding the predator gets the crime, and no other agent and no
   * jail entry changes; and only when the amount is positive.
   */
  lemma TheftFacts(sc: Scene, i: nat, j: nat, rate: real, frame: int)
    requires i < |sc.agents| && j < |sc.agents| && i != j
    ensures var r := Theft(sc, i, j, rate, frame); var t := Stolen(sc.agents[j].mass, rate);
      && (t <= 0.0 ==> r == sc)
      && (t > 0.0 ==>
        && r.agents[j].mass == sc.agents[j].mass - t >= AGENT_DEATH_THRESHOLD
        && r.agents[i].mass == sc.agents[i].mass + t
        && r.agents[i].crimeCount == sc.agents[i].crimeCount + 1
        && TotalMass(r.agents) == TotalMass(sc.agents)
        && |r.agents| == |sc.agents|
        && r.agents[i] == sc.agents[i].(mass := sc.agents[i].mass + t, crimeCount := sc.agents[i].crimeCount + 1)
        && r.agents[j] == sc.agents[j].(mass := sc.agents[j].mass - t)
        && (forall k :: 0 <= k < |sc.agents| && k != i && k != j ==> r.agents[k] == sc.agents[k])
        && r.nodes == AddCrime(sc.nodes, sc.agents[i].x, sc.agents[i].y, t)
        && r.jail == sc.jail
        && r.stats == sc.stats.(theftsCommitted := sc.stats.theftsCommitted + 1)
        && r.crimes == sc.crimes + [CrimeEvent(sc.agents[i].x, sc.agents[i].y, frame)]
        && r.predatorPool == sc.predatorPool + t * PREDATOR_NODE_CONTRIBUTION_RATE)
  {
    var t := Stolen(sc.agents[j].mass, rate);
    if t > 0.0 {
      var r := Theft(sc, i, j, rate, frame);
      assert r.agents[i].mass == sc.agents[i].mass + t;
      assert r.agents[j].mass == sc.agents[j].mass - t;
      TotalMassTwo(sc.agents, r.agents, i, j);
      assert TotalMass(r.agents) == TotalMass(sc.agents);
    }
  }

  /** The crime goes to the first den holding the predator, and to no other node. */
  lemma AddCrimeFacts(nodes: seq<Node>, x: real, y: real, t: real)
    ensures var r := AddCrime(nodes, x, y, t); var d := DenFrom(nodes, x, y, 0);
      && (d.None? ==> r == nodes)
      && (d.Some? ==> r == nodes[d.value := nodes[d.value].(crimeLevel := nodes[d.value].crimeLevel + t)])
      && (d.Some? ==> forall k :: 0 <= k < d.value ==> !Den(nodes[k], x, y))
  {
  }

  // ---------------------------------------------------------------------
  // Raid combat
  // ---------------------------------------------------------------------

  /** The raided node the enforcer was assigned to still exists and is still under raid. */
  predicate RaidGoesOn(nodes: seq<Node>, target: Option<nat>) {
    target.Some? && exists k :: 0 <= k < |nodes| && nodes[k].id == target.value && nodes[k].isBeingRaided
  }

  function BackupKeys(s: seq<Agent>, x: real, y: real): (keys: seq<real>)
    ensures |keys| == |s|
    ensures forall k :: 0 <= k < |s| ==> keys[k] == DistSq(x, y, s[k].x, s[k].y)
  {
    seq(|s|, k requires 0 <= k < |s| => DistSq(x, y, s[k].x, s[k].y))
  }

  /**
   * The call for backup after an enforcer falls: if its raid goes on, the
   * idle enforcer nearest to where it fell joins that raid.
   */
  function Backup(s: seq<Agent>, nodes: seq<Node>, target: Option<nat>, x: real, y: real): (r: seq<Agent>)
    ensures SameKinds(s, r)
  {
    if !RaidGoesOn(nodes, target) then s
    else
      match FirstMin(BackupKeys(s, x, y), IdleFlags(s), None)
      case None => s
      case Some(q) => s[q := Join(s[q], target.value)]
  }

  /**
   * r is s with idle enforcer q joining the raid that goes on; q is nearest
   * to (x, y) among the idle enforcers, and the first of them at that
   * distance (the scan keeps the earliest on a tie).
   */
  predicate BackedUpBy(s: seq<Agent>, r: seq<Agent>, nodes: seq<Node>, target: Option<nat>, x: real, y: real, q: int) {
    && 0 <= q < |s| && Idle(s[q]) && RaidGoesOn(nodes, target) && r == s[q := Join(s[q], target.value)]
    && (forall k :: 0 <= k < |s| && Idle(s[k]) ==> DistSq(x, y, s[q].x, s[q].y) <= DistSq(x, y, s[k].x, s[k].y))
    && (forall k :: 0 <= k < q && Idle(s[k]) ==> DistSq(x, y, s[q].x, s[q].y) < DistSq(x, y, s[k].x, s[k].y))
  }

  /**
   * The list is unchanged when the raid is over or no enforcer is idle;
   * otherwise the nearest idle enforcer, and only it, joins the raid.
   */
  lemma BackupFacts(s: seq<Agent>, nodes: seq<Node>, target: Option<nat>, x: real, y: real)
    ensures var r := Backup(s, nodes, target, x, y);
      && (r == s || exists q :: BackedUpBy(s, r, nodes, target, x, y, q))
      && (!RaidGoesOn(nodes, target) ==> r == s)
      && ((forall k :: 0 <= k < |s| ==> !Idle(s[k])) ==> r == s)
      && (RaidGoesOn(nodes, target) && (exists k :: 0 <= k < |s| && Idle(s[k])) ==>
            exists q :: BackedUpBy(s, r, nodes, target, x, y, q))
  {
    if RaidGoesOn(nodes, target) {
      var m := FirstMin(BackupKeys(s, x, y), IdleFlags(s), None);
      if m.Some? {
        var q := m.value;
        assert Idle(s[q]);
        assert forall k :: 0 <= k < |s| && Idle(s[k]) ==> BackupKeys(s, x, y)[q] <= BackupKeys(s, x, y)[k];
        assert forall k :: 0 <= k < q && Idle(s[k]) ==> BackupKeys(s, x, y)[q] < BackupKeys(s, x, y)[k];
        assert BackedUpBy(s, Backup(s, nodes, target, x, y), nodes, target, x, y, q);
      }
    }
  }

  /**
   * The double loop can go on after the encounter: the list never grows;
   * a restart shortened it; otherwise the outer index is still in range,
   * never moved up, and at most one agent (the inner one) left the list.
   */
  predicate Resumable(sc: Scene, i: nat, r: Outcome) {
    && |r.scene.agents| <= |sc.agents|
    && (r.restart ==> |r.scene.agents| < |sc.agents|)
    && (!r.restart ==> r.i <= i && r.i < |r.scene.agents| && |sc.agents| <= |r.scene.agents| + 1)
  }

  /** The outer index after splicing out index j: it moves down when j was below it. */
  function Shift(i: nat, j: nat): nat {
    if j < i then i - 1 else i
  }

  /** A jail stay for predator p, starting now. */
  function Jailed(p: Agent, cfg: Config, frame: int): JailEntry {
    JailEntry(p, frame + cfg.jailTime)
  }

  /**
   * The blows of a raid fight: raiding enforcer i and predator j both lose
   * RAID_COMBAT_DRAIN_RATE. A predator below its floor goes to jail and its
   * pre-drain mass is credited to `predatorMassRecovered` (this is not
   * counted as an arrest). The index returned is where the enforcer now is.
   */
  function Blows(sc: Scene, i: nat, j: nat, cfg: Config, frame: int): (r: (Scene, nat))
    requires i < |sc.agents| && j < |sc.agents| && i != j
    ensures r.1 <= i && r.1 < |r.0.agents| && |sc.agents| <= |r.0.agents| + 1
    ensures r.0.agents[r.1] == sc.agents[i].(mass := sc.agents[i].mass - RAID_COMBAT_DRAIN_RATE)
  {
    var e := sc.agents[i];
    var p := sc.agents[j];
    var p1 := p.(mass := p.mass - RAID_COMBAT_DRAIN_RATE);
    var s1 := sc.agents[i := e.(mass := e.mass - RAID_COMBAT_DRAIN_RATE)][j := p1];
    if p1.mass < AGENT_DEATH_THRESHOLD then
      (sc.(agents := RemoveAt(s1, j), jail := sc.jail + [Jailed(p1, cfg, frame)],
           stats := sc.stats.(predatorMassRecovered := sc.stats.predatorMassRecovered + p.mass)),
       Shift(i, j))
    else (sc.(agents := s1), i)
  }

  /**
   * A raid fight. After the blows, an enforcer below its floor is removed,
   * calls for backup, and the outer scan restarts.
   */
  function Drain(sc: Scene, i: nat, j: nat, cfg: Config, frame: int): (r: Outcome)
    requires i < |sc.agents| && j < |sc.agents| && i != j
    ensures Resumable(sc, i, r)
  {
    var e := sc.agents[i];
    var (sc2, i2) := Blows(sc, i, j, cfg, frame);
    if sc2.agents[i2].mass < AGENT_DEATH_THRESHOLD then
      Outcome(sc2.(agents := Backup(RemoveAt(sc2.agents, i2), sc.nodes, e.raidTarget, e.x, e.y)), i2, true, false)
    else
      Outcome(sc2, i2, false, false)
  }

  // ---------------------------------------------------------------------
  // Bribe or arrest
  // ---------------------------------------------------------------------

  /** Another enforcer within ENFORCER_VISION of enforcer i sees the bribe. */
  predicate Witnessed(s: seq<Agent>, i: nat, vision: real)
    requires i < |s|
  {
    exists k :: 0 <= k < |s| && k != i && s[k].kind == Enforcer && Within(s[i].x, s[i].y, s[k].x, s[k].y, vision)
  }

  /**
   * Non-raiding enforcer i against exposed predator j. With probability
   * BRIBE_CHANCE_PERCENT the predator offers a bribe: a witnessed enforcer
   * is removed as corrupt and the outer scan restarts, otherwise the
   * predator pays BRIBE_RATE of its mass, which leaves the simulation.
   * Otherwise the predator is arrested: `arrestsMade` rises, its mass is
   * credited to `predatorMassRecovered` only, and it goes to jail.
   */
  function Confront(sc: Scene, i: nat, j: nat, roll: real, cfg: Config, frame: int): (r: Outcome)
    requires i < |sc.agents| && j < |sc.agents| && i != j
    ensures Resumable(sc, i, r)
  {
    var p := sc.agents[j];
    if roll < cfg.bribeChancePercent / 100.0 then
      if Witnessed(sc.agents, i, cfg.enforcerVision) then
        Outcome(sc.(agents := RemoveAt(sc.agents, i),
                    stats := sc.stats.(corruptEnforcersCaught := sc.stats.corruptEnforcersCaught + 1)), i, true, true)
      else
        Outcome(sc.(agents := sc.agents[j := p.(mass := p.mass - p.mass * BRIBE_RATE)],
                    stats := sc.stats.(bribesPaid := sc.stats.bribesPaid + 1)), i, false, true)
    else
      Outcome(sc.(agents := RemoveAt(sc.agents, j), jail := sc.jail + [Jailed(p, cfg, frame)],
                  stats := sc.stats.(arrestsMade := sc.stats.arrestsMade + 1,
                                     predatorMassRecovered := sc.stats.predatorMassRecovered + p.mass)),
              Shift(i, j), false, true)
  }

  /**
   * A raid fight is never counted as an arrest and feeds no pool; the
   * outer scan restarts exactly when the enforcer falls below its floor,
   * and a predator that falls below its own goes to jail with the mass it
   * has left.
   */
  lemma DrainFacts(sc: Scene, i: nat, j: nat, cfg: Config, frame: int)
    requires i < |sc.agents| && j < |sc.agents| && i != j
    ensures var r := Drain(sc, i, j, cfg, frame); var p := sc.agents[j];
      && r.scene.stats.arrestsMade == sc.stats.arrestsMade
      && r.scene.predatorPool == sc.predatorPool
      && (r.restart <==> sc.agents[i].mass - RAID_COMBAT_DRAIN_RATE < AGENT_DEATH_THRESHOLD)
      && (p.mass - RAID_COMBAT_DRAIN_RATE < AGENT_DEATH_THRESHOLD ==>
            r.scene.jail == sc.jail + [Jailed(p.(mass := p.mass - RAID_COMBAT_DRAIN_RATE), cfg, frame)])
      && (p.mass - RAID_COMBAT_DRAIN_RATE >= AGENT_DEATH_THRESHOLD ==> r.scene.jail == sc.jail)
    // The whole new scene: both lose the drain; a fallen predator leaves the
    // list and its pre-drain mass is credited; a fallen enforcer leaves it
    // and calls for backup; nodes and crimes are untouched.
    ensures var r := Drain(sc, i, j, cfg, frame); var e := sc.agents[i]; var p := sc.agents[j];
      var e1 := e.(mass := e.mass - RAID_COMBAT_DRAIN_RATE);
      var p1 := p.(mass := p.mass - RAID_COMBAT_DRAIN_RATE);
      var predatorFalls := p1.mass < AGENT_DEATH_THRESHOLD;
      var drained := sc.agents[i := e1][j := p1];
      var after := if predatorFalls then RemoveAt(drained, j) else drained;
      var at := if predatorFalls then Shift(i, j) else i;
      && r.i == at && at < |after| && after[at] == e1 && !r.rolled
      && r.scene.nodes == sc.nodes && r.scene.crimes == sc.crimes
      && r.scene.stats == sc.stats.(predatorMassRecovered :=
           sc.stats.predatorMassRecovered + if predatorFalls then p.mass else 0.0)
      && (e1.mass >= AGENT_DEATH_THRESHOLD ==> r.scene.agents == after)
      && (e1.mass < AGENT_DEATH_THRESHOLD ==>
            r.scene.agents == Backup(RemoveAt(after, at), sc.nodes, e.raidTarget, e.x, e.y))
  {
  }

  /**
   * Where the mass goes in a bribe or arrest: an arrested predator's mass
   * leaves the agents and is only credited to `predatorMassRecovered`; a
   * paid bribe leaves the simulation; neither feeds the predator pool. A
   * witnessed bribe removes the corrupt enforcer instead, counts it, and
   * restarts the outer scan; only that case restarts it.
   */
  lemma ConfrontFacts(sc: Scene, i: nat, j: nat, roll: real, cfg: Config, frame: int)
    requires i < |sc.agents| && j < |sc.agents| && i != j
    ensures var r := Confront(sc, i, j, roll, cfg, frame); var p := sc.agents[j];
      && r.scene.predatorPool == sc.predatorPool
      && (r.rolled && r.scene.nodes == sc.nodes && r.scene.crimes == sc.crimes)
      && (roll >= cfg.bribeChancePercent / 100.0 ==>
            && r.scene.stats == sc.stats.(arrestsMade := sc.stats.arrestsMade + 1,
                                          predatorMassRecovered := sc.stats.predatorMassRecovered + p.mass)
            && TotalMass(r.scene.agents) == TotalMass(sc.agents) - p.mass
            && r.scene.jail == sc.jail + [Jailed(p, cfg, frame)]
            && r.scene.agents == RemoveAt(sc.agents, j) && r.i == Shift(i, j))
      && (roll < cfg.bribeChancePercent / 100.0 && !Witnessed(sc.agents, i, cfg.enforcerVision) ==>
            && r.scene.agents == sc.agents[j := p.(mass := p.mass - p.mass * BRIBE_RATE)] && r.i == i
            && r.scene.stats == sc.stats.(bribesPaid := sc.stats.bribesPaid + 1)
            && TotalMass(r.scene.agents) == TotalMass(sc.agents) - p.mass * BRIBE_RATE)
      && (roll < cfg.bribeChancePercent / 100.0 && Witnessed(sc.agents, i, cfg.enforcerVision) ==>
            && r.scene.agents == RemoveAt(sc.agents, i)
            && r.scene.stats == sc.stats.(corruptEnforcersCaught := sc.stats.corruptEnforcersCaught + 1)
            && TotalMass(r.scene.agents) == TotalMass(sc.agents) - sc.agents[i].mass)
      && (roll < cfg.bribeChancePercent / 100.0 ==> r.scene.jail == sc.jail && r.scene.stats.arrestsMade == sc.stats.arrestsMade)
      && (r.restart <==> roll < cfg.bribeChancePercent / 100.0 && Witnessed(sc.agents, i, cfg.enforcerVision))
  {
    var p := sc.agents[j];
    if roll >= cfg.bribeChancePercent / 100.0 {
      TotalMassRemoveAt(sc.agents, j);
    } else if Witnessed(sc.agents, i, cfg.enforcerVision) {
      TotalMassRemoveAt(sc.agents, i);
    } else {
      TotalMassUpdate(sc.agents, j, p.(mass := p.mass - p.mass * BRIBE_RATE));
    }
  }

  // ---------------------------------------------------------------------
  // One encounter
  // ---------------------------------------------------------------------

  /** Agent i meets agent j (the two indices of the double loop). */
  function Meet(sc: Scene, i: nat, j: nat, roll: real, cfg: Config, frame: int): (r: Outcome)
    requires i < |sc.agents| && j < |sc.agents| && i != j
    ensures Resumable(sc, i, r)
  {
    var a := sc.agents[i];
    var b := sc.agents[j];
    if !AgentsCollide(a, b) then Outcome(sc, i, false, false)
    else if a.kind == Enforcer && b.kind == Predator then
      if a.isRaiding then Drain(sc, i, j, cfg, frame)
      else if !b.isSafeInNode && b.immunityTimer <= 0 then Confront(sc, i, j, roll, cfg, frame)
      else Outcome(sc, i, false, false)
    else if a.kind == Predator && b.kind.IsCommonfolk() then
      Outcome(Theft(sc, i, j, cfg.predatorTheftRate, frame), i, false, false)
    else Outcome(sc, i, false, false)
  }

  // ---------------------------------------------------------------------
  // What the loop keeps
  // ---------------------------------------------------------------------

  /** Only crime levels change, and they only rise. */
  predicate OnlyCrimeRises(n0: seq<Node>, n: seq<Node>) {
    |n| == |n0| &&
    forall k :: 0 <= k < |n| ==> n[k] == n0[k].(crimeLevel := n[k].crimeLevel) && n0[k].crimeLevel <= n[k].crimeLevel
  }

  /**
   * What holds between the scene before the loop and every later one: no
   * commonfolk agent is lost; every predator that left the list is in the
   * jail, which only grows by predators serving their term from this frame;
   * no enforcer is added; counters only grow; there is one crime event per
   * theft; there are no more arrests than jailings; the predator pool only
   * grows; and nodes change only by rising crime levels.
   */
  predicate Lawful(s0: Scene, s: Scene, cfg: Config, frame: int) {
    && OnlyCrimeRises(s0.nodes, s.nodes)
    && |s0.jail| <= |s.jail| && s.jail[..|s0.jail|] == s0.jail
    && (forall k :: |s0.jail| <= k < |s.jail| ==> s.jail[k] == Jailed(s.jail[k].agent, cfg, frame) && s.jail[k].agent.kind == Predator)
    && Census(s.agents, Cooperator) == Census(s0.agents, Cooperator)
    && Census(s.agents, Defector) == Census(s0.agents, Defector)
    && Census(s.agents, Competitor) == Census(s0.agents, Competitor)
    && Census(s.agents, Predator) + |s.jail| == Census(s0.agents, Predator) + |s0.jail|
    && Census(s.agents, Enforcer) <= Census(s0.agents, Enforcer)
    && StatsGrew(s0.stats, s.stats)
    && |s0.crimes| <= |s.crimes| && s.crimes[..|s0.crimes|] == s0.crimes
    && s.stats.theftsCommitted - s0.stats.theftsCommitted == |s.crimes| - |s0.crimes|
    && s.stats.arrestsMade - s0.stats.arrestsMade <= |s.jail| - |s0.jail|
    && s0.predatorPool <= s.predatorPool
  }

  /** Nothing has happened yet. */
  lemma LawfulStart(s: Scene, cfg: Config, frame: int)
    ensures Lawful(s, s, cfg, frame)
  {
    assert s.jail[..|s.jail|] == s.jail && s.crimes[..|s.crimes|] == s.crimes;
  }

  /** Two lawful stretches make one. */
  lemma LawfulChain(s0: Scene, s1: Scene, s2: Scene, cfg: Config, frame: int)
    requires Lawful(s0, s1, cfg, frame) && Lawful(s1, s2, cfg, frame)
    ensures Lawful(s0, s2, cfg, frame)
  {
    assert s2.jail[..|s0.jail|] == s2.jail[..|s1.jail|][..|s0.jail|];
    assert s2.crimes[..|s0.crimes|] == s2.crimes[..|s1.crimes|][..|s0.crimes|];
    forall k | |s0.jail| <= k < |s2.jail|
      ensures s2.jail[k] == Jailed(s2.jail[k].agent, cfg, frame) && s2.jail[k].agent.kind == Predator
    {
      if k < |s1.jail| {
        assert s2.jail[k] == s2.jail[..|s1.jail|][k];
      }
    }
  }

  /** A step that changes agents but not their types, and only counters other than thefts and arrests. */
  lemma KindsLawful(sc: Scene, r: Scene, cfg: Config, frame: int)
    requires SameKinds(sc.agents, r.agents) && r == sc.(agents := r.agents, stats := r.stats)
    requires StatsGrew(sc.stats, r.stats)
    requires r.stats.theftsCommitted == sc.stats.theftsCommitted && r.stats.arrestsMade == sc.stats.arrestsMade
    ensures Lawful(sc, r, cfg, frame)
  {
    LawfulStart(sc, cfg, frame);
    CensusSameKindsAll(sc.agents, r.agents);
  }

  /**
   * The agents change without changing type and then predator j leaves the
   * list for the jail; at most one arrest is counted for it.
   */
  lemma JailLawful(sc: Scene, s1: seq<Agent>, j: nat, st: Stats, cfg: Config, frame: int)
    requires SameKinds(sc.agents, s1) && j < |s1| && s1[j].kind == Predator
    requires StatsGrew(sc.stats, st) && st.theftsCommitted == sc.stats.theftsCommitted
    requires st.arrestsMade <= sc.stats.arrestsMade + 1
    ensures Lawful(sc, sc.(agents := RemoveAt(s1, j), jail := sc.jail + [Jailed(s1[j], cfg, frame)], stats := st), cfg, frame)
  {
    LawfulStart(sc, cfg, frame);
    CensusSameKindsAll(sc.agents, s1);
    CensusRemoveAtAll(s1, j);
    assert (sc.jail + [Jailed(s1[j], cfg, frame)])[..|sc.jail|] == sc.jail;
  }

  /** Enforcer i leaves the list. */
  lemma DismissLawful(sc: Scene, i: nat, st: Stats, cfg: Config, frame: int)
    requires i < |sc.agents| && sc.agents[i].kind == Enforcer
    requires StatsGrew(sc.stats, st)
    requires st.theftsCommitted == sc.stats.theftsCommitted && st.arrestsMade == sc.stats.arrestsMade
    ensures Lawful(sc, sc.(agents := RemoveAt(sc.agents, i), stats := st), cfg, frame)
  {
    LawfulStart(sc, cfg, frame);
    CensusRemoveAtAll(sc.agents, i);
  }

  lemma TheftLawful(sc: Scene, i: nat, j: nat, cfg: Config, frame: int)
    requires i < |sc.agents| && j < |sc.agents| && i != j
    ensures Lawful(sc, Theft(sc, i, j, cfg.predatorTheftRate, frame), cfg, frame)
  {
    LawfulStart(sc, cfg, frame);
    var r := Theft(sc, i, j, cfg.predatorTheftRate, frame);
    var p := sc.agents[i];
    var t := Stolen(sc.agents[j].mass, cfg.predatorTheftRate);
    if t > 0.0 {
      CensusSameKindsAll(sc.agents, r.agents);
      assert r.crimes[..|sc.crimes|] == sc.crimes;
      AddCrimeFacts(sc.nodes, p.x, p.y, t);
    }
  }

  lemma BlowsLawful(sc: Scene, i: nat, j: nat, cfg: Config, frame: int)
    requires i < |sc.agents| && j < |sc.agents| && i != j
    requires sc.agents[i].kind == Enforcer && sc.agents[j].kind == Predator
    ensures Lawful(sc, Blows(sc, i, j, cfg, frame).0, cfg, frame)
  {
    var e := sc.agents[i];
    var p := sc.agents[j];
    var p1 := p.(mass := p.mass - RAID_COMBAT_DRAIN_RATE);
    var s1 := sc.agents[i := e.(mass := e.mass - RAID_COMBAT_DRAIN_RATE)][j := p1];
    var r := Blows(sc, i, j, cfg, frame).0;
    assert SameKinds(sc.agents, s1) by {
      assert |s1| == |sc.agents|;
      forall k | 0 <= k < |s1| ensures s1[k].kind == sc.agents[k].kind {
      }
    }
    assert s1[j] == p1;
    if p1.mass < AGENT_DEATH_THRESHOLD {
      var st := sc.stats.(predatorMassRecovered := sc.stats.predatorMassRecovered + p.mass);
      assert r == sc.(agents := RemoveAt(s1, j), jail := sc.jail + [Jailed(s1[j], cfg, frame)], stats := st);
      JailLawful(sc, s1, j, st, cfg, frame);
    } else {
      KindsLawful(sc, sc.(agents := s1), cfg, frame);
      assert r == sc.(agents := s1);
    }
  }

  lemma DrainLawful(sc: Scene, i: nat, j: nat, cfg: Config, frame: int)
    requires i < |sc.agents| && j < |sc.agents| && i != j
    requires sc.agents[i].kind == Enforcer && sc.agents[j].kind == Predator
    ensures Lawful(sc, Drain(sc, i, j, cfg, frame).scene, cfg, frame)
  {
    var e := sc.agents[i];
    var (sc2, i2) := Blows(sc, i, j, cfg, frame);
    BlowsLawful(sc, i, j, cfg, frame);
    if sc2.agents[i2].mass < AGENT_DEATH_THRESHOLD {
      var sc3 := sc2.(agents := RemoveAt(sc2.agents, i2));
      DismissLawful(sc2, i2, sc2.stats, cfg, frame);
      var sc4 := sc3.(agents := Backup(sc3.agents, sc.nodes, e.raidTarget, e.x, e.y));
      KindsLawful(sc3, sc4, cfg, frame);
      LawfulChain(sc2, sc3, sc4, cfg, frame);
      LawfulChain(sc, sc2, sc4, cfg, frame);
    }
  }

  lemma ConfrontLawful(sc: Scene, i: nat, j: nat, roll: real, cfg: Config, frame: int)
    requires i < |sc.agents| && j < |sc.agents| && i != j
    requires sc.agents[i].kind == Enforcer && sc.agents[j].kind == Predator
    ensures Lawful(sc, Confront(sc, i, j, roll, cfg, frame).scene, cfg, frame)
  {
    var p := sc.agents[j];
    var r := Confront(sc, i, j, roll, cfg, frame).scene;
    if roll < cfg.bribeChancePercent / 100.0 {
      if Witnessed(sc.agents, i, cfg.enforcerVision) {
        var st := sc.stats.(corruptEnforcersCaught := sc.stats.corruptEnforcersCaught + 1);
        DismissLawful(sc, i, st, cfg, frame);
        assert r == sc.(agents := RemoveAt(sc.agents, i), stats := st);
      } else {
        var x := sc.(agents := sc.agents[j := p.(mass := p.mass - p.mass * BRIBE_RATE)],
                     stats := sc.stats.(bribesPaid := sc.stats.bribesPaid + 1));
        KindsLawful(sc, x, cfg, frame);
        assert r == x;
      }
    } else {
      var st := sc.stats.(arrestsMade := sc.stats.arrestsMade + 1,
                          predatorMassRecovered := sc.stats.predatorMassRecovered + p.mass);
      JailLawful(sc, sc.agents, j, st, cfg, frame);
      assert r == sc.(agents := RemoveAt(sc.agents, j), jail := sc.jail + [Jailed(sc.agents[j], cfg, frame)], stats := st);
    }
  }

  /** Every encounter is lawful. */
  lemma MeetLawful(sc: Scene, i: nat, j: nat, roll: real, cfg: Config, frame: int)
    requires i < |sc.agents| && j < |sc.agents| && i != j
    ensures Lawful(sc, Meet(sc, i, j, roll, cfg, frame).scene, cfg, frame)
  {
    var a := sc.agents[i];
    var b := sc.agents[j];
    LawfulStart(sc, cfg, frame);
    if AgentsCollide(a, b) {
      if a.kind == Enforcer && b.kind == Predator {
        if a.isRaiding {
          DrainLawful(sc, i, j, cfg, frame);
        } else if !b.isSafeInNode && b.immunityTimer <= 0 {
          ConfrontLawful(sc, i, j, roll, cfg, frame);
        }
      } else if a.kind == Predator && b.kind.IsCommonfolk() {
        TheftLawful(sc, i, j, cfg, frame);
      }
    }
  }

  /** One encounter of the double loop, with what the loop needs to know about it. */
  method Resolve(s0: Scene, sc: Scene, i: nat, j: nat, roll: real, cfg: Config, frame: int) returns (o: Outcome)
    requires i < |sc.agents| && j < |sc.agents| && i != j
    requires Lawful(s0, sc, cfg, frame)
    ensures Lawful(s0, o.scene, cfg, frame) && Resumable(sc, i, o)
  {
    o := Meet(sc, i, j, roll, cfg, frame);
    MeetLawful(sc, i, j, roll, cfg, frame);
    LawfulChain(s0, sc, o.scene, cfg, frame);
  }

  /**
   * The double loop. `rolls(n)` is the n-th `Math.random()` drawn for a
   * bribe check; `used` says how many were drawn.
   */
  method Encounter(s0: Scene, cfg: Config, frame: int, rolls: nat -> real) returns (s: Scene, used: nat)
    ensures Lawful(s0, s, cfg, frame)
  {
    s, used := s0, 0;
    LawfulStart(s0, cfg, frame);
    var i: int := |s.agents| - 1;
    while i >= 0
      invariant -1 <= i < |s.agents|
      invariant Lawful(s0, s, cfg, frame)
      decreases |s.agents|, i + 1
    {
      ghost var n0, i0 := |s.agents|, i;
      var j: int := |s.agents| - 1;
      var restart := false;
      while j >= 0 && !restart
        invariant j >= -1 && |s.agents| <= n0
        invariant !restart ==> 0 <= i <= i0 && i < |s.agents| && j < |s.agents|
        invariant restart ==> |s.agents| < n0
        invariant Lawful(s0, s, cfg, frame)
        decreases j + 1
      {
        if i != j {
          var o := Resolve(s0, s, i, j, rolls(used), cfg, frame);
          if o.rolled {
            used := used + 1;
          }
          s, i, restart := o.scene, o.i, o.restart;
        }
        j := j - 1;
      }
      if restart {
        i := |s.agents|;
      }
      i := i - 1;
    }
  }
}
