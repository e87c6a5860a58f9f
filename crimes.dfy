/**
 * `processCrimeEvents`: every crime event of the last CRIME_MEMORY_TICKS
 * ticks alarms the commonfolk agents near it that are not already
 * fleeing; each alarmed agent starts fleeing towards its nearest co-op
 * node (or towards nothing when there is none). The scan runs over the
 * events from the newest, dropping the stale ones as it goes, and the
 * whole list is cleared once anybody has been alarmed.
 */
module Crimes {
  import opened Wrappers
  import opened Geometry
  import opened Entities

  predicate Stale(c: CrimeEvent, frame: int) {
    frame - c.time > CRIME_MEMORY_TICKS
  }

  function StaleAt(frame: int): CrimeEvent -> bool {
    c => Stale(c, frame)
  }

  /** A commonfolk agent, not yet fleeing, closer to the crime than CRIME_FLEE_RADIUS. */
  predicate Alarmed(a: Agent, c: CrimeEvent) {
    a.kind.IsCommonfolk() && !a.fleeingCrime && Within(a.x, a.y, c.x, c.y, CRIME_FLEE_RADIUS)
  }

  function CoopKeys(a: Agent, nodes: seq<Node>): (keys: seq<real>)
    ensures |keys| == |nodes|
  {
    seq(|nodes|, k requires 0 <= k < |nodes| => DistSq(a.x, a.y, nodes[k].x, nodes[k].y))
  }

  function CoopFlags(nodes: seq<Node>): (flags: seq<bool>)
    ensures |flags| == |nodes| && forall k :: 0 <= k < |nodes| ==> flags[k] == (nodes[k].kind == CoopNode)
  {
    seq(|nodes|, k requires 0 <= k < |nodes| => nodes[k].kind == CoopNode)
  }

  /** The first co-op node at the least distance from the agent, if there is a co-op node. */
  function NearestCoop(a: Agent, nodes: seq<Node>): (r: Option<nat>)
    ensures r.Some? ==> r.value < |nodes| && nodes[r.value].kind == CoopNode
    ensures r.Some? ==> forall k :: 0 <= k < |nodes| && nodes[k].kind == CoopNode ==>
      DistSq(a.x, a.y, nodes[r.value].x, nodes[r.value].y) <= DistSq(a.x, a.y, nodes[k].x, nodes[k].y)
    ensures r.None? <==> forall k :: 0 <= k < |nodes| ==> nodes[k].kind != CoopNode
  {
    var r := FirstMin(CoopKeys(a, nodes), CoopFlags(nodes), None);
    assert r.Some? ==> forall k :: 0 <= k < |nodes| && nodes[k].kind == CoopNode ==>
      CoopKeys(a, nodes)[r.value] <= CoopKeys(a, nodes)[k];
    r
  }

  /** `agent.fleeTargetNode = nearestNode`. */
  function FleeTo(a: Agent, nodes: seq<Node>): Option<FleeTarget> {
    match NearestCoop(a, nodes)
    case None => None
    case Some(k) => Some(FleeTarget(nodes[k].x, nodes[k].y, nodes[k].spawnRadius))
  }

  /** One agent after one crime. */
  function Warn(a: Agent, c: CrimeEvent, nodes: seq<Node>): Agent {
    if Alarmed(a, c) then a.(fleeingCrime := true, fleeTarget := FleeTo(a, nodes)) else a
  }

  /** The list after one crime: the inner `for (const agent of agents)` loop. */
  function WarnAll(s: seq<Agent>, c: CrimeEvent, nodes: seq<Node>): (r: seq<Agent>)
    ensures |r| == |s| && forall k :: 0 <= k < |s| ==> r[k] == Warn(s[k], c, nodes)
  {
    seq(|s|, k requires 0 <= k < |s| => Warn(s[k], c, nodes))
  }

  /** Somebody is alarmed by the crime. */
  predicate Witnessed(s: seq<Agent>, c: CrimeEvent) {
    exists k :: 0 <= k < |s| && Alarmed(s[k], c)
  }

  /**
   * The scan over crimes[..i], newest first: the agents afterwards and
   * whether anybody was alarmed.
   */
  function Watch(s: seq<Agent>, crimes: seq<CrimeEvent>, nodes: seq<Node>, frame: int, i: nat): (r: (seq<Agent>, bool))
    requires i <= |crimes|
    ensures |r.0| == |s|
    decreases i
  {
    if i == 0 then (s, false)
    else if Stale(crimes[i - 1], frame) then Watch(s, crimes, nodes, frame, i - 1)
    else
      var rest := Watch(WarnAll(s, crimes[i - 1], nodes), crimes, nodes, frame, i - 1);
      (rest.0, rest.1 || Witnessed(s, crimes[i - 1]))
  }

  /** `processCrimeEvents`: the agents and the crime list afterwards. */
  function ProcessCrimes(s: seq<Agent>, crimes: seq<CrimeEvent>, nodes: seq<Node>, frame: int): (seq<Agent>, seq<CrimeEvent>) {
    if crimes == [] then (s, crimes)
    else
      var w := Watch(s, crimes, nodes, frame, |crimes|);
      (w.0, if w.1 then [] else Without(crimes, StaleAt(frame)))
  }

  // ---------------------------------------------------------------------
  // The loops
  // ---------------------------------------------------------------------

  /** The nearest-co-op-node scan with its running minimum. */
  method FindNearestCoop(a: Agent, nodes: seq<Node>) returns (r: Option<FleeTarget>)
    ensures r == FleeTo(a, nodes)
  {
    var k := FindFirstMin(CoopKeys(a, nodes), CoopFlags(nodes), None);
    r := if k.None? then None else Some(FleeTarget(nodes[k.value].x, nodes[k.value].y, nodes[k.value].spawnRadius));
  }

  /** The inner loop over the agents for one crime. */
  method WarnNearby(s: seq<Agent>, c: CrimeEvent, nodes: seq<Node>) returns (r: seq<Agent>, seen: bool)
    ensures r == WarnAll(s, c, nodes) && seen == Witnessed(s, c)
  {
    r := s;
    seen := false;
    var k := 0;
    while k < |r|
      invariant 0 <= k <= |s| && |r| == |s|
      invariant forall l :: 0 <= l < k ==> r[l] == Warn(s[l], c, nodes)
      invariant forall l :: k <= l < |s| ==> r[l] == s[l]
      invariant seen <==> exists l :: 0 <= l < k && Alarmed(s[l], c)
    {
      var a := r[k];
      if a.kind.IsCommonfolk() && !a.fleeingCrime && Within(a.x, a.y, c.x, c.y, CRIME_FLEE_RADIUS) {
        var t := FindNearestCoop(a, nodes);
        r := r[k := a.(fleeingCrime := true, fleeTarget := t)];
        seen := true;
      }
      k := k + 1;
    }
  }

  /** The crime scan from the newest event, then the clear. */
  method WitnessCrimes(s: seq<Agent>, crimes: seq<CrimeEvent>, nodes: seq<Node>, frame: int)
    returns (out: seq<Agent>, left: seq<CrimeEvent>)
    ensures (out, left) == ProcessCrimes(s, crimes, nodes, frame)
  {
    out, left := s, crimes;
    if |crimes| == 0 {
      return;
    }
    var witnessed := false;
    var i := |crimes|;
    while i > 0
      invariant 0 <= i <= |crimes| && |out| == |s|
      invariant left == crimes[..i] + Without(crimes[i..], StaleAt(frame))
      invariant Watch(s, crimes, nodes, frame, |crimes|) ==
        (Watch(out, crimes, nodes, frame, i).0, Watch(out, crimes, nodes, frame, i).1 || witnessed)
    {
      i := i - 1;
      SpliceStep(crimes, i, StaleAt(frame), left);
      var c := left[i];
      if Stale(c, frame) {
        left := left[..i] + left[i + 1..];
      } else {
        var seen;
        out, seen := WarnNearby(out, c, nodes);
        witnessed := witnessed || seen;
      }
    }
    assert crimes[..0] == [] && crimes[0..] == crimes;
    assert left == Without(crimes, StaleAt(frame));
    assert Watch(s, crimes, nodes, frame, |crimes|) == (out, witnessed);
    if witnessed {
      left := [];
    }
  }

  // ---------------------------------------------------------------------
  // What the scan does to every agent
  // ---------------------------------------------------------------------

  /** b is a, or a was a commonfolk agent not yet fleeing and b flees towards a's nearest co-op node. */
  predicate Flees(a: Agent, b: Agent, nodes: seq<Node>) {
    b == a || (a.kind.IsCommonfolk() && !a.fleeingCrime && b == a.(fleeingCrime := true, fleeTarget := FleeTo(a, nodes)))
  }

  /** Every agent of r is its counterpart of s, or that counterpart started fleeing. */
  predicate AllFlee(s: seq<Agent>, r: seq<Agent>, nodes: seq<Node>) {
    |r| == |s| && forall k :: 0 <= k < |s| ==> Flees(s[k], r[k], nodes)
  }

  /** Somebody who was not fleeing in s is fleeing in r. */
  predicate NewlyFleeing(s: seq<Agent>, r: seq<Agent>) {
    exists k :: 0 <= k < |s| && k < |r| && !s[k].fleeingCrime && r[k].fleeingCrime
  }

  /**
   * The scan only sets flee flags and targets, never clears them, sends
   * every newly alarmed agent to its nearest co-op node, and reports a
   * witness exactly when somebody started fleeing.
   */
  lemma {:induction false} WatchFacts(s: seq<Agent>, crimes: seq<CrimeEvent>, nodes: seq<Node>, frame: int, i: nat)
    requires i <= |crimes|
    ensures AllFlee(s, Watch(s, crimes, nodes, frame, i).0, nodes)
    ensures Watch(s, crimes, nodes, frame, i).1 <==> NewlyFleeing(s, Watch(s, crimes, nodes, frame, i).0)
    decreases i
  {
    if i > 0 && !Stale(crimes[i - 1], frame) {
      var c := crimes[i - 1];
      var w := WarnAll(s, c, nodes);
      WatchFacts(w, crimes, nodes, frame, i - 1);
      var r := Watch(w, crimes, nodes, frame, i - 1).0;
      assert r == Watch(s, crimes, nodes, frame, i).0;
      forall k | 0 <= k < |s| ensures Flees(s[k], r[k], nodes) {
        assert Flees(w[k], r[k], nodes);
      }
      if Witnessed(s, c) {
        var k :| 0 <= k < |s| && Alarmed(s[k], c);
        assert Flees(w[k], r[k], nodes);
      }
      if NewlyFleeing(w, r) {
        var k :| 0 <= k < |w| && k < |r| && !w[k].fleeingCrime && r[k].fleeingCrime;
        assert w[k] == Warn(s[k], c, nodes);
      }
      if NewlyFleeing(s, r) && !Witnessed(s, c) {
        var k :| 0 <= k < |s| && k < |r| && !s[k].fleeingCrime && r[k].fleeingCrime;
        assert w[k] == s[k];
      }
    } else if i > 0 {
      WatchFacts(s, crimes, nodes, frame, i - 1);
    } else {
      assert !NewlyFleeing(s, s);
    }
  }

  /** s is near a recent crime of crimes[..i]. */
  predicate NearRecentCrime(a: Agent, crimes: seq<CrimeEvent>, frame: int, i: nat)
    requires i <= |crimes|
  {
    exists j :: 0 <= j < i && !Stale(crimes[j], frame) && Within(a.x, a.y, crimes[j].x, crimes[j].y, CRIME_FLEE_RADIUS)
  }

  /** Only agents near a crime of the last CRIME_MEMORY_TICKS ticks start fleeing. */
  lemma {:induction false} WatchCause(s: seq<Agent>, crimes: seq<CrimeEvent>, nodes: seq<Node>, frame: int, i: nat, k: nat)
    requires i <= |crimes| && k < |s|
    requires !s[k].fleeingCrime && Watch(s, crimes, nodes, frame, i).0[k].fleeingCrime
    ensures NearRecentCrime(s[k], crimes, frame, i)
    decreases i
  {
    if !Stale(crimes[i - 1], frame) {
      var c := crimes[i - 1];
      var w := WarnAll(s, c, nodes);
      if Alarmed(s[k], c) {
        assert !Stale(crimes[i - 1], frame) && Within(s[k].x, s[k].y, c.x, c.y, CRIME_FLEE_RADIUS);
      } else {
        assert w[k] == s[k];
        WatchCause(w, crimes, nodes, frame, i - 1, k);
      }
    } else {
      WatchCause(s, crimes, nodes, frame, i - 1, k);
    }
  }

  /**
   * The crime list afterwards: cleared when somebody started fleeing,
   * otherwise exactly the events of the last CRIME_MEMORY_TICKS ticks.
   */
  lemma CrimesLeft(s: seq<Agent>, crimes: seq<CrimeEvent>, nodes: seq<Node>, frame: int)
    ensures var r := ProcessCrimes(s, crimes, nodes, frame);
      && AllFlee(s, r.0, nodes)
      && (NewlyFleeing(s, r.0) ==> r.1 == [])
      && (!NewlyFleeing(s, r.0) ==> forall c :: c in r.1 <==> c in crimes && !Stale(c, frame))
  {
    if crimes != [] {
      WatchFacts(s, crimes, nodes, frame, |crimes|);
      forall c ensures c in Without(crimes, StaleAt(frame)) <==> c in crimes && !Stale(c, frame) {
        WithoutMembers(crimes, StaleAt(frame), c);
      }
    } else {
      assert !NewlyFleeing(s, s);
      forall k | 0 <= k < |s| ensures Flees(s[k], s[k], nodes) { }
    }
  }
}
