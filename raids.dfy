/**
 * The raid force of a predator node (the force adjustment inside
 * `Node.update`): the accumulation loops that measure the predator mass
 * inside a node and the mass already raiding it, and the greedy loops that
 * call for backup nearest first or dismiss extras farthest first.
 */
module Raids {
  import opened Wrappers
  import opened Geometry
  import opened Entities

  // ---------------------------------------------------------------------
  // Sums and counts over the agent list (the `for (const agent of agents)`
  // accumulation loops)
  // ---------------------------------------------------------------------

  /** Which agents a sum or a count ranges over. */
  datatype Sel = IdleEnforcers | RaidersOf(id: nat) | PredatorsIn(n: Node)

  predicate Picks(w: Sel, a: Agent) {
    match w
    case IdleEnforcers => Idle(a)
    case RaidersOf(id) => RaidsOn(a, id)
    case PredatorsIn(n) => PredatorInside(a, n)
  }

  function Part(a: Agent, w: Sel): real {
    if Picks(w, a) then a.mass else 0.0
  }

  /** Total mass of the agents `w` selects. */
  function SumMass(s: seq<Agent>, w: Sel): real
    decreases |s|
  {
    if |s| == 0 then 0.0 else SumMass(s[..|s| - 1], w) + Part(s[|s| - 1], w)
  }

  /** Number of agents `w` selects. */
  function CountWhere(s: seq<Agent>, w: Sel): nat
    decreases |s|
  {
    if |s| == 0 then 0 else CountWhere(s[..|s| - 1], w) + (if Picks(w, s[|s| - 1]) then 1 else 0)
  }

  /** Replacing one agent changes the sum and the count by that agent's share only. */
  lemma {:induction false} SumMassUpdate(s: seq<Agent>, w: Sel, i: nat, v: Agent)
    requires i < |s|
    ensures SumMass(s[i := v], w) == SumMass(s, w) - Part(s[i], w) + Part(v, w)
    ensures CountWhere(s[i := v], w) == CountWhere(s, w) - (if Picks(w, s[i]) then 1 else 0) + (if Picks(w, v) then 1 else 0)
    decreases |s|
  {
    var n := |s| - 1;
    if i < n {
      assert s[i := v][..n] == s[..n][i := v];
      SumMassUpdate(s[..n], w, i, v);
    } else {
      assert s[i := v][..n] == s[..n];
    }
  }

  /** A sum of non-negative masses is non-negative. */
  lemma {:induction false} SumMassNonneg(s: seq<Agent>, w: Sel)
    requires forall k :: 0 <= k < |s| ==> s[k].mass >= 0.0
    ensures SumMass(s, w) >= 0.0
    decreases |s|
  {
    if |s| > 0 {
      SumMassNonneg(s[..|s| - 1], w);
    }
  }

  /** The accumulation loop. */
  method Measure(s: seq<Agent>, w: Sel) returns (total: real, count: nat)
    ensures total == SumMass(s, w) && count == CountWhere(s, w)
  {
    total, count := 0.0, 0;
    var k := 0;
    while k < |s|
      invariant 0 <= k <= |s|
      invariant total == SumMass(s[..k], w) && count == CountWhere(s[..k], w)
    {
      assert s[..k + 1][..k] == s[..k];
      if Picks(w, s[k]) {
        total := total + s[k].mass;
        count := count + 1;
      }
      k := k + 1;
    }
    assert s[..k] == s;
  }

  // ---------------------------------------------------------------------
  // Raid participants
  // ---------------------------------------------------------------------

  /** An enforcer available for a raid. */
  predicate Idle(a: Agent) {
    a.kind == Enforcer && !a.isRaiding
  }

  /** An enforcer assigned to the raid on node `id`. */
  predicate RaidsOn(a: Agent, id: nat) {
    a.kind == Enforcer && a.isRaiding && a.raidTarget == Some(id)
  }

  /** A predator inside node n's spawn radius. */
  predicate PredatorInside(a: Agent, n: Node) {
    a.kind == Predator && Within(a.x, a.y, n.x, n.y, n.spawnRadius)
  }

  /** The mass of the force raiding node `id`. */
  function RaidMass(s: seq<Agent>, id: nat): real {
    SumMass(s, RaidersOf(id))
  }

  /** The raid force a node calls for: 4 times the predator mass inside it. */
  function RaidTargetMass(s: seq<Agent>, n: Node): real {
    4.0 * SumMass(s, PredatorsIn(n))
  }

  function Join(a: Agent, id: nat): Agent {
    a.(isRaiding := true, raidTarget := Some(id))
  }

  function Leave(a: Agent): Agent {
    a.(isRaiding := false, raidTarget := None)
  }

  /** Squared distances from the node, the sort key of the backup list. */
  function DistKeys(s: seq<Agent>, n: Node): (keys: seq<real>)
    ensures |keys| == |s|
    ensures forall k :: 0 <= k < |s| ==> keys[k] == DistSq(n.x, n.y, s[k].x, s[k].y)
  {
    seq(|s|, k requires 0 <= k < |s| => DistSq(n.x, n.y, s[k].x, s[k].y))
  }

  /** Negated squared distances: their first minimum is the farthest agent. */
  function FarKeys(s: seq<Agent>, n: Node): (keys: seq<real>)
    ensures |keys| == |s|
    ensures forall k :: 0 <= k < |s| ==> keys[k] == -DistSq(n.x, n.y, s[k].x, s[k].y)
  {
    seq(|s|, k requires 0 <= k < |s| => -DistSq(n.x, n.y, s[k].x, s[k].y))
  }

  function IdleFlags(s: seq<Agent>): (flags: seq<bool>)
    ensures |flags| == |s|
    ensures forall k :: 0 <= k < |s| ==> flags[k] == Idle(s[k])
  {
    seq(|s|, k requires 0 <= k < |s| => Idle(s[k]))
  }

  function RaiderFlags(s: seq<Agent>, id: nat): (flags: seq<bool>)
    ensures |flags| == |s|
    ensures forall k :: 0 <= k < |s| ==> flags[k] == RaidsOn(s[k], id)
  {
    seq(|s|, k requires 0 <= k < |s| => RaidsOn(s[k], id))
  }

  /** Agent i comes before agent j in the stable order of distance from n, nearest first. */
  predicate Nearer(s: seq<Agent>, n: Node, i: nat, j: nat)
    requires i < |s| && j < |s|
  {
    var di := DistSq(n.x, n.y, s[i].x, s[i].y);
    var dj := DistSq(n.x, n.y, s[j].x, s[j].y);
    di < dj || (di == dj && i < j)
  }

  /** Agent i comes before agent j in the stable order of distance from n, farthest first. */
  predicate Farther(s: seq<Agent>, n: Node, i: nat, j: nat)
    requires i < |s| && j < |s|
  {
    var di := DistSq(n.x, n.y, s[i].x, s[i].y);
    var dj := DistSq(n.x, n.y, s[j].x, s[j].y);
    di > dj || (di == dj && i < j)
  }

  // ---------------------------------------------------------------------
  // Calling for backup
  //
  // The source sorts the idle enforcers by distance (a stable sort) and
  // walks the sorted list until the target is met. Taking the first nearest
  // idle enforcer again at each step visits them in the same order, since
  // assigning one removes it from the idle set and moves nobody.
  // ---------------------------------------------------------------------

  /** r differs from s only in idle enforcers now assigned to node `id`. */
  predicate OnlyJoined(s: seq<Agent>, r: seq<Agent>, id: nat)
    requires |r| == |s|
  {
    forall i :: 0 <= i < |s| ==> r[i] == s[i] || (Idle(s[i]) && r[i] == Join(s[i], id))
  }

  /** Every enforcer changed from s to r comes, nearest first, before every enforcer idle in r. */
  predicate RecruitedNearestFirst(s: seq<Agent>, r: seq<Agent>, n: Node)
    requires |r| == |s|
  {
    forall i, j :: 0 <= i < |s| && 0 <= j < |s| && r[i] != s[i] && Idle(r[j]) ==> Nearer(s, n, i, j)
  }

  predicate NoneIdle(r: seq<Agent>) {
    forall i :: 0 <= i < |r| ==> !Idle(r[i])
  }

  /** Agent i is the last one assigned from s to r, in the nearest-first order. */
  predicate LastJoined(s: seq<Agent>, r: seq<Agent>, n: Node, i: nat)
    requires |r| == |s| && i < |s|
  {
    r[i] != s[i] && forall j :: 0 <= j < |s| && j != i && r[j] != s[j] ==> Nearer(s, n, j, i)
  }

  /**
   * The backup loop's stopping rule: there is a last enforcer assigned, and
   * before it was assigned the running mass m was still below the target.
   */
  predicate JoinedWhileShort(s: seq<Agent>, r: seq<Agent>, n: Node, m: real, target: real)
    requires |r| == |s|
  {
    && (r != s ==> exists i :: 0 <= i < |s| && LastJoined(s, r, n, i))
    && (forall i :: 0 <= i < |s| && LastJoined(s, r, n, i) ==> m - s[i].mass < target)
  }

  /**
   * The backup loop. Idle enforcers are assigned nearest first (ties in
   * list order) while the running mass is below the target; afterwards the
   * target is met or nobody is idle, and the last one assigned was needed:
   * the loop checks the target before each assignment. The running mass
   * grows by exactly the mass the assignments add to the node's raid force.
   */
  method Recruit(s: seq<Agent>, n: Node, mass: real, target: real) returns (r: seq<Agent>, m: real)
    ensures |r| == |s| && OnlyJoined(s, r, n.id)
    ensures m - mass == RaidMass(r, n.id) - RaidMass(s, n.id)
    ensures m >= target || NoneIdle(r)
    ensures RecruitedNearestFirst(s, r, n)
    ensures mass >= target ==> r == s
    ensures r == s ==> m == mass
    ensures JoinedWhileShort(s, r, n, m, target)
  {
    r, m := s, mass;
    while m < target
      invariant |r| == |s| && OnlyJoined(s, r, n.id)
      invariant m - mass == RaidMass(r, n.id) - RaidMass(s, n.id)
      invariant RecruitedNearestFirst(s, r, n)
      invariant mass >= target ==> r == s
      invariant r == s ==> m == mass
      invariant JoinedWhileShort(s, r, n, m, target)
      decreases CountWhere(r, IdleEnforcers)
    {
      var pick := FindFirstMin(DistKeys(r, n), IdleFlags(r), None);
      if pick.None? {
        break;
      }
      var q := pick.value;
      RecruitStep(s, r, n, q, mass, m);
      RecruitLast(s, r, n, q, m, target);
      m := m + r[q].mass;
      r := r[q := Join(r[q], n.id)];
    }
  }

  /** One assignment re-establishes the loop invariants of Recruit. */
  lemma RecruitStep(s: seq<Agent>, r: seq<Agent>, n: Node, q: nat, mass: real, m: real)
    requires |r| == |s| && q < |s| && OnlyJoined(s, r, n.id) && RecruitedNearestFirst(s, r, n)
    requires IsFirstMin(DistKeys(r, n), IdleFlags(r), None, Some(q))
    requires m - mass == RaidMass(r, n.id) - RaidMass(s, n.id)
    ensures var r1 := r[q := Join(r[q], n.id)]; var m1 := m + r[q].mass;
      && OnlyJoined(s, r1, n.id) && RecruitedNearestFirst(s, r1, n)
      && m1 - mass == RaidMass(r1, n.id) - RaidMass(s, n.id)
      && r1[q] != s[q] && m1 - s[q].mass == m
      && CountWhere(r1, IdleEnforcers) < CountWhere(r, IdleEnforcers)
  {
    assert Idle(r[q]) && r[q] == s[q];
    SumMassUpdate(r, IdleEnforcers, q, Join(r[q], n.id));
    SumMassUpdate(r, RaidersOf(n.id), q, Join(r[q], n.id));
    RecruitOrderStep(s, r, n, q);
  }

  /** The enforcer just assigned, with the running mass still short, is the last one and was needed. */
  lemma RecruitLast(s: seq<Agent>, r: seq<Agent>, n: Node, q: nat, m: real, target: real)
    requires |r| == |s| && q < |s| && OnlyJoined(s, r, n.id) && RecruitedNearestFirst(s, r, n)
    requires IsFirstMin(DistKeys(r, n), IdleFlags(r), None, Some(q)) && m < target
    ensures JoinedWhileShort(s, r[q := Join(r[q], n.id)], n, m + r[q].mass, target)
  {
    var r1 := r[q := Join(r[q], n.id)];
    assert Idle(r[q]) && r[q] == s[q];
    assert LastJoined(s, r1, n, q);
    forall i | 0 <= i < |s| && LastJoined(s, r1, n, i)
      ensures m + r[q].mass - s[i].mass < target
    {
      if i != q {
        assert false;
      }
    }
  }

  /** One assignment keeps RecruitedNearestFirst: the pick q precedes every enforcer still idle. */
  lemma RecruitOrderStep(s: seq<Agent>, r: seq<Agent>, n: Node, q: nat)
    requires |r| == |s| && q < |s| && OnlyJoined(s, r, n.id)
    requires IsFirstMin(DistKeys(r, n), IdleFlags(r), None, Some(q))
    requires RecruitedNearestFirst(s, r, n)
    ensures RecruitedNearestFirst(s, r[q := Join(r[q], n.id)], n)
  {
    var r1 := r[q := Join(r[q], n.id)];
    forall i, j | 0 <= i < |s| && 0 <= j < |s| && r1[i] != s[i] && Idle(r1[j])
      ensures Nearer(s, n, i, j)
    {
      assert j != q && r1[j] == r[j];
      if i == q {
        assert IdleFlags(r)[j];
        assert r[q].x == s[q].x && r[q].y == s[q].y && r[j].x == s[j].x && r[j].y == s[j].y;
      } else {
        assert r1[i] == r[i];
      }
    }
  }

  // ---------------------------------------------------------------------
  // Dismissing extra raiders: the mirror image, farthest first
  // ---------------------------------------------------------------------

  /** r differs from s only in raiders of node `id` now released. */
  predicate OnlyLeft(s: seq<Agent>, r: seq<Agent>, id: nat)
    requires |r| == |s|
  {
    forall i :: 0 <= i < |s| ==> r[i] == s[i] || (RaidsOn(s[i], id) && r[i] == Leave(s[i]))
  }

  /** Every raider changed from s to r comes, farthest first, before every raider kept in r. */
  predicate DismissedFarthestFirst(s: seq<Agent>, r: seq<Agent>, n: Node)
    requires |r| == |s|
  {
    forall i, j :: 0 <= i < |s| && 0 <= j < |s| && r[i] != s[i] && RaidsOn(r[j], n.id) ==> Farther(s, n, i, j)
  }

  predicate NoneRaiding(r: seq<Agent>, id: nat) {
    forall i :: 0 <= i < |r| ==> !RaidsOn(r[i], id)
  }

  /** Agent i is the last one released from s to r, in the farthest-first order. */
  predicate LastLeft(s: seq<Agent>, r: seq<Agent>, n: Node, i: nat)
    requires |r| == |s| && i < |s|
  {
    r[i] != s[i] && forall j :: 0 <= j < |s| && j != i && r[j] != s[j] ==> Farther(s, n, j, i)
  }

  /**
   * The dismissal loop's stopping rule: there is a last raider released,
   * and before it was released the running mass m was still above the target.
   */
  predicate LeftWhileOver(s: seq<Agent>, r: seq<Agent>, n: Node, m: real, target: real)
    requires |r| == |s|
  {
    && (r != s ==> exists i :: 0 <= i < |s| && LastLeft(s, r, n, i))
    && (forall i :: 0 <= i < |s| && LastLeft(s, r, n, i) ==> m + s[i].mass > target)
  }

  /**
   * The dismissal loop. Raiders of this node are released farthest first
   * (ties in list order) while the running mass is above the target;
   * afterwards it is at or under the target or nobody is left, and the
   * last release was needed: the loop checks the target before each release.
   */
  method Dismiss(s: seq<Agent>, n: Node, mass: real, target: real) returns (r: seq<Agent>, m: real)
    ensures |r| == |s| && OnlyLeft(s, r, n.id)
    ensures m - mass == RaidMass(r, n.id) - RaidMass(s, n.id)
    ensures m <= target || NoneRaiding(r, n.id)
    ensures DismissedFarthestFirst(s, r, n)
    ensures mass <= target ==> r == s
    ensures r == s ==> m == mass
    ensures LeftWhileOver(s, r, n, m, target)
  {
    r, m := s, mass;
    while m > target
      invariant |r| == |s| && OnlyLeft(s, r, n.id)
      invariant m - mass == RaidMass(r, n.id) - RaidMass(s, n.id)
      invariant DismissedFarthestFirst(s, r, n)
      invariant mass <= target ==> r == s
      invariant r == s ==> m == mass
      invariant LeftWhileOver(s, r, n, m, target)
      decreases CountWhere(r, RaidersOf(n.id))
    {
      var pick := FindFirstMin(FarKeys(r, n), RaiderFlags(r, n.id), None);
      if pick.None? {
        break;
      }
      var q := pick.value;
      DismissStep(s, r, n, q, mass, m);
      DismissLast(s, r, n, q, m, target);
      m := m - r[q].mass;
      r := r[q := Leave(r[q])];
    }
  }

  /** One release re-establishes the loop invariants of Dismiss. */
  lemma DismissStep(s: seq<Agent>, r: seq<Agent>, n: Node, q: nat, mass: real, m: real)
    requires |r| == |s| && q < |s| && OnlyLeft(s, r, n.id) && DismissedFarthestFirst(s, r, n)
    requires IsFirstMin(FarKeys(r, n), RaiderFlags(r, n.id), None, Some(q))
    requires m - mass == RaidMass(r, n.id) - RaidMass(s, n.id)
    ensures var r1 := r[q := Leave(r[q])]; var m1 := m - r[q].mass;
      && OnlyLeft(s, r1, n.id) && DismissedFarthestFirst(s, r1, n)
      && m1 - mass == RaidMass(r1, n.id) - RaidMass(s, n.id)
      && r1[q] != s[q] && m1 + s[q].mass == m
      && CountWhere(r1, RaidersOf(n.id)) < CountWhere(r, RaidersOf(n.id))
  {
    assert RaidsOn(r[q], n.id) && r[q] == s[q];
    SumMassUpdate(r, RaidersOf(n.id), q, Leave(r[q]));
    DismissOrderStep(s, r, n, q);
  }

  /** The raider just released, with the running mass still over, is the last one and was needed. */
  lemma DismissLast(s: seq<Agent>, r: seq<Agent>, n: Node, q: nat, m: real, target: real)
    requires |r| == |s| && q < |s| && OnlyLeft(s, r, n.id) && DismissedFarthestFirst(s, r, n)
    requires IsFirstMin(FarKeys(r, n), RaiderFlags(r, n.id), None, Some(q)) && m > target
    ensures LeftWhileOver(s, r[q := Leave(r[q])], n, m - r[q].mass, target)
  {
    var r1 := r[q := Leave(r[q])];
    assert RaidsOn(r[q], n.id) && r[q] == s[q];
    assert LastLeft(s, r1, n, q);
    forall i | 0 <= i < |s| && LastLeft(s, r1, n, i)
      ensures m - r[q].mass + s[i].mass > target
    {
      if i != q {
        assert false;
      }
    }
  }

  /** One release keeps DismissedFarthestFirst: the pick q precedes every raider kept. */
  lemma DismissOrderStep(s: seq<Agent>, r: seq<Agent>, n: Node, q: nat)
    requires |r| == |s| && q < |s| && OnlyLeft(s, r, n.id)
    requires IsFirstMin(FarKeys(r, n), RaiderFlags(r, n.id), None, Some(q))
    requires DismissedFarthestFirst(s, r, n)
    ensures DismissedFarthestFirst(s, r[q := Leave(r[q])], n)
  {
    var r1 := r[q := Leave(r[q])];
    forall i, j | 0 <= i < |s| && 0 <= j < |s| && r1[i] != s[i] && RaidsOn(r1[j], n.id)
      ensures Farther(s, n, i, j)
    {
      assert j != q && r1[j] == r[j];
      if i == q {
        assert RaiderFlags(r, n.id)[j];
        assert r[q].x == s[q].x && r[q].y == s[q].y && r[j].x == s[j].x && r[j].y == s[j].y;
      } else {
        assert r1[i] == r[i];
      }
    }
  }

  // ---------------------------------------------------------------------
  // The force adjustment as a whole
  // ---------------------------------------------------------------------

  /**
   * r is the agent list after the force adjustment of node n: below the
   * target (4 times the predator mass inside), the nearest idle enforcers
   * were assigned until the raid mass met it or nobody was idle; above it,
   * the farthest raiders were released until the raid mass was at or under
   * it or nobody was left; at the target, nothing changed. In each case the
   * target was checked before each change, so the last change was needed.
   */
  predicate Balanced(s: seq<Agent>, n: Node, r: seq<Agent>) {
    var target := RaidTargetMass(s, n);
    var current := RaidMass(s, n.id);
    |r| == |s| &&
    if current < target then
      && OnlyJoined(s, r, n.id)
      && RecruitedNearestFirst(s, r, n)
      && (RaidMass(r, n.id) >= target || NoneIdle(r))
      && JoinedWhileShort(s, r, n, RaidMass(r, n.id), target)
    else if current > target then
      && OnlyLeft(s, r, n.id)
      && DismissedFarthestFirst(s, r, n)
      && (RaidMass(r, n.id) <= target || NoneRaiding(r, n.id))
      && LeftWhileOver(s, r, n, RaidMass(r, n.id), target)
    else r == s
  }

  /**
   * The force adjustment of a raided node, as `Node.update` performs it:
   * measure the predator mass inside and the current raid force (whose
   * size is reported for the statistics), then recruit or dismiss.
   */
  method Balance(s: seq<Agent>, n: Node) returns (r: seq<Agent>, force: nat)
    ensures Balanced(s, n, r)
    ensures force == CountWhere(s, RaidersOf(n.id))
    ensures forall i :: 0 <= i < |s| ==> r[i] == s[i].(isRaiding := r[i].isRaiding, raidTarget := r[i].raidTarget)
  {
    var inside, _ := Measure(s, PredatorsIn(n));
    var target := inside * 4.0;
    var current, count := Measure(s, RaidersOf(n.id));
    force := count;
    if current < target {
      var m;
      r, m := Recruit(s, n, current, target);
    } else if current > target {
      var m;
      r, m := Dismiss(s, n, current, target);
    } else {
      r := s;
    }
  }
}
