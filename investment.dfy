/**
 * `updateCoopInvestment` and `updatePredatorInvestment`: once a pool holds
 * its node threshold, the threshold is spent on a new node of that kind,
 * placed by up to NODE_PLACEMENT_ATTEMPTS random draws each of which must
 * keep the new node's spawn circle off every existing node's; when every
 * draw fails the threshold is refunded. The two functions differ only in
 * their pool, threshold, spawn radius, node kind and counter, so one
 * definition takes the kind as a parameter.
 */
module Investment {
  import opened Wrappers
  import opened Geometry
  import opened Entities

  /** The pool a node kind is bought from must hold at least this much. */
  function Threshold(kind: NodeKind): real {
    if kind == CoopNode then NODE_MASS_THRESHOLD else PREDATOR_NODE_MASS_THRESHOLD
  }

  /** The spawn radius the candidate spot is checked against. */
  function OwnRadius(kind: NodeKind): real {
    if kind == CoopNode then NODE_SPAWN_RADIUS else PREDATOR_NODE_SPAWN_RADIUS
  }

  /** No existing node lies closer to (x, y) than its spawn radius plus R. */
  predicate Clear(x: real, y: real, nodes: seq<Node>, R: real) {
    forall k :: 0 <= k < |nodes| ==> !Within(x, y, nodes[k].x, nodes[k].y, nodes[k].spawnRadius + R)
  }

  /** The inner scan over the nodes, which stops at the first overlap. */
  method SpotClear(x: real, y: real, nodes: seq<Node>, R: real) returns (ok: bool)
    ensures ok == Clear(x, y, nodes, R)
  {
    ok := true;
    var k := 0;
    while k < |nodes|
      invariant 0 <= k <= |nodes|
      invariant forall l :: 0 <= l < k ==> !Within(x, y, nodes[l].x, nodes[l].y, nodes[l].spawnRadius + R)
    {
      if Within(x, y, nodes[k].x, nodes[k].y, nodes[k].spawnRadius + R) {
        ok := false;
        break;
      }
      k := k + 1;
    }
  }

  /** `getRandom(R, size - R)` for a draw in [0, 1). */
  function Coordinate(roll: real, size: real, R: real): real {
    roll * ((size - R) - R) + R
  }

  /** The spot the draw of attempt t proposes. */
  function Spot(kind: NodeKind, width: real, height: real, rolls: nat -> (real, real), t: nat): (real, real) {
    (Coordinate(rolls(t).0, width, OwnRadius(kind)), Coordinate(rolls(t).1, height, OwnRadius(kind)))
  }

  predicate SpotIsClear(kind: NodeKind, nodes: seq<Node>, width: real, height: real, rolls: nat -> (real, real), t: nat) {
    Clear(Spot(kind, width, height, rolls, t).0, Spot(kind, width, height, rolls, t).1, nodes, OwnRadius(kind))
  }

  /** The first attempt from t on whose spot is clear, if one of the attempts left finds one. */
  function FirstClear(kind: NodeKind, nodes: seq<Node>, width: real, height: real,
                      rolls: nat -> (real, real), t: nat): (r: Option<nat>)
    ensures r.Some? ==> t <= r.value < NODE_PLACEMENT_ATTEMPTS && SpotIsClear(kind, nodes, width, height, rolls, r.value)
    ensures r.Some? ==> forall u :: t <= u < r.value ==> !SpotIsClear(kind, nodes, width, height, rolls, u)
    ensures r.None? ==> forall u :: t <= u < NODE_PLACEMENT_ATTEMPTS ==> !SpotIsClear(kind, nodes, width, height, rolls, u)
    decreases NODE_PLACEMENT_ATTEMPTS - t
  {
    if t >= NODE_PLACEMENT_ATTEMPTS then None
    else if SpotIsClear(kind, nodes, width, height, rolls, t) then Some(t)
    else FirstClear(kind, nodes, width, height, rolls, t + 1)
  }

  /** The placement loop `while (!validSpot && attempts < 10)`. */
  method FindSpot(kind: NodeKind, nodes: seq<Node>, width: real, height: real, rolls: nat -> (real, real))
    returns (found: Option<nat>)
    ensures found == FirstClear(kind, nodes, width, height, rolls, 0)
  {
    var valid := false;
    var attempts := 0;
    while !valid && attempts < NODE_PLACEMENT_ATTEMPTS
      invariant 0 <= attempts <= NODE_PLACEMENT_ATTEMPTS
      invariant !valid ==> FirstClear(kind, nodes, width, height, rolls, 0) == FirstClear(kind, nodes, width, height, rolls, attempts)
      invariant valid ==> attempts > 0 && FirstClear(kind, nodes, width, height, rolls, 0) == Some(attempts - 1)
      decreases NODE_PLACEMENT_ATTEMPTS - attempts, if valid then 0 else 1
    {
      var p := Spot(kind, width, height, rolls, attempts);
      valid := SpotClear(p.0, p.1, nodes, OwnRadius(kind));
      attempts := attempts + 1;
    }
    found := if valid then Some(attempts - 1) else None;
  }

  /** The pool and node list after one investment step, and whether a node was built. */
  datatype Investment = Investment(pool: real, nodes: seq<Node>, built: bool)

  /** One investment step for the given kind; `id` is the new node's id. */
  function Invest(kind: NodeKind, pool: real, nodes: seq<Node>, width: real, height: real,
                  rolls: nat -> (real, real), id: nat): (r: Investment)
  {
    if pool < Threshold(kind) then Investment(pool, nodes, false)
    else
      var spent := pool - Threshold(kind);
      match FirstClear(kind, nodes, width, height, rolls, 0)
      case None => Investment(spent + Threshold(kind), nodes, false)
      case Some(t) =>
        var p := Spot(kind, width, height, rolls, t);
        Investment(spent, nodes + [NewNode(id, p.0, p.1, kind)], true)
  }

  /**
   * What an investment step does: below the threshold nothing changes; at
   * or above it a node of the kind is appended and the pool drops by the
   * threshold exactly when one of the attempts finds a clear spot, and
   * otherwise the pool is back at its prior value and the nodes are as
   * they were. A built node's spawn circle overlaps no existing node's.
   */
  lemma InvestFacts(kind: NodeKind, pool: real, nodes: seq<Node>, width: real, height: real,
                    rolls: nat -> (real, real), id: nat)
    ensures var r := Invest(kind, pool, nodes, width, height, rolls, id);
      && (r.built <==>
            (pool >= Threshold(kind) &&
             exists t :: 0 <= t < NODE_PLACEMENT_ATTEMPTS && SpotIsClear(kind, nodes, width, height, rolls, t)))
      && (!r.built ==> r.pool == pool && r.nodes == nodes)
      && (r.built ==> r.pool == pool - Threshold(kind) && |r.nodes| == |nodes| + 1 && r.nodes[..|nodes|] == nodes)
      && (r.built ==>
            (r.nodes[|nodes|].kind == kind && r.nodes[|nodes|].id == id &&
             r.nodes[|nodes|].spawnRadius == OwnRadius(kind) &&
             Clear(r.nodes[|nodes|].x, r.nodes[|nodes|].y, nodes, r.nodes[|nodes|].spawnRadius)))
  {
    var r := Invest(kind, pool, nodes, width, height, rolls, id);
    if pool >= Threshold(kind) {
      var f := FirstClear(kind, nodes, width, height, rolls, 0);
      if f.Some? {
        assert r.nodes[..|nodes|] == nodes;
      }
    }
  }

  /** No node's spawn circle overlaps an earlier node's spawn circle. */
  predicate Separated(nodes: seq<Node>) {
    forall k, l :: 0 <= k < l < |nodes| ==>
      !Within(nodes[l].x, nodes[l].y, nodes[k].x, nodes[k].y, nodes[k].spawnRadius + nodes[l].spawnRadius)
  }

  /** Investment keeps the nodes' spawn circles apart. */
  lemma InvestSeparated(kind: NodeKind, pool: real, nodes: seq<Node>, width: real, height: real,
                        rolls: nat -> (real, real), id: nat)
    requires Separated(nodes)
    ensures Separated(Invest(kind, pool, nodes, width, height, rolls, id).nodes)
  {
    var r := Invest(kind, pool, nodes, width, height, rolls, id);
    InvestFacts(kind, pool, nodes, width, height, rolls, id);
    if r.built {
      var n := r.nodes[|nodes|];
      forall k, l | 0 <= k < l < |r.nodes|
        ensures !Within(r.nodes[l].x, r.nodes[l].y, r.nodes[k].x, r.nodes[k].y, r.nodes[k].spawnRadius + r.nodes[l].spawnRadius)
      {
        assert r.nodes[k] == nodes[k];
        if l < |nodes| {
          assert r.nodes[l] == nodes[l];
        }
      }
    }
  }

  /** With a draw in [0, 1) and room for the radius, a coordinate stays R away from both edges. */
  lemma CoordinateInRange(roll: real, size: real, R: real)
    requires 0.0 <= roll < 1.0 && 2.0 * R <= size
    ensures R <= Coordinate(roll, size, R) <= size - R
  {
    var w := (size - R) - R;
    Scaled(roll, w);
    assert Coordinate(roll, size, R) == roll * w + R;
    assert R <= roll * w + R <= w + R;
    assert w + R == size - R;
  }

  /** With draws in [0, 1) and room for the radius, the new node lies inside the arena margins. */
  lemma SpotInArena(kind: NodeKind, width: real, height: real, rolls: nat -> (real, real), t: nat)
    requires 0.0 <= rolls(t).0 < 1.0 && 0.0 <= rolls(t).1 < 1.0
    requires 2.0 * OwnRadius(kind) <= width && 2.0 * OwnRadius(kind) <= height
    ensures var p := Spot(kind, width, height, rolls, t); var R := OwnRadius(kind);
      R <= p.0 <= width - R && R <= p.1 <= height - R
  {
    CoordinateInRange(rolls(t).0, width, OwnRadius(kind));
    CoordinateInRange(rolls(t).1, height, OwnRadius(kind));
  }

  /** A draw in [0, 1) scales a non-negative span into [0, span]. */
  lemma Scaled(a: real, w: real)
    requires 0.0 <= a < 1.0 && w >= 0.0
    ensures 0.0 <= a * w <= w
  {
    MulNonNegative(1.0 - a, w);
    MulNonNegative(a, w);
  }
}
