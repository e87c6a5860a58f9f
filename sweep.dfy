/**
 * The two clean-ups at the end of `updateAgents`: the backward death check
 * that splices out every agent at or below its floor, and the removal of
 * the resources eaten this tick, highest index first so that no splice
 * shifts an index still to be removed.
 */
module Sweep {
  import opened Geometry
  import opened Entities
  import opened Feeding

  /** `agent.mass <= agent.MINIMUM_MASS` (the NaN tests are left out). */
  predicate Dead(a: Agent) {
    a.mass <= AGENT_DEATH_THRESHOLD
  }

  /**
   * The agent death check. Exactly the agents above the floor survive, in
   * their old order (`Without` keeps order, see `Geometry.WithoutAppend`).
   */
  method SweepDead(s: seq<Agent>) returns (r: seq<Agent>)
    ensures r == Without(s, Dead)
    ensures forall a :: a in r <==> a in s && !Dead(a)
  {
    r := RemoveWhere(s, Dead);
    forall a ensures a in r <==> a in s && !Dead(a) {
      WithoutMembers(s, Dead, a);
    }
  }

  /** A tick where nobody is at the floor loses nobody. */
  lemma SweepNone(s: seq<Agent>)
    requires forall k :: 0 <= k < |s| ==> s[k].mass > AGENT_DEATH_THRESHOLD
    ensures Without(s, Dead) == s
  {
    WithoutNone(s, Dead);
  }

  // ---------------------------------------------------------------------
  // Consumed resources
  // ---------------------------------------------------------------------

  /** The resources from index `from` on whose index was not consumed, in order. */
  function Kept(rs: seq<Resource>, taken: seq<nat>, from: nat): (r: seq<Resource>)
    requires from <= |rs|
    ensures |r| <= |rs| - from
    decreases |rs| - from
  {
    if from == |rs| then []
    else (if from in taken then [] else [rs[from]]) + Kept(rs, taken, from + 1)
  }

  /**
   * The descending splice of the consumed indices. Indices past the end
   * are skipped, as the bounds check does.
   */
  method RemoveConsumed(rs: seq<Resource>, taken: seq<nat>) returns (r: seq<Resource>)
    ensures r == Kept(rs, taken, 0)
  {
    r := rs;
    var k := |rs|;
    while k > 0
      invariant 0 <= k <= |rs|
      invariant r == rs[..k] + Kept(rs, taken, k)
    {
      k := k - 1;
      assert rs[..k + 1] == rs[..k] + [rs[k]];
      assert r[..k] == rs[..k] && r[k] == rs[k] && r[k + 1..] == Kept(rs, taken, k + 1);
      if k in taken {
        r := r[..k] + r[k + 1..];
      } else {
        assert r == rs[..k] + ([rs[k]] + Kept(rs, taken, k + 1));
      }
    }
  }

  /** How many entries of t are at least `from`. */
  function CountFrom(t: seq<nat>, from: nat): (c: nat)
    ensures c <= |t|
    decreases |t|
  {
    if |t| == 0 then 0 else CountFrom(t[..|t| - 1], from) + (if t[|t| - 1] >= from then 1 else 0)
  }

  /** Raising the bound by one loses exactly the entry equal to it, when the entries are distinct. */
  lemma {:induction false} CountFromStep(t: seq<nat>, from: nat)
    requires Distinct(t)
    ensures CountFrom(t, from) == CountFrom(t, from + 1) + (if from in t then 1 else 0)
    decreases |t|
  {
    if |t| > 0 {
      var n := |t| - 1;
      assert Distinct(t[..n]);
      CountFromStep(t[..n], from);
      assert t == t[..n] + [t[n]];
      assert from in t <==> from in t[..n] || from == t[n];
      assert t[n] == from ==> from !in t[..n];
    }
  }

  /** Every entry counts from 0, none past the largest. */
  lemma {:induction false} CountFromBounds(t: seq<nat>, bound: nat)
    requires forall k :: 0 <= k < |t| ==> t[k] < bound
    ensures CountFrom(t, 0) == |t| && CountFrom(t, bound) == 0
    decreases |t|
  {
    if |t| > 0 {
      CountFromBounds(t[..|t| - 1], bound);
    }
  }

  /** Each consumed index in range costs exactly one resource. */
  lemma {:induction false} KeptLength(rs: seq<Resource>, taken: seq<nat>, from: nat)
    requires from <= |rs| && Distinct(taken)
    requires forall k :: 0 <= k < |taken| ==> taken[k] < |rs|
    ensures |Kept(rs, taken, from)| == |rs| - from - CountFrom(taken, from)
    decreases |rs| - from
  {
    if from == |rs| {
      CountFromBounds(taken, |rs|);
    } else {
      KeptLength(rs, taken, from + 1);
      CountFromStep(taken, from);
    }
  }

  /** Every resource whose index was not consumed is still there. */
  lemma {:induction false} KeptMembers(rs: seq<Resource>, taken: seq<nat>, from: nat)
    requires from <= |rs|
    ensures forall m :: from <= m < |rs| && m !in taken ==> rs[m] in Kept(rs, taken, from)
    decreases |rs| - from
  {
    if from < |rs| {
      KeptMembers(rs, taken, from + 1);
    }
  }

  /**
   * After one tick's feeding (distinct in-range consumed indices) the
   * resource list shrinks by exactly the number of meals and keeps every
   * uneaten resource.
   */
  lemma ConsumedRemoved(rs: seq<Resource>, taken: seq<nat>)
    requires Distinct(taken) && forall k :: 0 <= k < |taken| ==> taken[k] < |rs|
    ensures |Kept(rs, taken, 0)| == |rs| - |taken|
    ensures forall m :: 0 <= m < |rs| && m !in taken ==> rs[m] in Kept(rs, taken, 0)
  {
    KeptLength(rs, taken, 0);
    CountFromBounds(taken, |rs|);
    KeptMembers(rs, taken, 0);
  }
}
