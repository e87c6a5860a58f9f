/**
 * `updateGovernance`: the public pool pays every enforcer's salary; a
 * negative pool lays off enforcers from the end of the list until the
 * deficit is covered and is then reset to zero; the five richest
 * non-enforcers pay 1% of their mass into the pool; and a pool of at least
 * ENFORCER_SPAWN_THRESHOLD buys one new enforcer for ENFORCER_START_MASS,
 * placed at a random co-op node or, without one, at the centre.
 */
module Governance {
  import opened Wrappers
  import opened Geometry
  import opened Entities
  import opened Counting

  // ---------------------------------------------------------------------
  // Salaries and layoffs
  // ---------------------------------------------------------------------

  /** `Math.ceil`. */
  function Ceil(x: real): (c: int)
    ensures x <= c as real < x + 1.0
  {
    -((-x).Floor)
  }

  /** `Math.ceil(deficit / Math.max(0.1, ENFORCER_SALARY))`: at least one for any deficit. */
  function LayoffQuota(deficit: real, salary: real): (q: nat)
    requires deficit > 0.0
    ensures q >= 1
    ensures deficit / Max(0.1, salary) <= q as real < deficit / Max(0.1, salary) + 1.0
  {
    var s := Max(0.1, salary);
    assert deficit / s > 0.0;
    Ceil(deficit / s)
  }

  predicate IsEnforcer(a: Agent) {
    a.kind == Enforcer
  }

  /** The backward layoff scan: the last q enforcers of the list go, nobody else. */
  function Fire(s: seq<Agent>, q: nat): (r: seq<Agent>)
    decreases |s|
  {
    if q == 0 || |s| == 0 then s
    else if IsEnforcer(s[|s| - 1]) then Fire(s[..|s| - 1], q - 1)
    else Fire(s[..|s| - 1], q) + [s[|s| - 1]]
  }

  /** A layoff removes min(q, enforcers) enforcers and no agent of another type. */
  lemma {:induction false} FireCensus(s: seq<Agent>, q: nat, kind: AgentType)
    ensures Census(Fire(s, q), kind) ==
      if kind != Enforcer then Census(s, kind)
      else if q <= Census(s, Enforcer) then Census(s, Enforcer) - q else 0
    decreases |s|
  {
    if q > 0 && |s| > 0 {
      var n := |s| - 1;
      FireCensus(s[..n], q - 1, kind);
      FireCensus(s[..n], q, kind);
      if !IsEnforcer(s[n]) {
        CensusAppend(Fire(s[..n], q), s[n], kind);
      }
    }
  }

  /** Everyone but the enforcers stays, in order. */
  lemma {:induction false} FireKeepsOthers(s: seq<Agent>, q: nat)
    ensures Without(Fire(s, q), IsEnforcer) == Without(s, IsEnforcer)
    decreases |s|
  {
    if q > 0 && |s| > 0 {
      var n := |s| - 1;
      assert s == s[..n] + [s[n]];
      WithoutAppend(s[..n], [s[n]], IsEnforcer);
      assert Without([s[n]], IsEnforcer) == (if IsEnforcer(s[n]) then [] else [s[n]]) + Without([], IsEnforcer);
      if IsEnforcer(s[n]) {
        FireKeepsOthers(s[..n], q - 1);
      } else {
        FireKeepsOthers(s[..n], q);
        WithoutAppend(Fire(s[..n], q), [s[n]], IsEnforcer);
      }
    }
  }

  /**
   * Farthest back first: a layoff keeps a prefix of the list untouched and
   * removes every enforcer of the rest, and that rest holds exactly the
   * enforcers laid off.
   */
  lemma {:induction false} FireFromBack(s: seq<Agent>, q: nat) returns (m: nat)
    ensures m <= |s| && Fire(s, q) == s[..m] + Without(s[m..], IsEnforcer)
    ensures Census(s[m..], Enforcer) == if q <= Census(s, Enforcer) then q else Census(s, Enforcer)
    decreases |s|
  {
    if q == 0 || |s| == 0 {
      m := |s|;
      assert s[..m] == s && s[m..] == [];
    } else {
      var n := |s| - 1;
      var t := s[..n];
      m := FireFromBack(t, if IsEnforcer(s[n]) then q - 1 else q);
      assert s[..m] == t[..m];
      assert s[m..] == t[m..] + [s[n]];
      WithoutAppend(t[m..], [s[n]], IsEnforcer);
      assert Without([s[n]], IsEnforcer) == (if IsEnforcer(s[n]) then [] else [s[n]]) + Without([], IsEnforcer);
      CensusAppend(t[m..], s[n], Enforcer);
    }
  }

  /** One step of the layoff scan, at index i. */
  lemma FireStep(s: seq<Agent>, i: nat, k: nat)
    requires i < |s| && k >= 1
    ensures Fire(s[..i + 1], k) == if IsEnforcer(s[i]) then Fire(s[..i], k - 1) else Fire(s[..i], k) + [s[i]]
  {
    assert s[..i + 1][..i] == s[..i] && s[..i + 1][i] == s[i];
  }

  /**
   * The layoff loop. The source stops once the quota is met after a
   * layoff, so it is only ever run with a quota of at least one.
   */
  method LayOff(s: seq<Agent>, q: nat) returns (r: seq<Agent>)
    requires q >= 1
    ensures r == Fire(s, q)
  {
    r := s;
    var i: int := |s| - 1;
    var fired: nat := 0;
    ghost var tail: seq<Agent> := [];
    assert s[..|s|] == s;
    while i >= 0
      invariant -1 <= i < |s| && fired < q
      invariant r == s[..i + 1] + tail
      invariant Fire(s, q) == Fire(s[..i + 1], q - fired) + tail
    {
      FireStep(s, i, q - fired);
      assert r[..i] == s[..i] && r[i] == s[i] && r[i + 1..] == tail;
      if IsEnforcer(r[i]) {
        r := r[..i] + r[i + 1..];
        fired := fired + 1;
        assert r == s[..i] + tail;
        if fired >= q {
          assert Fire(s[..i], 0) == s[..i];
          return;
        }
      } else {
        tail := [s[i]] + tail;
        assert r == s[..i] + tail;
      }
      i := i - 1;
    }
  }

  // ---------------------------------------------------------------------
  // Taxes
  // ---------------------------------------------------------------------

  function RichKeys(s: seq<Agent>): (keys: seq<real>)
    ensures |keys| == |s| && forall k :: 0 <= k < |s| ==> keys[k] == -s[k].mass
  {
    seq(|s|, k requires 0 <= k < |s| => -s[k].mass)
  }

  /** Taxable and not yet taxed this tick. */
  function OpenFlags(s: seq<Agent>, picked: set<nat>): (ok: seq<bool>)
    ensures |ok| == |s| && forall k :: 0 <= k < |s| ==> ok[k] == (!IsEnforcer(s[k]) && k !in picked)
  {
    seq(|s|, k requires 0 <= k < |s| => !IsEnforcer(s[k]) && k !in picked)
  }

  /**
   * The next agent in the richest-first order of the non-enforcers (the
   * source sorts stably, so the earlier of two equal masses goes first),
   * skipping those already ranked.
   */
  function NextPick(s: seq<Agent>, picked: set<nat>): (m: Option<nat>)
    ensures m.Some? ==> m.value < |s| && !IsEnforcer(s[m.value]) && m.value !in picked
    ensures m.Some? ==> forall k :: 0 <= k < |s| && !IsEnforcer(s[k]) && k !in picked ==> s[k].mass <= s[m.value].mass
    ensures m.None? ==> forall k :: 0 <= k < |s| && !IsEnforcer(s[k]) ==> k in picked
  {
    var m := FirstMin(RichKeys(s), OpenFlags(s, picked), None);
    if m.Some? then
      assert forall k :: 0 <= k < |s| && !IsEnforcer(s[k]) && k !in picked ==> -s[m.value].mass <= -s[k].mass;
      m
    else m
  }

  /**
   * The first n entries of the richest-first order of the non-enforcers
   * outside `picked`: `taxableAgents.sort(...)` cut to the top n.
   */
  function Ranking(s: seq<Agent>, n: nat, picked: set<nat>): (r: seq<nat>)
    ensures |r| <= n
    decreases n
  {
    if n == 0 then []
    else
      match NextPick(s, picked)
      case None => []
      case Some(q) => [q] + Ranking(s, n - 1, picked + {q})
  }

  /** r lists distinct non-enforcers of s from outside `picked`. */
  predicate DistinctOpen(s: seq<Agent>, r: seq<nat>, picked: set<nat>) {
    && (forall j :: 0 <= j < |r| ==> r[j] < |s| && !IsEnforcer(s[r[j]]) && r[j] !in picked)
    && (forall j, l :: 0 <= j < l < |r| ==> r[j] != r[l])
  }

  /** The ranking holds distinct non-enforcers from outside `picked`. */
  lemma {:induction false} RankingDistinct(s: seq<Agent>, n: nat, picked: set<nat>)
    ensures DistinctOpen(s, Ranking(s, n, picked), picked)
    decreases n
  {
    var m := NextPick(s, picked);
    if n > 0 && m.Some? {
      var q := m.value;
      var rest := Ranking(s, n - 1, picked + {q});
      var r := Ranking(s, n, picked);
      RankingDistinct(s, n - 1, picked + {q});
      assert r == [q] + rest;
      assert q < |s| && !IsEnforcer(s[q]) && q !in picked;
      forall j, l | 0 <= j < l < |r| ensures r[j] != r[l] {
        assert r[l] == rest[l - 1];
        assert rest[l - 1] !in picked + {q};
        if j > 0 {
          assert r[j] == rest[j - 1];
        }
      }
    }
  }

  /**
   * r is richest first, and every non-enforcer of s outside `picked` and r
   * is at most as rich as everyone in r.
   */
  predicate RichestFirst(s: seq<Agent>, r: seq<nat>, picked: set<nat>) {
    && (forall j :: 0 <= j < |r| ==> r[j] < |s|)
    && (forall j, l :: 0 <= j < l < |r| && r[l] < |s| && r[j] < |s| ==> s[r[l]].mass <= s[r[j]].mass)
    && (forall j, k :: 0 <= j < |r| && 0 <= k < |s| && !IsEnforcer(s[k]) && k !in picked && k !in r && r[j] < |s| ==>
          s[k].mass <= s[r[j]].mass)
  }

  /** The ranking is richest first. */
  lemma {:induction false} RankingRichest(s: seq<Agent>, n: nat, picked: set<nat>)
    ensures RichestFirst(s, Ranking(s, n, picked), picked)
    decreases n
  {
    var m := NextPick(s, picked);
    if n > 0 && m.Some? {
      var q := m.value;
      var rest := Ranking(s, n - 1, picked + {q});
      RankingRichest(s, n - 1, picked + {q});
      RankingDistinct(s, n - 1, picked + {q});
      RankingStep(s, n, picked);
      RichestCons(s, q, rest, picked);
    }
  }

  /** Putting the richest open agent in front of a richest-first ranking of the others keeps it richest first. */
  lemma RichestCons(s: seq<Agent>, q: nat, rest: seq<nat>, picked: set<nat>)
    requires q < |s| && !IsEnforcer(s[q]) && q !in picked
    requires forall k :: 0 <= k < |s| && !IsEnforcer(s[k]) && k !in picked ==> s[k].mass <= s[q].mass
    requires RichestFirst(s, rest, picked + {q}) && DistinctOpen(s, rest, picked + {q})
    ensures RichestFirst(s, [q] + rest, picked)
  {
    var r := [q] + rest;
    forall j, l | 0 <= j < l < |r| && r[l] < |s| && r[j] < |s| ensures s[r[l]].mass <= s[r[j]].mass {
      assert r[l] == rest[l - 1];
      if j > 0 {
        assert r[j] == rest[j - 1];
      }
    }
    forall j, k | 0 <= j < |r| && 0 <= k < |s| && !IsEnforcer(s[k]) && k !in picked && k !in r && r[j] < |s|
      ensures s[k].mass <= s[r[j]].mass
    {
      assert k != q && k !in rest;
      if j > 0 {
        assert r[j] == rest[j - 1];
      }
    }
  }

  /** r holds every non-enforcer of s outside `picked`. */
  predicate HoldsAllOpen(s: seq<Agent>, r: seq<nat>, picked: set<nat>) {
    forall k :: 0 <= k < |s| && !IsEnforcer(s[k]) && k !in picked ==> k in r
  }

  /** A ranking shorter than n holds every non-enforcer outside `picked`. */
  lemma {:induction false} RankingComplete(s: seq<Agent>, n: nat, picked: set<nat>)
    ensures |Ranking(s, n, picked)| < n ==> HoldsAllOpen(s, Ranking(s, n, picked), picked)
    decreases n
  {
    var m := NextPick(s, picked);
    if n > 0 && m.Some? {
      var q := m.value;
      RankingComplete(s, n - 1, picked + {q});
      assert Ranking(s, n, picked) == [q] + Ranking(s, n - 1, picked + {q});
    }
  }

  /** One unfolding of the ranking. */
  lemma RankingStep(s: seq<Agent>, n: nat, picked: set<nat>)
    requires n > 0
    ensures NextPick(s, picked).None? ==> Ranking(s, n, picked) == []
    ensures NextPick(s, picked).Some? ==>
      Ranking(s, n, picked) == [NextPick(s, picked).value] + Ranking(s, n - 1, picked + {NextPick(s, picked).value})
  {
  }

  /** Moving the next pick from the ranking still to come onto the ranking so far. */
  lemma RankingAppend(s: seq<Agent>, n: nat, picked: set<nat>, r: seq<nat>, q: nat)
    requires n > 0 && NextPick(s, picked) == Some(q)
    ensures r + Ranking(s, n, picked) == (r + [q]) + Ranking(s, n - 1, picked + {q})
  {
    RankingStep(s, n, picked);
  }

  /** The scan for the next first maximum. */
  method PickNext(s: seq<Agent>, picked: set<nat>) returns (m: Option<nat>)
    ensures m == NextPick(s, picked)
  {
    m := FindFirstMin(RichKeys(s), OpenFlags(s, picked), None);
  }

  /** The ranking step: the sort, as a scan for the next first maximum. */
  method RankTaxable(s: seq<Agent>, n: nat) returns (r: seq<nat>)
    ensures r == Ranking(s, n, {})
  {
    r := [];
    var picked: set<nat> := {};
    var t := 0;
    while t < n
      invariant 0 <= t <= n && |r| == t
      invariant Ranking(s, n, {}) == r + Ranking(s, n - t, picked)
    {
      var m := PickNext(s, picked);
      RankingStep(s, n - t, picked);
      if m.None? {
        assert r == r + [];
        return;
      }
      var q := m.value;
      RankingAppend(s, n - t, picked, r, q);
      r := r + [q];
      picked := picked + {q};
      t := t + 1;
    }
    assert Ranking(s, 0, picked) == [];
    assert r == r + [];
  }

  /** One 1% levy. */
  function Taxed(a: Agent): Agent {
    a.(mass := a.mass - a.mass * TAX_RATE)
  }

  /** What one levy collects: `taxAmount`, when positive. */
  function Levied(a: Agent): (t: real)
    ensures t >= 0.0
  {
    if a.mass * TAX_RATE > 0.0 then a.mass * TAX_RATE else 0.0
  }

  /** The agents after one levy on index q. */
  function LevyOn(s: seq<Agent>, q: nat): (r: seq<Agent>)
    requires q < |s|
    ensures |r| == |s| && forall k :: 0 <= k < |s| && k != q ==> r[k] == s[k]
    ensures r[q] == (if s[q].mass * TAX_RATE > 0.0 then Taxed(s[q]) else s[q])
  {
    if s[q].mass * TAX_RATE > 0.0 then s[q := Taxed(s[q])] else s
  }

  predicate InRange(order: seq<nat>, n: nat) {
    forall j :: 0 <= j < |order| ==> order[j] < n
  }

  /** The agents after the levies on the agents of `order`, and the total collected. */
  function Levy(s: seq<Agent>, order: seq<nat>): (r: (seq<Agent>, real))
    requires InRange(order, |s|)
    ensures |r.0| == |s|
    decreases |order|
  {
    if order == [] then (s, 0.0)
    else
      var rest := Levy(LevyOn(s, order[0]), order[1..]);
      (rest.0, rest.1 + Levied(s[order[0]]))
  }

  /** The tax moves mass from the agents into the pool and creates or loses none. */
  lemma {:induction false} LevyConserves(s: seq<Agent>, order: seq<nat>)
    requires InRange(order, |s|)
    ensures TotalMass(Levy(s, order).0) + Levy(s, order).1 == TotalMass(s) && Levy(s, order).1 >= 0.0
    decreases |order|
  {
    if order != [] {
      var q := order[0];
      LevyConserves(LevyOn(s, q), order[1..]);
      if s[q].mass * TAX_RATE > 0.0 {
        TotalMassUpdate(s, q, Taxed(s[q]));
      }
    }
  }

  /** With distinct indices, everyone listed pays one levy and nobody else changes. */
  lemma {:induction false} LevyChanges(s: seq<Agent>, order: seq<nat>)
    requires InRange(order, |s|) && forall j, l :: 0 <= j < l < |order| ==> order[j] != order[l]
    ensures forall k :: 0 <= k < |s| && k !in order ==> Levy(s, order).0[k] == s[k]
    ensures forall k :: 0 <= k < |s| && k in order ==> Levy(s, order).0[k] == LevyOn(s, k)[k]
    decreases |order|
  {
    if order != [] {
      var q := order[0];
      var s1 := LevyOn(s, q);
      var rest := order[1..];
      assert forall j, l :: 0 <= j < l < |rest| ==> rest[j] != rest[l] by {
        forall j, l | 0 <= j < l < |rest| ensures rest[j] != rest[l] {
          assert rest[j] == order[j + 1] && rest[l] == order[l + 1];
        }
      }
      LevyChanges(s1, rest);
      assert q !in rest by {
        forall j | 0 <= j < |rest| ensures rest[j] != q {
          assert rest[j] == order[j + 1] && q == order[0];
        }
      }
      forall k | 0 <= k < |s|
        ensures k in order <==> k == q || k in rest
      {
        assert order == [q] + rest;
      }
    }
  }

  /** The tax loop over the ranked agents. */
  method CollectTaxes(s: seq<Agent>, order: seq<nat>) returns (r: seq<Agent>, collected: real)
    requires InRange(order, |s|)
    ensures (r, collected) == Levy(s, order)
  {
    r, collected := s, 0.0;
    var t := 0;
    while t < |order|
      invariant 0 <= t <= |order| && |r| == |s|
      invariant Levy(s, order) == (Levy(r, order[t..]).0, Levy(r, order[t..]).1 + collected)
    {
      var q := order[t];
      assert order[t..][0] == q && order[t..][1..] == order[t + 1..];
      var amount := r[q].mass * TAX_RATE;
      if amount > 0.0 {
        r := r[q := Taxed(r[q])];
        collected := collected + amount;
      }
      t := t + 1;
    }
  }

  // ---------------------------------------------------------------------
  // New enforcers
  // ---------------------------------------------------------------------

  /** The indices of the co-op nodes, in order (`nodes.filter(...)`). */
  function CoopNodes(nodes: seq<Node>): (r: seq<nat>)
    ensures forall k :: 0 <= k < |r| ==> r[k] < |nodes| && nodes[r[k]].kind == CoopNode
    ensures (exists k :: 0 <= k < |nodes| && nodes[k].kind == CoopNode) ==> |r| > 0
    decreases |nodes|
  {
    if |nodes| == 0 then []
    else
      var n := |nodes| - 1;
      var r := CoopNodes(nodes[..n]);
      assert forall k :: 0 <= k < n ==> nodes[..n][k] == nodes[k];
      if nodes[n].kind == CoopNode then r + [n] else r
  }

  /** Where a new enforcer appears: the chosen co-op node, or the centre of the arena. */
  function EnforcerSpot(nodes: seq<Node>, roll: real, width: real, height: real): (p: (real, real))
    requires 0.0 <= roll < 1.0
    ensures (forall k :: 0 <= k < |nodes| ==> nodes[k].kind != CoopNode) ==> p == (width / 2.0, height / 2.0)
    ensures (exists k :: 0 <= k < |nodes| && nodes[k].kind == CoopNode) ==>
      exists k :: 0 <= k < |nodes| && nodes[k].kind == CoopNode && p == (nodes[k].x, nodes[k].y)
  {
    var c := CoopNodes(nodes);
    if |c| == 0 then (width / 2.0, height / 2.0)
    else
      var k := c[Pick(roll, |c|)];
      (nodes[k].x, nodes[k].y)
  }

  /** The tax step: the top TOP_AGENT_TAX_COUNT of the ranking each pay one levy. */
  function Taxes(s: seq<Agent>): (r: (seq<Agent>, real))
    ensures |r.0| == |s|
  {
    RankingDistinct(s, TOP_AGENT_TAX_COUNT, {});
    Levy(s, Ranking(s, TOP_AGENT_TAX_COUNT, {}))
  }

  /**
   * The tax, end to end: what the agents lose the pool gains; an agent
   * changes only by one levy and only if it is among the five richest
   * non-enforcers (richest first, nobody left out richer than anybody
   * taxed, and fewer than five only when there are fewer non-enforcers).
   */
  lemma TaxesFacts(s: seq<Agent>)
    ensures var r := Taxes(s); var order := Ranking(s, TOP_AGENT_TAX_COUNT, {});
      && TotalMass(r.0) + r.1 == TotalMass(s) && r.1 >= 0.0
      && (forall k :: 0 <= k < |s| && k !in order ==> r.0[k] == s[k])
      && (forall k :: 0 <= k < |s| && k in order ==> !IsEnforcer(s[k]) && r.0[k] == LevyOn(s, k)[k])
      && (forall j, k :: 0 <= j < |order| && 0 <= k < |s| && !IsEnforcer(s[k]) && k !in order ==>
            order[j] < |s| && s[k].mass <= s[order[j]].mass)
      && (|order| < TOP_AGENT_TAX_COUNT ==> forall k :: 0 <= k < |s| && !IsEnforcer(s[k]) ==> k in order)
  {
    var order := Ranking(s, TOP_AGENT_TAX_COUNT, {});
    RankingDistinct(s, TOP_AGENT_TAX_COUNT, {});
    RankingRichest(s, TOP_AGENT_TAX_COUNT, {});
    RankingComplete(s, TOP_AGENT_TAX_COUNT, {});
    LevyConserves(s, order);
    LevyChanges(s, order);
  }

  /** Everything `updateGovernance` draws: the spawn point roll and the new enforcer. */
  datatype Draws = Draws(spotRoll: real, recruit: Fresh)

  /** The state `updateGovernance` changes. */
  datatype Treasury = Treasury(agents: seq<Agent>, publicPool: real)

  /** Every enforcer's salary. */
  function Payroll(agents: seq<Agent>, salary: real): real {
    Census(agents, Enforcer) as real * salary
  }

  /** The pool after salaries and, when it went negative, after the layoffs that reset it. */
  function AfterSalaries(t: Treasury, salary: real): (r: Treasury) {
    var pool := t.publicPool - Payroll(t.agents, salary);
    if pool < 0.0 then Treasury(Fire(t.agents, LayoffQuota(Payroll(t.agents, salary) - t.publicPool, salary)), 0.0)
    else t.(publicPool := pool)
  }

  /** `updateGovernance` as a whole. */
  function Govern(t: Treasury, salary: real, nodes: seq<Node>, d: Draws, width: real, height: real, radiusOf: real -> real): (r: Treasury)
    requires 0.0 <= d.spotRoll < 1.0
  {
    var t1 := AfterSalaries(t, salary);
    var tax := Taxes(t1.agents);
    var pool := t1.publicPool + tax.1;
    if pool >= ENFORCER_SPAWN_THRESHOLD then
      var p := EnforcerSpot(nodes, d.spotRoll, width, height);
      Treasury(tax.0 + [NewAgent(d.recruit, p.0, p.1, Enforcer, radiusOf)], pool - ENFORCER_START_MASS)
    else Treasury(tax.0, pool)
  }

  /**
   * After governance the public pool is never negative. The taxed agents
   * keep their places; an enforcer is hired, at the spot EnforcerSpot
   * picks and paid for from the pool, exactly when the pool after salaries
   * and tax reaches ENFORCER_SPAWN_THRESHOLD; otherwise the pool simply
   * keeps the tax. Hiring moves ENFORCER_START_MASS from the pool into the
   * new enforcer, so the tax and the hire together create no mass.
   */
  lemma GovernPool(t: Treasury, salary: real, nodes: seq<Node>, d: Draws, width: real, height: real, radiusOf: real -> real)
    requires 0.0 <= d.spotRoll < 1.0
    ensures var r := Govern(t, salary, nodes, d, width, height, radiusOf);
      var t1 := AfterSalaries(t, salary); var tax := Taxes(t1.agents); var pool := t1.publicPool + tax.1;
      var p := EnforcerSpot(nodes, d.spotRoll, width, height);
      && r.publicPool >= 0.0
      && |r.agents| >= |t1.agents| && r.agents[..|t1.agents|] == tax.0
      && (pool >= ENFORCER_SPAWN_THRESHOLD <==> |r.agents| == |t1.agents| + 1)
      && (pool >= ENFORCER_SPAWN_THRESHOLD ==>
            && r.publicPool == pool - ENFORCER_START_MASS
            && r.agents[|t1.agents|] == NewAgent(d.recruit, p.0, p.1, Enforcer, radiusOf))
      && (pool < ENFORCER_SPAWN_THRESHOLD ==> r == Treasury(tax.0, pool))
      && TotalMass(r.agents) + r.publicPool == TotalMass(t1.agents) + t1.publicPool
  {
    var t1 := AfterSalaries(t, salary);
    var tax := Taxes(t1.agents);
    TaxesFacts(t1.agents);
    var p := EnforcerSpot(nodes, d.spotRoll, width, height);
    var e := NewAgent(d.recruit, p.0, p.1, Enforcer, radiusOf);
    assert (tax.0 + [e])[..|tax.0|] == tax.0;
  }

  /** A pool that covers the payroll loses exactly the payroll and keeps every agent. */
  lemma SalariesPaid(t: Treasury, salary: real)
    requires t.publicPool >= Payroll(t.agents, salary)
    ensures AfterSalaries(t, salary) == t.(publicPool := t.publicPool - Payroll(t.agents, salary))
  {
  }

  /**
   * A pool short of the payroll lays off between deficit / salary and one
   * more enforcers (at least one, never anybody else) from the back and is
   * reset to zero.
   */
  lemma Layoffs(t: Treasury, salary: real, kind: AgentType)
    requires t.publicPool < Payroll(t.agents, salary)
    ensures var r := AfterSalaries(t, salary); var deficit := Payroll(t.agents, salary) - t.publicPool;
      var q := LayoffQuota(deficit, salary);
      && r.publicPool == 0.0 && q >= 1
      && deficit / Max(0.1, salary) <= q as real < deficit / Max(0.1, salary) + 1.0
      && Census(r.agents, kind) == (if kind != Enforcer then Census(t.agents, kind)
                                    else if q <= Census(t.agents, Enforcer) then Census(t.agents, Enforcer) - q else 0)
      && Without(r.agents, IsEnforcer) == Without(t.agents, IsEnforcer)
  {
    var q := LayoffQuota(Payroll(t.agents, salary) - t.publicPool, salary);
    FireCensus(t.agents, q, kind);
    FireKeepsOthers(t.agents, q);
  }

  /** The ranking loop followed by the levy loop. */
  method LevyTaxes(s: seq<Agent>) returns (r: seq<Agent>, collected: real)
    ensures (r, collected) == Taxes(s)
  {
    var order := RankTaxable(s, TOP_AGENT_TAX_COUNT);
    RankingDistinct(s, TOP_AGENT_TAX_COUNT, {});
    assert InRange(order, |s|);
    r, collected := CollectTaxes(s, order);
  }

  /** The salary count and, when the pool goes negative, the layoff loop. */
  method PaySalaries(t: Treasury, salary: real) returns (r: Treasury)
    ensures r == AfterSalaries(t, salary)
  {
    var enforcers := CountKind(t.agents, Enforcer);
    var payroll := enforcers as real * salary;
    assert payroll == Payroll(t.agents, salary);
    var pool := t.publicPool - payroll;
    var s := t.agents;
    if pool < 0.0 {
      assert -pool == Payroll(t.agents, salary) - t.publicPool;
      s := LayOff(t.agents, LayoffQuota(-pool, salary));
      pool := 0.0;
    }
    r := Treasury(s, pool);
  }

  /** `updateGovernance` as the script runs it: salaries, layoffs, tax, purchase. */
  method GovernStep(t: Treasury, salary: real, nodes: seq<Node>, d: Draws, width: real, height: real, radiusOf: real -> real) returns (r: Treasury)
    requires 0.0 <= d.spotRoll < 1.0
    ensures r == Govern(t, salary, nodes, d, width, height, radiusOf)
  {
    var t1 := PaySalaries(t, salary);
    var taxed, collected := LevyTaxes(t1.agents);
    var pool := t1.publicPool + collected;
    if pool >= ENFORCER_SPAWN_THRESHOLD {
      var p := EnforcerSpot(nodes, d.spotRoll, width, height);
      taxed := taxed + [NewAgent(d.recruit, p.0, p.1, Enforcer, radiusOf)];
      pool := pool - ENFORCER_START_MASS;
    }
    r := Treasury(taxed, pool);
  }
}
