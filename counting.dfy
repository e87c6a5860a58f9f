/**
 * Head counts and total mass over the agent list: the `for (const agent of
 * agents) counts[agent.type]++` loops, and the bookkeeping facts every
 * phase that replaces or splices agents relies on.
 */
module Counting {
  import opened Entities

  /** Number of agents of one type. */
  function Census(s: seq<Agent>, kind: AgentType): nat
    decreases |s|
  {
    if |s| == 0 then 0
    else Census(s[..|s| - 1], kind) + (if s[|s| - 1].kind == kind then 1 else 0)
  }

  /** The counting loop `for (const agent of agents) if (agent.type === kind) count++`. */
  method CountKind(s: seq<Agent>, kind: AgentType) returns (c: nat)
    ensures c == Census(s, kind)
  {
    c := 0;
    var i := 0;
    while i < |s|
      invariant 0 <= i <= |s|
      invariant c == Census(s[..i], kind)
    {
      assert s[..i + 1][..i] == s[..i];
      if s[i].kind == kind {
        c := c + 1;
      }
      i := i + 1;
    }
    assert s[..i] == s;
  }

  /** Total mass of the agents of s. */
  function TotalMass(s: seq<Agent>): real
    decreases |s|
  {
    if |s| == 0 then 0.0 else TotalMass(s[..|s| - 1]) + s[|s| - 1].mass
  }

  /** The list with the element at index j spliced out. */
  function RemoveAt<T>(s: seq<T>, j: nat): (r: seq<T>)
    requires j < |s|
    ensures |r| == |s| - 1
    ensures forall k :: 0 <= k < j ==> r[k] == s[k]
    ensures forall k :: j <= k < |r| ==> r[k] == s[k + 1]
  {
    s[..j] + s[j + 1..]
  }

  /** r keeps every agent's type, position in the list included. */
  predicate SameKinds(s: seq<Agent>, r: seq<Agent>) {
    |s| == |r| && forall k :: 0 <= k < |s| ==> r[k].kind == s[k].kind
  }

  /** Replacing one agent changes the total by the difference of the two masses. */
  lemma {:induction false} TotalMassUpdate(s: seq<Agent>, i: nat, v: Agent)
    requires i < |s|
    ensures TotalMass(s[i := v]) == TotalMass(s) - s[i].mass + v.mass
    decreases |s|
  {
    var n := |s| - 1;
    if i < n {
      assert s[i := v][..n] == s[..n][i := v];
      TotalMassUpdate(s[..n], i, v);
    } else {
      assert s[i := v][..n] == s[..n];
    }
  }

  /** A list that keeps every type keeps every head count. */
  lemma {:induction false} CensusSameKinds(s: seq<Agent>, r: seq<Agent>, kind: AgentType)
    requires SameKinds(s, r)
    ensures Census(r, kind) == Census(s, kind)
    decreases |s|
  {
    if |s| > 0 {
      var n := |s| - 1;
      CensusSameKinds(s[..n], r[..n], kind);
    }
  }

  /** Splicing out one agent lowers its own type's head count by one and no other. */
  lemma {:induction false} CensusRemoveAt(s: seq<Agent>, j: nat, kind: AgentType)
    requires j < |s|
    ensures Census(RemoveAt(s, j), kind) == Census(s, kind) - (if s[j].kind == kind then 1 else 0)
    decreases |s|
  {
    var n := |s| - 1;
    var r := RemoveAt(s, j);
    if j == n {
      assert r == s[..n];
    } else {
      var q := RemoveAt(s[..n], j);
      assert s[j + 1..] == s[..n][j + 1..] + [s[n]];
      assert r == q + [s[n]];
      CensusAppend(q, s[n], kind);
      CensusRemoveAt(s[..n], j, kind);
    }
  }

  /** Splicing out one agent lowers the total by its mass. */
  lemma {:induction false} TotalMassRemoveAt(s: seq<Agent>, j: nat)
    requires j < |s|
    ensures TotalMass(RemoveAt(s, j)) == TotalMass(s) - s[j].mass
    decreases |s|
  {
    var n := |s| - 1;
    var r := RemoveAt(s, j);
    if j == n {
      assert r == s[..n];
    } else {
      var q := RemoveAt(s[..n], j);
      assert s[j + 1..] == s[..n][j + 1..] + [s[n]];
      assert r == q + [s[n]];
      assert (q + [s[n]])[..|q|] == q;
      TotalMassRemoveAt(s[..n], j);
    }
  }

  /** Appending one agent raises its own type's head count by one and no other. */
  lemma CensusAppend(s: seq<Agent>, a: Agent, kind: AgentType)
    ensures Census(s + [a], kind) == Census(s, kind) + (if a.kind == kind then 1 else 0)
  {
    assert (s + [a])[..|s|] == s;
  }

  /** The head count of a concatenation is the sum of the head counts. */
  lemma {:induction false} CensusConcat(a: seq<Agent>, b: seq<Agent>, kind: AgentType)
    ensures Census(a + b, kind) == Census(a, kind) + Census(b, kind)
    decreases |b|
  {
    if |b| > 0 {
      var n := |b| - 1;
      assert (a + b)[..|a + b| - 1] == a + b[..n];
      CensusConcat(a, b[..n], kind);
    } else {
      assert a + b == a;
    }
  }

  /** SameKinds for every head count at once. */
  lemma CensusSameKindsAll(s: seq<Agent>, r: seq<Agent>)
    requires SameKinds(s, r)
    ensures forall kind :: Census(r, kind) == Census(s, kind)
  {
    forall kind ensures Census(r, kind) == Census(s, kind) {
      CensusSameKinds(s, r, kind);
    }
  }

  /** CensusRemoveAt for every head count at once. */
  lemma CensusRemoveAtAll(s: seq<Agent>, j: nat)
    requires j < |s|
    ensures forall kind :: Census(RemoveAt(s, j), kind) == Census(s, kind) - (if s[j].kind == kind then 1 else 0)
  {
    forall kind ensures Census(RemoveAt(s, j), kind) == Census(s, kind) - (if s[j].kind == kind then 1 else 0) {
      CensusRemoveAt(s, j, kind);
    }
  }

  /** Lists whose agents have the same masses, position by position, have the same total. */
  lemma {:induction false} TotalMassSame(s: seq<Agent>, r: seq<Agent>)
    requires |s| == |r|
    requires forall k :: 0 <= k < |s| ==> r[k].mass == s[k].mass
    ensures TotalMass(r) == TotalMass(s)
    decreases |s|
  {
    if |s| > 0 {
      var n := |s| - 1;
      TotalMassSame(s[..n], r[..n]);
    }
  }

  /** Lists whose masses differ at most at index i differ in total by the difference there. */
  lemma {:induction false} TotalMassOne(s: seq<Agent>, r: seq<Agent>, i: nat)
    requires |s| == |r| && i < |s|
    requires forall k :: 0 <= k < |s| && k != i ==> r[k].mass == s[k].mass
    ensures TotalMass(r) == TotalMass(s) - s[i].mass + r[i].mass
    decreases |s|
  {
    var n := |s| - 1;
    if i == n {
      TotalMassSame(s[..n], r[..n]);
    } else {
      TotalMassOne(s[..n], r[..n], i);
    }
  }

  /** Lists whose masses differ at most at indices i and q differ in total by the differences there. */
  lemma TotalMassTwo(s: seq<Agent>, r: seq<Agent>, i: nat, q: nat)
    requires |s| == |r| && i < |s| && q < |s| && i != q
    requires forall k :: 0 <= k < |s| && k != i && k != q ==> r[k].mass == s[k].mass
    ensures TotalMass(r) == TotalMass(s) - s[i].mass - s[q].mass + r[i].mass + r[q].mass
  {
    var t := s[i := r[i]];
    TotalMassUpdate(s, i, r[i]);
    TotalMassOne(t, r, q);
  }
}
