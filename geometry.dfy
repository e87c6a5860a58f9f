/**
 * Shared helpers: squared distances (the source compares `distance(...)`,
 * a square root, only against bounds and against other distances, so the
 * squares decide every comparison the same way), the running-minimum scan
 * that every "nearest" loop of the source performs, and the backward
 * splice loop the source uses to drop elements from its arrays.
 */
module Geometry {
  import opened Wrappers

  function Max(a: real, b: real): real { if a >= b then a else b }
  function Min(a: real, b: real): real { if a <= b then a else b }

  /** `Math.floor(Math.random() * n)` for a draw in [0, 1). */
  function Pick(roll: real, n: nat): (k: nat)
    requires 0.0 <= roll < 1.0 && n > 0
    ensures k < n
  {
    assert roll * n as real < n as real by {
      assert (1.0 - roll) * n as real > 0.0;
    }
    (roll * n as real).Floor
  }

  lemma MulNonNegative(x: real, y: real)
    requires x >= 0.0 && y >= 0.0
    ensures x * y >= 0.0
  {
  }

  lemma MulPositive(x: real, y: real)
    requires x > 0.0 && y > 0.0
    ensures x * y > 0.0
  {
  }

  /** Squared Euclidean distance between two points. */
  function DistSq(x1: real, y1: real, x2: real, y2: real): (d: real)
    ensures d >= 0.0
  {
    var dx := x2 - x1;
    var dy := y2 - y1;
    assert dx * dx >= 0.0 && dy * dy >= 0.0;
    dx * dx + dy * dy
  }

  /**
   * `distance(x1, y1, x2, y2) < r`: a distance is never negative, so the
   * test fails whenever r <= 0 and otherwise compares the squares.
   */
  predicate Within(x1: real, y1: real, x2: real, y2: real, r: real) {
    r > 0.0 && DistSq(x1, y1, x2, y2) < r * r
  }

  // ---------------------------------------------------------------------
  // Running minimum: `let best = null, min = bound;
  //   for (k ...) if (ok[k] && key[k] < min) { min = key[k]; best = k; }`
  // ---------------------------------------------------------------------

  /** Strictly below an optional bound (None plays the source's `Infinity`). */
  predicate Below(k: real, bound: Option<real>) {
    bound.None? || k < bound.value
  }

  /**
   * r is the first eligible index whose key is minimal among the eligible
   * keys and below the bound, or None when no eligible key is below it.
   * Taking the first minimiser is also what a stable sort followed by
   * "take the head" selects.
   */
  predicate IsFirstMin(keys: seq<real>, ok: seq<bool>, bound: Option<real>, r: Option<nat>)
    requires |keys| == |ok|
  {
    match r
    case None => forall k :: 0 <= k < |keys| && ok[k] ==> !Below(keys[k], bound)
    case Some(m) =>
      && m < |keys| && ok[m] && Below(keys[m], bound)
      && (forall k :: 0 <= k < |keys| && ok[k] ==> keys[m] <= keys[k])
      && (forall k :: 0 <= k < m && ok[k] ==> keys[m] < keys[k])
  }

  /** The running-minimum scan, as a function of the scanned prefix. */
  function FirstMin(keys: seq<real>, ok: seq<bool>, bound: Option<real>): (r: Option<nat>)
    requires |keys| == |ok|
    ensures IsFirstMin(keys, ok, bound, r)
    decreases |keys|
  {
    if |keys| == 0 then None
    else
      var n := |keys| - 1;
      var r := FirstMin(keys[..n], ok[..n], bound);
      var best := if r.None? then bound else Some(keys[r.value]);
      if ok[n] && Below(keys[n], best) then Some(n) else r
  }

  /** The contract of FirstMin pins its result down uniquely. */
  lemma FirstMinUnique(keys: seq<real>, ok: seq<bool>, bound: Option<real>, r1: Option<nat>, r2: Option<nat>)
    requires |keys| == |ok|
    requires IsFirstMin(keys, ok, bound, r1) && IsFirstMin(keys, ok, bound, r2)
    ensures r1 == r2
  {
  }

  /** The scan loop itself. */
  method FindFirstMin(keys: seq<real>, ok: seq<bool>, bound: Option<real>) returns (r: Option<nat>)
    requires |keys| == |ok|
    ensures r == FirstMin(keys, ok, bound)
    ensures IsFirstMin(keys, ok, bound, r)
  {
    r := None;
    var best := bound;
    var k := 0;
    while k < |keys|
      invariant 0 <= k <= |keys|
      invariant r == FirstMin(keys[..k], ok[..k], bound)
      invariant r.Some? ==> r.value < k
      invariant best == if r.None? then bound else Some(keys[r.value])
    {
      assert keys[..k + 1][..k] == keys[..k];
      assert ok[..k + 1][..k] == ok[..k];
      if ok[k] && Below(keys[k], best) {
        r := Some(k);
        best := Some(keys[k]);
      }
      k := k + 1;
    }
    assert keys[..k] == keys;
    assert ok[..k] == ok;
  }

  // ---------------------------------------------------------------------
  // Backward splice: `for (i = a.length - 1; i >= 0; i--) if (drop(a[i])) a.splice(i, 1);`
  // ---------------------------------------------------------------------

  /** The elements of s that `drop` does not reject, in their original order. */
  function Without<T(!new)>(s: seq<T>, drop: T -> bool): (r: seq<T>)
    ensures |r| <= |s|
  {
    if s == [] then []
    else (if drop(s[0]) then [] else [s[0]]) + Without(s[1..], drop)
  }

  /** Exactly the elements `drop` does not reject survive. */
  lemma {:induction false} WithoutMembers<T(!new)>(s: seq<T>, drop: T -> bool, x: T)
    ensures x in Without(s, drop) <==> x in s && !drop(x)
    decreases |s|
  {
    if s != [] {
      WithoutMembers(s[1..], drop, x);
      assert x in s <==> x == s[0] || x in s[1..];
    }
  }

  /** Dropping distributes over concatenation, so relative order is kept. */
  lemma {:induction false} WithoutAppend<T(!new)>(a: seq<T>, b: seq<T>, drop: T -> bool)
    ensures Without(a + b, drop) == Without(a, drop) + Without(b, drop)
    decreases |a|
  {
    if a == [] {
      assert a + b == b;
    } else {
      assert (a + b)[0] == a[0];
      assert (a + b)[1..] == a[1..] + b;
      WithoutAppend(a[1..], b, drop);
    }
  }

  /** When nothing is rejected, nothing is dropped. */
  lemma {:induction false} WithoutNone<T(!new)>(s: seq<T>, drop: T -> bool)
    requires forall k :: 0 <= k < |s| ==> !drop(s[k])
    ensures Without(s, drop) == s
    decreases |s|
  {
    if s != [] {
      WithoutNone(s[1..], drop);
    }
  }

  /** The backward splice loop. */
  method RemoveWhere<T(!new)>(s: seq<T>, drop: T -> bool) returns (r: seq<T>)
    ensures r == Without(s, drop)
  {
    r := s;
    var i := |s|;
    while i > 0
      invariant 0 <= i <= |s|
      invariant r == s[..i] + Without(s[i..], drop)
    {
      i := i - 1;
      SpliceStep(s, i, drop, r);
      if drop(r[i]) {
        r := r[..i] + r[i + 1..];
      }
    }
    assert s[..0] == [] && s[0..] == s;
  }

  /** One step of a backward splice loop: element i leaves the list when dropped, and stays otherwise. */
  lemma SpliceStep<T(!new)>(s: seq<T>, i: nat, drop: T -> bool, r: seq<T>)
    requires i < |s|
    requires r == s[..i + 1] + Without(s[i + 1..], drop)
    ensures i < |r| && r[i] == s[i]
    ensures drop(s[i]) ==> r[..i] + r[i + 1..] == s[..i] + Without(s[i..], drop)
    ensures !drop(s[i]) ==> r == s[..i] + Without(s[i..], drop)
  {
    var rest := Without(s[i + 1..], drop);
    WithoutStep(s, i, drop);
    assert s[..i + 1] == s[..i] + [s[i]];
    assert r == s[..i] + [s[i]] + rest;
    assert r[..i] == s[..i] && r[i] == s[i] && r[i + 1..] == rest;
    if !drop(s[i]) {
      assert r == s[..i] + ([s[i]] + rest);
    }
  }

  lemma WithoutStep<T(!new)>(s: seq<T>, i: nat, drop: T -> bool)
    requires i < |s|
    ensures Without(s[i..], drop) == (if drop(s[i]) then [] else [s[i]]) + Without(s[i + 1..], drop)
  {
    assert s[i..][0] == s[i];
    assert s[i..][1..] == s[i + 1..];
  }
}
