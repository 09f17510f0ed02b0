/**
  Reachability along name bindings, and the bounded loop that computes it. An edge
  `(bound, source)` says that `bound` is bound to `source`. The names are of any type.
 */
module Reachability {

  type Edge<K> = (K, K)

  // ----- stated with explicit chains of bindings -----

  /** A chain of names, each bound to the one before it, that starts at a root. */
  ghost predicate IsChain<K(!new)>(edges: set<Edge<K>>, roots: set<K>, p: seq<K>) {
    && |p| > 0
    && p[0] in roots
    && forall i :: 0 <= i < |p| - 1 ==> (p[i + 1], p[i]) in edges
  }

  ghost predicate Reachable<K(!new)>(edges: set<Edge<K>>, roots: set<K>, x: K) {
    exists p :: IsChain(edges, roots, p) && p[|p| - 1] == x
  }

  /** Some chain to `x` has at most `k` bindings in it. */
  ghost predicate ReachableWithin<K(!new)>(edges: set<Edge<K>>, roots: set<K>, x: K, k: nat) {
    exists p :: IsChain(edges, roots, p) && p[|p| - 1] == x && |p| <= k + 1
  }

  /** Some name is reachable, but by no chain of `k` bindings or fewer. */
  ghost predicate ReachesBeyond<K(!new)>(edges: set<Edge<K>>, roots: set<K>, k: nat) {
    exists x :: Reachable(edges, roots, x) && !ReachableWithin(edges, roots, x, k)
  }

  ghost predicate IsClosed<K(!new)>(edges: set<Edge<K>>, roots: set<K>, s: set<K>) {
    roots <= s && forall e | e in edges :: e.1 in s ==> e.0 in s
  }

  /** `s` holds the roots, is closed under the bindings, and is inside every such set. */
  ghost predicate IsLeastFixedPoint<K(!new)>(edges: set<Edge<K>>, roots: set<K>, s: set<K>) {
    && IsClosed(edges, roots, s)
    && forall t: set<K> :: IsClosed(edges, roots, t) ==> s <= t
  }

  // ----- the rounds of the loop -----

  function Grown<K>(edges: set<Edge<K>>, names: set<K>): set<K> {
    (set e | e in edges && e.1 in names :: e.0) - names
  }

  ghost function Within<K>(edges: set<Edge<K>>, roots: set<K>, k: nat): set<K> {
    if k == 0 then roots
    else
      var names := Within(edges, roots, k - 1);
      names + Grown(edges, names)
  }

  lemma {:induction false} WithinIsReachable<K(!new)>(edges: set<Edge<K>>, roots: set<K>, k: nat)
    ensures forall x :: x in Within(edges, roots, k) <==> ReachableWithin(edges, roots, x, k)
  {
    if k == 0 {
      forall x | x in roots ensures ReachableWithin(edges, roots, x, 0) {
        assert IsChain(edges, roots, [x]);
      }
    } else {
      WithinIsReachable(edges, roots, k - 1);
      forall x ensures x in Within(edges, roots, k) <==> ReachableWithin(edges, roots, x, k) {
        RoundIsReachable(edges, roots, k - 1, x);
      }
    }
  }

  lemma RoundIsReachable<K(!new)>(edges: set<Edge<K>>, roots: set<K>, k: nat, x: K)
    requires forall y :: y in Within(edges, roots, k) <==> ReachableWithin(edges, roots, y, k)
    ensures x in Within(edges, roots, k + 1) <==> ReachableWithin(edges, roots, x, k + 1)
  {
    var before := Within(edges, roots, k);
    if x in before {
      var p :| IsChain(edges, roots, p) && p[|p| - 1] == x && |p| <= k + 1;
      assert |p| <= k + 2;
    } else if x in Within(edges, roots, k + 1) {
      var e :| e in edges && e.1 in before && e.0 == x;
      var p :| IsChain(edges, roots, p) && p[|p| - 1] == e.1 && |p| <= k + 1;
      assert IsChain(edges, roots, p + [x]) && (p + [x])[|p + [x]| - 1] == x;
    }
    if ReachableWithin(edges, roots, x, k + 1) && !ReachableWithin(edges, roots, x, k) {
      var p :| IsChain(edges, roots, p) && p[|p| - 1] == x && |p| <= k + 2;
      assert |p| > k + 1;
      var q := p[..|p| - 1];
      assert IsChain(edges, roots, q) && (x, q[|q| - 1]) in edges;
    }
  }

  lemma {:induction false} WithinGrows<K(!new)>(edges: set<Edge<K>>, roots: set<K>, k: nat)
    ensures roots <= Within(edges, roots, k)
  {
    if k > 0 {
      WithinGrows(edges, roots, k - 1);
    }
  }

  /** Once a round adds nothing, no later round does. */
  lemma {:induction false} Stable<K(!new)>(edges: set<Edge<K>>, roots: set<K>, j: nat, k: nat)
    requires j <= k
    requires Grown(edges, Within(edges, roots, j)) == {}
    ensures Within(edges, roots, k) == Within(edges, roots, j)
    decreases k
  {
    if j < k {
      Stable(edges, roots, j, k - 1);
    }
  }

  /** Reaching a set that no round enlarges is reaching everything. */
  lemma ReachableWhenStable<K(!new)>(edges: set<Edge<K>>, roots: set<K>, j: nat, x: K)
    requires Grown(edges, Within(edges, roots, j)) == {}
    ensures Reachable(edges, roots, x) <==> x in Within(edges, roots, j)
  {
    WithinIsReachable(edges, roots, j);
    if x in Within(edges, roots, j) {
      var p :| IsChain(edges, roots, p) && p[|p| - 1] == x && |p| <= j + 1;
    }
    if Reachable(edges, roots, x) {
      var p :| IsChain(edges, roots, p) && p[|p| - 1] == x;
      var k := if |p| > j then |p| else j;
      WithinIsReachable(edges, roots, k);
      assert ReachableWithin(edges, roots, x, k);
      Stable(edges, roots, j, k);
    }
  }

  /** A round adds something exactly when some name is farther away than that round reaches. */
  lemma GrowthIsDistance<K(!new)>(edges: set<Edge<K>>, roots: set<K>, k: nat)
    ensures Grown(edges, Within(edges, roots, k)) != {} <==> ReachesBeyond(edges, roots, k)
  {
    WithinIsReachable(edges, roots, k);
    if Grown(edges, Within(edges, roots, k)) == {} {
      forall x ensures Reachable(edges, roots, x) ==> ReachableWithin(edges, roots, x, k) {
        ReachableWhenStable(edges, roots, k, x);
      }
    } else {
      var x :| x in Grown(edges, Within(edges, roots, k));
      WithinIsReachable(edges, roots, k + 1);
      assert x in Within(edges, roots, k + 1);
      var p :| IsChain(edges, roots, p) && p[|p| - 1] == x && |p| <= k + 2;
      assert Reachable(edges, roots, x);
    }
  }

  lemma {:induction false} WithinInsideClosed<K(!new)>(edges: set<Edge<K>>, roots: set<K>, k: nat, t: set<K>)
    requires IsClosed(edges, roots, t)
    ensures Within(edges, roots, k) <= t
  {
    if k > 0 {
      WithinInsideClosed(edges, roots, k - 1, t);
    }
  }

  /** If nothing lies beyond `budget - 1` bindings, the names within `budget` are the least fixed point. */
  lemma LeastFixedPoint<K(!new)>(edges: set<Edge<K>>, roots: set<K>, budget: nat, names: set<K>)
    requires budget > 0 && !ReachesBeyond(edges, roots, budget - 1)
    requires forall x :: x in names <==> ReachableWithin(edges, roots, x, budget)
    ensures IsLeastFixedPoint(edges, roots, names)
    ensures forall x :: x in names <==> Reachable(edges, roots, x)
  {
    GrowthIsDistance(edges, roots, budget - 1);
    Stable(edges, roots, budget - 1, budget);
    WithinIsReachable(edges, roots, budget);
    assert names == Within(edges, roots, budget - 1);
    StableIsLeast(edges, roots, budget - 1);
    forall x ensures x in names <==> Reachable(edges, roots, x) {
      ReachableWhenStable(edges, roots, budget - 1, x);
    }
  }

  lemma StableIsLeast<K(!new)>(edges: set<Edge<K>>, roots: set<K>, j: nat)
    requires Grown(edges, Within(edges, roots, j)) == {}
    ensures IsLeastFixedPoint(edges, roots, Within(edges, roots, j))
  {
    WithinGrows(edges, roots, j);
    var s := Within(edges, roots, j);
    assert forall e | e in edges && e.1 in s :: e.0 in s || e.0 in Grown(edges, s);
    forall t: set<K> | IsClosed(edges, roots, t) ensures s <= t {
      WithinInsideClosed(edges, roots, j, t);
    }
  }

  /** The loop left early, in round `round` of `budget`. */
  lemma Converged<K(!new)>(edges: set<Edge<K>>, roots: set<K>, round: nat, budget: nat)
    requires round < budget
    requires Grown(edges, Within(edges, roots, round)) == {}
    ensures forall x :: x in Within(edges, roots, round) <==> ReachableWithin(edges, roots, x, budget)
    ensures !ReachesBeyond(edges, roots, budget - 1)
  {
    Stable(edges, roots, round, budget);
    Stable(edges, roots, round, budget - 1);
    WithinIsReachable(edges, roots, budget);
    GrowthIsDistance(edges, roots, budget - 1);
  }

  lemma ChainEnds<K(!new)>(edges: set<Edge<K>>, roots: set<K>)
    ensures forall p :: IsChain(edges, roots, p) ==> p[|p| - 1] in roots + Bound(edges)
  {
    forall p | IsChain(edges, roots, p) ensures p[|p| - 1] in roots + Bound(edges) {
      assert |p| > 1 ==> (p[|p| - 2 + 1], p[|p| - 2]) in edges;
    }
  }

  function Bound<K>(edges: set<Edge<K>>): set<K> {
    set e | e in edges :: e.0
  }

  /** At most `budget` rounds of growth; the flag says that every round still grew. */
  method Grow<K(==, !new)>(edges: set<Edge<K>>, roots: set<K>, budget: nat) returns (names: set<K>, overflowed: bool)
    requires budget > 0
    ensures forall x :: x in names <==> ReachableWithin(edges, roots, x, budget)
    ensures overflowed <==> ReachesBeyond(edges, roots, budget - 1)
  {
    names := roots;
    for round := 0 to budget
      invariant names == Within(edges, roots, round)
      invariant round > 0 ==> Grown(edges, Within(edges, roots, round - 1)) != {}
    {
      var grown := Grown(edges, names);
      if grown == {} {
        Converged(edges, roots, round, budget);
        return names, false;
      }
      names := names + grown;
    }
    WithinIsReachable(edges, roots, budget);
    GrowthIsDistance(edges, roots, budget - 1);
    return names, true;
  }
}
