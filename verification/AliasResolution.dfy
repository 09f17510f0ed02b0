/**
  The gate's alias resolver: the local names bound to a seed, directly, through an
  import alias or through any chain of name-to-name bindings, found by at most
  `BUDGET` rounds of growth.
 */
module AliasResolution {
  import opened Wrappers
  import opened PyAst
  import opened Reachability

  const BUDGET: nat := 32

  /** What one node contributes: `target = source` for every name target. */
  function NameBindings(n: Node): set<Edge<string>> {
    match BoundValue(n)
    case Some(Name(source)) => set t | t in BoundNames(n) :: (t, source)
    case _ => {}
  }

  /** All name-to-name bindings of a file, whatever their order. */
  function Edges(file: set<Node>): set<Edge<string>> {
    set n, e | n in file && e in NameBindings(n) :: e
  }

  /** The seed and the names it is imported under. */
  function Roots(file: set<Node>, seed: string): set<string> {
    {seed} + set n | n in file && n.ImportAlias? && n.name == seed && n.asname.Some? :: n.asname.value
  }

  /** The alias set the gate decides on: every name at most `BUDGET` bindings from a root. */
  ghost function Resolved(file: set<Node>, seed: string): (names: set<string>)
    ensures forall x :: x in names <==> ReachableWithin(Edges(file), Roots(file, seed), x, BUDGET)
  {
    var edges, roots := Edges(file), Roots(file, seed);
    ChainEnds(edges, roots);
    set x | x in roots + Bound(edges) && ReachableWithin(edges, roots, x, BUDGET)
  }

  /** Some alias of the seed is `BUDGET` or more bindings away from every root. */
  ghost predicate Overflows(file: set<Node>, seed: string) {
    ReachesBeyond(Edges(file), Roots(file, seed), BUDGET - 1)
  }

  /** Without overflow the alias set is the whole least fixed point. */
  lemma NoOverflowIsLeastFixedPoint(file: set<Node>, seed: string)
    requires !Overflows(file, seed)
    ensures IsLeastFixedPoint(Edges(file), Roots(file, seed), Resolved(file, seed))
    ensures forall x :: x in Resolved(file, seed) <==> Reachable(Edges(file), Roots(file, seed), x)
  {
    LeastFixedPoint(Edges(file), Roots(file, seed), BUDGET, Resolved(file, seed));
  }

  /** The seed stands for itself, and so do its import aliases and whatever is bound to it. */
  lemma DirectAliasIsResolved(file: set<Node>, seed: string, x: string)
    requires x == seed || ImportAlias(seed, Some(x)) in file || Binds(file, x, Name(seed))
    ensures x in Resolved(file, seed)
  {
    var edges, roots := Edges(file), Roots(file, seed);
    if Binds(file, x, Name(seed)) {
      var n := BindingNode(file, x, Name(seed));
      assert (x, seed) in NameBindings(n);
      assert IsChain(edges, roots, [seed, x]);
    } else {
      if x != seed {
        assert ImportAlias(seed, Some(x)).asname.value in roots;
      }
      assert IsChain(edges, roots, [x]);
    }
  }

  /** The name stands for the seed through at most `k` bindings: it is the seed, an import of the seed under
      this name, or bound to a name that stands for the seed through fewer. */
  ghost predicate StandsFor(file: set<Node>, seed: string, x: string, k: nat)
    decreases k
  {
    || x == seed
    || ImportAlias(seed, Some(x)) in file
    || (k > 0 && exists y :: Binds(file, x, Name(y)) && StandsFor(file, seed, y, k - 1))
  }

  lemma EdgeIsBinding(file: set<Node>, x: string, y: string)
    ensures (x, y) in Edges(file) <==> Binds(file, x, Name(y))
  {
    if Binds(file, x, Name(y)) {
      var n := BindingNode(file, x, Name(y));
      assert (x, y) in NameBindings(n);
    }
    if (x, y) in Edges(file) {
      var n :| n in file && (x, y) in NameBindings(n);
      NodeBinds(file, n, x, Name(y));
    }
  }

  lemma RootIsImport(file: set<Node>, seed: string, x: string)
    ensures x in Roots(file, seed) <==> x == seed || ImportAlias(seed, Some(x)) in file
  {
    if ImportAlias(seed, Some(x)) in file {
      assert ImportAlias(seed, Some(x)).asname.value == x;
    }
  }

  lemma {:induction false} WithinIsStanding(file: set<Node>, seed: string, x: string, k: nat)
    ensures x in Within(Edges(file), Roots(file, seed), k) <==> StandsFor(file, seed, x, k)
    decreases k
  {
    var edges, roots := Edges(file), Roots(file, seed);
    RootIsImport(file, seed, x);
    if k > 0 {
      WithinGrows(edges, roots, k);
      var j := k - 1;
      forall y ensures y in Within(edges, roots, j) <==> StandsFor(file, seed, y, j) {
        WithinIsStanding(file, seed, y, j);
      }
      forall y ensures (x, y) in edges <==> Binds(file, x, Name(y)) {
        EdgeIsBinding(file, x, y);
      }
      if StandsFor(file, seed, x, k - 1) {
        StandingGrows(file, seed, x, k - 1);
      }
    }
  }

  lemma {:induction false} StandingGrows(file: set<Node>, seed: string, x: string, k: nat)
    requires StandsFor(file, seed, x, k)
    ensures StandsFor(file, seed, x, k + 1)
    decreases k
  {
    if x != seed && ImportAlias(seed, Some(x)) !in file {
      var y :| Binds(file, x, Name(y)) && StandsFor(file, seed, y, k - 1);
      StandingGrows(file, seed, y, k - 1);
    }
  }

  /** The alias set, read off the statements of the file: the names that stand for the seed through at
      most 32 bindings, and no others. */
  lemma ResolvedExactly(file: set<Node>, seed: string, x: string)
    ensures x in Resolved(file, seed) <==> StandsFor(file, seed, x, BUDGET)
  {
    WithinIsReachable(Edges(file), Roots(file, seed), BUDGET);
    WithinIsStanding(file, seed, x, BUDGET);
  }

  /** A name is an alias only as the seed, as an import of it, or through a binding to another alias. */
  lemma AliasHasAReason(file: set<Node>, seed: string, x: string)
    requires x in Resolved(file, seed)
    ensures x == seed || ImportAlias(seed, Some(x)) in file
         || exists y :: Binds(file, x, Name(y)) && y in Resolved(file, seed)
  {
    ResolvedExactly(file, seed, x);
    if x != seed && ImportAlias(seed, Some(x)) !in file {
      var y := Source(file, seed, x, BUDGET);
      ResolvedExactly(file, seed, y);
    }
  }

  lemma Source(file: set<Node>, seed: string, x: string, k: nat) returns (y: string)
    requires StandsFor(file, seed, x, k) && x != seed && ImportAlias(seed, Some(x)) !in file
    ensures Binds(file, x, Name(y)) && StandsFor(file, seed, y, k)
  {
    y :| Binds(file, x, Name(y)) && StandsFor(file, seed, y, k - 1);
    StandingGrows(file, seed, y, k - 1);
  }

  /** The name stands for the seed, but only through more than `k` bindings. */
  ghost predicate IsFartherThan(file: set<Node>, seed: string, x: string, k: nat) {
    !StandsFor(file, seed, x, k) && exists m: nat :: StandsFor(file, seed, x, m)
  }

  lemma FartherExactly(file: set<Node>, seed: string, x: string, k: nat)
    ensures IsFartherThan(file, seed, x, k)
       <==> Reachable(Edges(file), Roots(file, seed), x) && !ReachableWithin(Edges(file), Roots(file, seed), x, k)
  {
    var edges, roots := Edges(file), Roots(file, seed);
    StandingIsReachable(file, seed, x, k);
    if m: nat :| StandsFor(file, seed, x, m) {
      StandingIsReachable(file, seed, x, m);
    }
    if p :| IsChain(edges, roots, p) && p[|p| - 1] == x {
      assert ReachableWithin(edges, roots, x, |p|);
      StandingIsReachable(file, seed, x, |p|);
    }
  }

  ghost predicate IsFar(file: set<Node>, seed: string, x: string) {
    IsFartherThan(file, seed, x, BUDGET - 1)
  }

  /** Overflow, read off the statements: some name stands for the seed, but through no fewer than 32. */
  lemma OverflowsExactly(file: set<Node>, seed: string)
    ensures Overflows(file, seed) <==> exists x :: IsFar(file, seed, x)
  {
    var k: nat := BUDGET - 1;
    forall x
      ensures IsFar(file, seed, x)
         <==> Reachable(Edges(file), Roots(file, seed), x) && !ReachableWithin(Edges(file), Roots(file, seed), x, k)
    {
      FartherExactly(file, seed, x, k);
    }
  }

  lemma StandingIsReachable(file: set<Node>, seed: string, x: string, k: nat)
    ensures StandsFor(file, seed, x, k) <==> ReachableWithin(Edges(file), Roots(file, seed), x, k)
    ensures StandsFor(file, seed, x, k) ==> Reachable(Edges(file), Roots(file, seed), x)
  {
    WithinIsReachable(Edges(file), Roots(file, seed), k);
    WithinIsStanding(file, seed, x, k);
  }

  /** The name is imported under no other name and never bound to a plain name. */
  ghost predicate IsNoAlias(file: set<Node>, x: string) {
    && (forall n | n in file && n.ImportAlias? :: n.asname != Some(x))
    && (forall n, source | n in file && BoundValue(n) == Some(Name(source)) :: x !in BoundNames(n))
  }

  /** Such a name stands for itself only. */
  lemma NoAliasIsNotResolved(file: set<Node>, seed: string, x: string)
    requires IsNoAlias(file, x) && x != seed
    ensures x !in Resolved(file, seed)
  {
    ChainEnds(Edges(file), Roots(file, seed));
    assert x !in Roots(file, seed);
    forall e | e in Edges(file) ensures e.0 != x {
      var n :| n in file && e in NameBindings(n);
    }
  }

  /** More bindings resolve at least as many names, overflow or not. */
  lemma ResolvedMonotone(file: set<Node>, more: set<Node>, seed: string)
    requires file <= more
    ensures Resolved(file, seed) <= Resolved(more, seed)
  {
    forall x | x in Resolved(file, seed) ensures x in Resolved(more, seed) {
      var p :| IsChain(Edges(file), Roots(file, seed), p) && p[|p| - 1] == x && |p| <= BUDGET + 1;
      assert IsChain(Edges(more), Roots(more, seed), p);
    }
  }

  /** The walk that gathers the roots and the bindings. */
  method CollectBindings(nodes: seq<Node>, seed: string) returns (roots: set<string>, edges: set<Edge<string>>)
    ensures roots == Roots(NodeSet(nodes), seed)
    ensures edges == Edges(NodeSet(nodes))
  {
    roots, edges := {seed}, {};
    for i := 0 to |nodes|
      invariant roots == Roots(NodeSet(nodes[..i]), seed)
      invariant edges == Edges(NodeSet(nodes[..i]))
    {
      assert NodeSet(nodes[..i + 1]) == NodeSet(nodes[..i]) + {nodes[i]};
      match nodes[i] {
        case ImportAlias(name, Some(asname)) =>
          if name == seed { roots := roots + {asname}; }
        case _ =>
      }
      edges := edges + NameBindings(nodes[i]);
    }
    assert nodes[..|nodes|] == nodes;
  }

  /** The resolver. Its answer is a function of the set of nodes, so statement order is immaterial. */
  method AliasNames(nodes: seq<Node>, seed: string) returns (names: set<string>, overflowed: bool)
    ensures names == Resolved(NodeSet(nodes), seed)
    ensures overflowed <==> Overflows(NodeSet(nodes), seed)
  {
    var roots, edges := CollectBindings(nodes, seed);
    names, overflowed := Grow(edges, roots, BUDGET);
  }
}
