/**
  Three-valued tier verdicts, their default-deny order, and maps from names to verdicts
  seen as sets of contributions. The names are of any type.
 */
module VerdictMaps {
  import opened Wrappers

  datatype Verdict = Benign | Unresolved | T3

  /** The default-deny order. */
  function Strictness(v: Verdict): nat {
    match v
    case Benign => 0
    case Unresolved => 1
    case T3 => 2
  }

  function Stricter(candidate: Verdict, incumbent: Option<Verdict>): Verdict {
    match incumbent
    case None => candidate
    case Some(v) => if Strictness(candidate) > Strictness(v) then candidate else v
  }

  /** The strictest member of a set of verdicts. */
  function Join(vs: set<Verdict>): (j: Verdict)
    ensures vs != {} ==> j in vs
    ensures forall v | v in vs :: Strictness(v) <= Strictness(j)
  {
    assert vs != {} ==> exists v :: v in vs && (v == T3 || v == Unresolved || v == Benign);
    if T3 in vs then T3 else if Unresolved in vs then Unresolved else Benign
  }

  function Get<K>(m: map<K, Verdict>, x: K): Option<Verdict> {
    if x in m then Some(m[x]) else None
  }

  /** One contribution: this name has this verdict from somewhere. */
  type Pair<K> = (K, Verdict)

  ghost function At<K(!new)>(r: set<Pair<K>>, x: K): set<Verdict> {
    set c | c in r && c.0 == x :: c.1
  }

  /** The map holds the join of all contributions, and only names that have one. */
  ghost predicate Represents<K(!new)>(m: map<K, Verdict>, r: set<Pair<K>>) {
    && (forall x :: x in m <==> At(r, x) != {})
    && (forall x | x in m :: m[x] == Join(At(r, x)))
  }

  ghost function Pairs<K>(names: set<K>, v: Verdict): set<Pair<K>> {
    set x | x in names :: (x, v)
  }

  lemma JoinWith(vs: set<Verdict>, v: Verdict)
    ensures Join(vs + {v}) == Stricter(v, if vs == {} then None else Some(Join(vs)))
  {
    if vs == {} {
      assert vs + {v} == {v};
    }
  }

  /** Raising one name records one more contribution. */
  lemma RaiseOne<K(!new)>(m: map<K, Verdict>, r: set<Pair<K>>, x: K, v: Verdict)
    requires Represents(m, r)
    ensures Represents(m[x := Stricter(v, Get(m, x))], r + {(x, v)})
  {
    var m', r' := m[x := Stricter(v, Get(m, x))], r + {(x, v)};
    forall y
      ensures y in m' <==> At(r', y) != {}
      ensures y in m' ==> m'[y] == Join(At(r', y))
    {
      AtPlus(r, x, v, y);
      if y == x {
        JoinWith(At(r, x), v);
      } else {
        assert At(r', y) == At(r, y);
      }
    }
  }

  lemma AtPlus<K(!new)>(r: set<Pair<K>>, x: K, v: Verdict, y: K)
    ensures At(r + {(x, v)}, y) == At(r, y) + if y == x then {v} else {}
  {
  }

  /** `for name in names: m[name] = stricter(v, m.get(name))`, in any order. */
  method Raise<K(==, !new)>(m: map<K, Verdict>, names: set<K>, v: Verdict, ghost r: set<Pair<K>>)
    returns (m': map<K, Verdict>)
    requires Represents(m, r)
    ensures Represents(m', r + Pairs(names, v))
  {
    m' := m;
    var rest := names;
    while rest != {}
      invariant rest <= names
      invariant Represents(m', r + Pairs(names - rest, v))
    {
      var x :| x in rest;
      RaiseOne(m', r + Pairs(names - rest, v), x, v);
      assert r + Pairs(names - (rest - {x}), v) == r + Pairs(names - rest, v) + {(x, v)};
      m' := m'[x := Stricter(v, Get(m', x))];
      rest := rest - {x};
    }
    assert names - rest == names;
  }

  /** The verdicts that reach `x` when `aliases(s)` are the names that stand for `s`. */
  ghost function Reaching<K(!new)>(r: set<Pair<K>>, aliases: K -> set<K>, x: K): set<Verdict> {
    set c | c in r && x in aliases(c.0) :: c.1
  }

  /** The contributions once each seed's own join has been given to all its aliases. */
  ghost function Fanned<K(!new)>(seeds: map<K, Verdict>, aliases: K -> set<K>, done: set<K>): set<Pair<K>> {
    set s, x | s in done && s in seeds && x in aliases(s) :: (x, seeds[s])
  }

  lemma FanOne<K(!new)>(seeds: map<K, Verdict>, aliases: K -> set<K>, done: set<K>, s: K)
    requires s in seeds
    ensures Fanned(seeds, aliases, done + {s}) == Fanned(seeds, aliases, done) + Pairs(aliases(s), seeds[s])
  {
  }

  /** Joining per seed and then following aliases joins exactly the verdicts that reach a name. */
  lemma FannedIsReaching<K(!new)>(r: set<Pair<K>>, seeds: map<K, Verdict>, aliases: K -> set<K>, x: K)
    requires Represents(seeds, r)
    ensures At(Fanned(seeds, aliases, seeds.Keys), x) != {} <==> Reaching(r, aliases, x) != {}
    ensures Join(At(Fanned(seeds, aliases, seeds.Keys), x)) == Join(Reaching(r, aliases, x))
  {
    if At(Fanned(seeds, aliases, seeds.Keys), x) != {} {
      FannedInReaching(r, seeds, aliases, x);
    }
    if Reaching(r, aliases, x) != {} {
      ReachingBelowFanned(r, seeds, aliases, x);
    }
  }

  lemma FannedInReaching<K(!new)>(r: set<Pair<K>>, seeds: map<K, Verdict>, aliases: K -> set<K>, x: K)
    requires Represents(seeds, r) && At(Fanned(seeds, aliases, seeds.Keys), x) != {}
    ensures Join(At(Fanned(seeds, aliases, seeds.Keys), x)) in Reaching(r, aliases, x)
  {
    var j := Join(At(Fanned(seeds, aliases, seeds.Keys), x));
    var s :| s in seeds && x in aliases(s) && j == seeds[s];
    assert j in At(r, s);
  }

  lemma ReachingBelowFanned<K(!new)>(r: set<Pair<K>>, seeds: map<K, Verdict>, aliases: K -> set<K>, x: K)
    requires Represents(seeds, r) && Reaching(r, aliases, x) != {}
    ensures At(Fanned(seeds, aliases, seeds.Keys), x) != {}
    ensures Strictness(Join(Reaching(r, aliases, x))) <= Strictness(Join(At(Fanned(seeds, aliases, seeds.Keys), x)))
  {
    var c :| c in r && x in aliases(c.0) && c.1 == Join(Reaching(r, aliases, x));
    assert c.1 in At(r, c.0);
    assert (x, seeds[c.0]) in Fanned(seeds, aliases, seeds.Keys);
    assert seeds[c.0] in At(Fanned(seeds, aliases, seeds.Keys), x);
  }

  /** The verdict of a name that is also bound bare is raised to at least unresolved. */
  ghost function Ambiguity<K(!new)>(bare: set<K>, x: K): set<Verdict> {
    if x in bare then {Unresolved} else {}
  }

  /** `m` is the join of all verdicts that reach each name, raised where the name is ambiguous. */
  ghost predicate IsJoin<K(!new)>(m: map<K, Verdict>, r: set<Pair<K>>, aliases: K -> set<K>, bare: set<K>) {
    && (forall x :: x in m <==> Reaching(r, aliases, x) != {})
    && (forall x | x in m :: m[x] == Join(Reaching(r, aliases, x) + Ambiguity(bare, x)))
  }

  lemma JoinUnion(a: set<Verdict>, b: set<Verdict>, c: set<Verdict>)
    requires Join(a) == Join(b) && (a == {} <==> b == {})
    ensures Join(a + c) == Join(b + c)
  {
  }

  lemma RaisedIsJoin<K(!new)>(m: map<K, Verdict>, r: set<Pair<K>>, seeds: map<K, Verdict>, aliases: K -> set<K>,
                              fanned: map<K, Verdict>, bare: set<K>)
    requires Represents(seeds, r)
    requires Represents(fanned, Fanned(seeds, aliases, seeds.Keys))
    requires Represents(m, Fanned(seeds, aliases, seeds.Keys) + Pairs(fanned.Keys * bare, Unresolved))
    ensures IsJoin(m, r, aliases, bare)
  {
    forall x
      ensures x in m <==> Reaching(r, aliases, x) != {}
      ensures x in m ==> m[x] == Join(Reaching(r, aliases, x) + Ambiguity(bare, x))
    {
      FannedIsReaching(r, seeds, aliases, x);
      RaisedAt(Fanned(seeds, aliases, seeds.Keys), fanned, bare, x);
      JoinUnion(At(Fanned(seeds, aliases, seeds.Keys), x), Reaching(r, aliases, x), Ambiguity(bare, x));
    }
  }

  lemma RaisedAt<K(!new)>(f: set<Pair<K>>, fanned: map<K, Verdict>, bare: set<K>, x: K)
    requires Represents(fanned, f)
    ensures At(f + Pairs(fanned.Keys * bare, Unresolved), x)
         == if x in fanned then At(f, x) + Ambiguity(bare, x) else {}
  {
    var p := Pairs(fanned.Keys * bare, Unresolved);
    assert At(f + p, x) == At(f, x) + At(p, x);
    if x in fanned.Keys * bare {
      assert (x, Unresolved) in p;
      assert At(p, x) == {Unresolved};
    } else {
      assert At(p, x) == {};
    }
  }

  /** A name is benign only if it is not bound bare and every verdict that reaches it is benign. */
  lemma BenignMeansAllBenign<K(!new)>(m: map<K, Verdict>, r: set<Pair<K>>, aliases: K -> set<K>, bare: set<K>, x: K)
    requires IsJoin(m, r, aliases, bare) && x in m
    ensures m[x] == Benign <==> x !in bare && Reaching(r, aliases, x) == {Benign}
    ensures m[x] == T3 <==> T3 in Reaching(r, aliases, x)
  {
    var all := Reaching(r, aliases, x) + Ambiguity(bare, x);
    if m[x] == Benign {
      assert forall v | v in all :: Strictness(v) <= Strictness(Join(all));
      assert Unresolved !in all;
    }
  }

  /** A name bound to a T3 subscript itself is T3. */
  lemma T3PairIsSeen<K(!new)>(m: map<K, Verdict>, r: set<Pair<K>>, aliases: K -> set<K>, bare: set<K>, x: K)
    requires IsJoin(m, r, aliases, bare) && (x, T3) in r && x in aliases(x)
    ensures x in m && m[x] == T3
  {
    assert T3 in Reaching(r, aliases, x);
    BenignMeansAllBenign(m, r, aliases, bare, x);
  }
}
