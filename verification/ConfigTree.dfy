/**
  Nested mappings as a heap of nodes, the value at a path, and what storing one entry or attaching one
  new node does to the values at all paths. Nodes and keys are of any type.
 */
module ConfigTree {

  /** Null, a scalar, or a nested mapping. */
  datatype Value<+N> = Null | Scalar(text: string) | Nested(node: N)

  /** The entries of every node. */
  type Heap<N, K> = map<N, map<K, Value<N>>>

  /** One key further: a missing key, or a key below something that is no mapping, reads as null. */
  function Step<N, K>(h: Heap<N, K>, v: Value<N>, k: K): Value<N> {
    if v.Nested? && v.node in h && k in h[v.node] then h[v.node][k] else Null
  }

  function Get<N, K>(h: Heap<N, K>, root: N, p: seq<K>): Value<N> {
    if p == [] then Nested(root) else Step(h, Get(h, root, p[..|p| - 1]), p[|p| - 1])
  }

  lemma GetNext<N, K>(h: Heap<N, K>, root: N, p: seq<K>, k: K)
    ensures Get(h, root, p + [k]) == Step(h, Get(h, root, p), k)
  {
    assert (p + [k])[..|p + [k]| - 1] == p;
  }

  /** `nodes` is the way along `p`: it starts at the root, and each key but the last leads to the next. */
  ghost predicate IsWay<N, K>(h: Heap<N, K>, root: N, p: seq<K>, nodes: seq<N>) {
    && p != [] && |nodes| == |p| && nodes[0] == root
    && (forall i | 0 <= i < |p| :: nodes[i] in h)
    && (forall i | 0 <= i < |p| - 1 :: p[i] in h[nodes[i]] && h[nodes[i]][p[i]] == Nested(nodes[i + 1]))
  }

  /** Something other than null is found exactly at the end of a way through nested mappings. */
  lemma {:induction false} GetIsFound<N, K>(h: Heap<N, K>, root: N, p: seq<K>, v: Value<N>)
    requires p != [] && !v.Null?
    ensures Get(h, root, p) == v
       <==> exists nodes: seq<N> :: IsWay(h, root, p, nodes) && EndsIn(h, p, nodes, v)
  {
    if Get(h, root, p) == v {
      var nodes := WayTo(h, root, p);
    }
    if nodes: seq<N> :| IsWay(h, root, p, nodes) && EndsIn(h, p, nodes, v) {
      WayIsFollowed(h, root, p, nodes);
    }
  }

  ghost predicate EndsIn<N, K>(h: Heap<N, K>, p: seq<K>, nodes: seq<N>, v: Value<N>)
    requires p != [] && |nodes| == |p|
  {
    var d, k := nodes[|p| - 1], p[|p| - 1];
    d in h && k in h[d] && h[d][k] == v
  }

  lemma {:induction false} WayTo<N, K>(h: Heap<N, K>, root: N, p: seq<K>) returns (nodes: seq<N>)
    requires p != [] && !Get(h, root, p).Null?
    ensures IsWay(h, root, p, nodes) && EndsIn(h, p, nodes, Get(h, root, p))
  {
    var before := p[..|p| - 1];
    if before == [] {
      nodes := [root];
    } else {
      nodes := WayTo(h, root, before);
      nodes := nodes + [Get(h, root, before).node];
    }
  }

  lemma {:induction false} WayIsFollowed<N, K>(h: Heap<N, K>, root: N, p: seq<K>, nodes: seq<N>)
    requires IsWay(h, root, p, nodes)
    ensures Get(h, root, p[..|p| - 1]) == Nested(nodes[|p| - 1])
  {
    var before := p[..|p| - 1];
    if before != [] {
      WayIsFollowed(h, root, before, nodes[..|p| - 1]);
      assert p[|p| - 2] in h[nodes[|p| - 2]] && h[nodes[|p| - 2]][p[|p| - 2]] == Nested(nodes[|p| - 2 + 1]);
    }
  }

  // ----- trees -----

  /** Nested nodes are in the heap. */
  ghost predicate IsClosed<N, K>(h: Heap<N, K>) {
    forall d, k | d in h && k in h[d] && h[d][k].Nested? :: h[d][k].node in h
  }

  /** No node is nested in two places, and the root in none. */
  ghost predicate IsUnshared<N, K>(h: Heap<N, K>, root: N) {
    && (forall d, k, d', k' | d in h && k in h[d] && d' in h && k' in h[d']
                              && h[d][k].Nested? && h[d][k] == h[d'][k'] :: d == d' && k == k')
    && (forall d, k | d in h && k in h[d] :: h[d][k] != Nested(root))
  }

  ghost predicate IsTree<N, K>(h: Heap<N, K>, root: N) {
    root in h && IsClosed(h) && IsUnshared(h, root)
  }

  lemma {:induction false} GetStaysInside<N, K>(h: Heap<N, K>, root: N, p: seq<K>)
    requires root in h && IsClosed(h)
    ensures Get(h, root, p).Nested? ==> Get(h, root, p).node in h
  {
    if p != [] {
      GetStaysInside(h, root, p[..|p| - 1]);
    }
  }

  /** In a tree, two paths to one node are one path. */
  lemma {:induction false} PathIsUnique<N, K>(h: Heap<N, K>, root: N, p: seq<K>, q: seq<K>)
    requires IsTree(h, root)
    requires Get(h, root, p).Nested? && Get(h, root, p) == Get(h, root, q)
    ensures p == q
  {
    if p != [] && q != [] {
      var a, b := Get(h, root, p[..|p| - 1]), Get(h, root, q[..|q| - 1]);
      assert a.Nested? && b.Nested? && a.node in h && b.node in h;
      assert h[a.node][p[|p| - 1]] == h[b.node][q[|q| - 1]];
      PathIsUnique(h, root, p[..|p| - 1], q[..|q| - 1]);
      assert p == p[..|p| - 1] + [p[|p| - 1]] && q == q[..|q| - 1] + [q[|q| - 1]];
    }
  }

  /** What lies on the way to a nested mapping is a nested mapping. */
  lemma {:induction false} PrefixIsNested<N, K>(h: Heap<N, K>, root: N, p: seq<K>, i: nat)
    requires i <= |p| && Get(h, root, p).Nested?
    ensures Get(h, root, p[..i]).Nested?
  {
    if i < |p| {
      PrefixIsNested(h, root, p[..|p| - 1], i);
      assert p[..|p| - 1][..i] == p[..i];
    } else {
      assert p[..i] == p;
    }
  }

  // ----- storing an entry -----

  function Put<N, K>(h: Heap<N, K>, d: N, k: K, v: Value<N>): Heap<N, K>
    requires d in h
  {
    h[d := h[d][k := v]]
  }

  /** In a tree, storing an entry changes no path that does not lead through it. */
  lemma {:induction false} PutIsLocal<N, K>(h: Heap<N, K>, root: N, p: seq<K>, d: N, k: K, v: Value<N>, q: seq<K>)
    requires IsTree(h, root) && d in h && Get(h, root, p) == Nested(d)
    requires !(p + [k] <= q)
    ensures Get(Put(h, d, k, v), root, q) == Get(h, root, q)
  {
    if q != [] {
      var before, last := q[..|q| - 1], q[|q| - 1];
      PutIsLocal(h, root, p, d, k, v, before);
      GetStaysInside(h, root, before);
      if Get(h, root, before) == Nested(d) {
        PathIsUnique(h, root, p, before);
        assert q == before + [last];
      }
    }
  }

  lemma PutIsFound<N, K>(h: Heap<N, K>, root: N, p: seq<K>, d: N, k: K, v: Value<N>)
    requires IsTree(h, root) && d in h && Get(h, root, p) == Nested(d)
    ensures Get(Put(h, d, k, v), root, p + [k]) == v
  {
    PutIsLocal(h, root, p, d, k, v, p);
    GetNext(Put(h, d, k, v), root, p, k);
  }

  lemma PutKeepsTree<N, K>(h: Heap<N, K>, root: N, d: N, k: K, v: Value<N>)
    requires IsTree(h, root) && d in h && !v.Nested?
    ensures IsTree(Put(h, d, k, v), root)
  {
  }

  // ----- attaching a new, empty node where there was nothing -----

  function Attach<N, K>(h: Heap<N, K>, d: N, k: K, child: N): Heap<N, K>
    requires d in h
  {
    Put(h, d, k, Nested(child))[child := map[]]
  }

  /** Only the path to the new node changes: below it there was nothing and there is nothing. */
  lemma {:induction false} AttachIsLocal<N, K>(h: Heap<N, K>, root: N, p: seq<K>, d: N, k: K, child: N, q: seq<K>)
    requires IsTree(h, root) && d in h && Get(h, root, p) == Nested(d)
    requires Step(h, Nested(d), k).Null? && child !in h
    ensures Get(Attach(h, d, k, child), root, q) == if q == p + [k] then Nested(child) else Get(h, root, q)
  {
    if q != [] {
      var before, last := q[..|q| - 1], q[|q| - 1];
      assert q == before + [last];
      AttachIsLocal(h, root, p, d, k, child, before);
      GetStaysInside(h, root, before);
      AttachStep(h, d, k, child, Get(h, root, before), last);
      if before == p + [k] {
        GetNext(h, root, p, k);
        assert |q| != |p + [k]|;
      } else if Get(h, root, before) == Nested(d) {
        PathIsUnique(h, root, p, before);
      } else {
        assert q[..|q| - 1] != p;
        assert (p + [k])[..|p + [k]| - 1] == p;
      }
    }
  }

  lemma AttachStep<N, K>(h: Heap<N, K>, d: N, k: K, child: N, v: Value<N>, x: K)
    requires d in h && child !in h
    requires v.Nested? ==> v.node in h
    ensures Step(Attach(h, d, k, child), v, x) == if v == Nested(d) && x == k then Nested(child) else Step(h, v, x)
    ensures Step(Attach(h, d, k, child), Nested(child), x).Null?
  {
  }

  lemma AttachKeepsTree<N, K>(h: Heap<N, K>, root: N, d: N, k: K, child: N)
    requires IsTree(h, root) && d in h && Step(h, Nested(d), k).Null? && child !in h
    ensures IsTree(Attach(h, d, k, child), root)
  {
    var h': Heap<N, K> := Attach(h, d, k, child);
    forall e, x | e in h' && x in h'[e] && h'[e][x].Nested?
      ensures (e == d && x == k && h'[e][x] == Nested(child))
           || (e in h && x in h[e] && h'[e][x] == h[e][x] && h[e][x] != Nested(child))
    {
    }
  }
}
