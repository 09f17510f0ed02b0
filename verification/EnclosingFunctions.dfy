/**
  The map from source lines to their innermost enclosing function, built by a depth-first
  walk with an explicit stack, and the exemption that is keyed on it.
 */
module EnclosingFunctions {
  import opened Wrappers

  /** A function with its first and last line, a class, or any other node. */
  datatype Kind = Def(name: string, first: int, last: int) | ClassScope | Plain

  datatype Tree = Tree(kind: Kind, children: seq<Tree>)

  /** A function's name and the number of def/class scopes around it. */
  type Scope = (string, nat)

  predicate Covers(k: Kind, line: int) {
    k.Def? && k.first <= line <= k.last
  }

  function ChildDepth(k: Kind, depth: nat): nat {
    if k.Plain? then depth else depth + 1
  }

  // ----- innermost, stated with paths from the root -----

  ghost predicate IsPath(t: Tree, p: seq<nat>) {
    p != [] ==> p[0] < |t.children| && IsPath(t.children[p[0]], p[1..])
  }

  ghost function NodeAt(t: Tree, p: seq<nat>): Tree
    requires IsPath(t, p)
  {
    if p == [] then t else NodeAt(t.children[p[0]], p[1..])
  }

  /** The number of def/class nodes strictly above the node at `p`, plus `depth`. */
  ghost function DepthAt(t: Tree, p: seq<nat>, depth: nat): nat
    requires IsPath(t, p)
  {
    if p == [] then depth
    else DepthAt(t.children[p[0]], p[1..], depth + if t.kind.Def? || t.kind.ClassScope? then 1 else 0)
  }

  ghost predicate CoversAt(t: Tree, p: seq<nat>, line: int) {
    IsPath(t, p) && var k := NodeAt(t, p).kind; k.Def? && k.first <= line <= k.last
  }

  /** The function at `p` covers the line, and every function that covers it is at or above `p`. */
  ghost predicate IsInnermost(t: Tree, p: seq<nat>, line: int) {
    CoversAt(t, p, line) && forall q :: CoversAt(t, q, line) ==> q <= p
  }

  // ----- what the parser guarantees about line ranges -----

  /** Some function in the tree covers the line. */
  predicate Touches(t: Tree, line: int) {
    Covers(t.kind, line) || exists c | c in t.children :: Touches(c, line)
  }

  ghost predicate Disjoint(a: Tree, b: Tree) {
    forall line :: !(Touches(a, line) && Touches(b, line))
  }

  /** Functions lie inside the function around them, and siblings share no line. */
  ghost predicate WellNested(t: Tree) {
    && (forall c | c in t.children :: WellNested(c))
    && (t.kind.Def? ==> forall c, line | c in t.children && Touches(c, line) :: Covers(t.kind, line))
    && (forall i, j | 0 <= i < j < |t.children| :: Disjoint(t.children[i], t.children[j]))
  }

  // ----- a recursive form of the same -----

  function OrElse(a: Option<Scope>, b: Option<Scope>): Option<Scope> {
    if a.Some? then a else b
  }

  ghost function Inner(t: Tree, depth: nat, line: int): (r: Option<Scope>)
    ensures r.Some? <==> Touches(t, line)
  {
    OrElse(InnerAll(t.children, ChildDepth(t.kind, depth), line),
           if Covers(t.kind, line) then Some((t.kind.name, depth)) else None)
  }

  ghost function InnerAll(ts: seq<Tree>, depth: nat, line: int): (r: Option<Scope>)
    ensures r.Some? <==> exists t | t in ts :: Touches(t, line)
  {
    if ts == [] then None
    else
      assert forall t :: t in ts <==> t == ts[0] || t in ts[1..];
      OrElse(Inner(ts[0], depth, line), InnerAll(ts[1..], depth, line))
  }

  /** Where only the `i`-th tree touches a line, it decides. */
  lemma {:induction false} OnlyOneTouches(ts: seq<Tree>, i: nat, depth: nat, line: int)
    requires i < |ts| && Touches(ts[i], line)
    requires forall j | 0 <= j < |ts| && j != i :: !Touches(ts[j], line)
    ensures InnerAll(ts, depth, line) == Inner(ts[i], depth, line)
  {
    if i > 0 {
      OnlyOneTouches(ts[1..], i - 1, depth, line);
    }
  }

  /** The recursive form finds the innermost function, and nothing exactly when there is none. */
  lemma {:induction false} InnerIsInnermost(t: Tree, depth: nat, line: int) returns (p: seq<nat>)
    requires WellNested(t) && Touches(t, line)
    ensures IsInnermost(t, p, line)
    ensures Inner(t, depth, line) == Some((NodeAt(t, p).kind.name, DepthAt(t, p, depth)))
    decreases t
  {
    if i :| 0 <= i < |t.children| && Touches(t.children[i], line) {
      OthersDoNotTouch(t, i, line);
      OnlyOneTouches(t.children, i, ChildDepth(t.kind, depth), line);
      var q := InnerIsInnermost(t.children[i], ChildDepth(t.kind, depth), line);
      p := [i] + q;
      InnermostInChild(t, i, q, line);
      assert p[1..] == q;
    } else {
      p := [];
      NoChildCovers(t, line);
    }
  }

  lemma OthersDoNotTouch(t: Tree, i: nat, line: int)
    requires WellNested(t) && i < |t.children| && Touches(t.children[i], line)
    ensures forall j | 0 <= j < |t.children| && j != i :: !Touches(t.children[j], line)
  {
    forall j | 0 <= j < |t.children| && j != i ensures !Touches(t.children[j], line) {
      assert Disjoint(t.children[if i < j then i else j], t.children[if i < j then j else i]);
    }
  }

  lemma NoChildCovers(t: Tree, line: int)
    requires forall i | 0 <= i < |t.children| :: !Touches(t.children[i], line)
    ensures forall r :: CoversAt(t, r, line) ==> r == []
  {
    forall r | CoversAt(t, r, line) ensures r == [] {
      if r != [] {
        CoveringPathTouches(t.children[r[0]], r[1..], line);
      }
    }
  }

  lemma InnermostInChild(t: Tree, i: nat, q: seq<nat>, line: int)
    requires i < |t.children| && IsInnermost(t.children[i], q, line)
    requires forall j | 0 <= j < |t.children| && j != i :: !Touches(t.children[j], line)
    ensures IsInnermost(t, [i] + q, line)
  {
    assert ([i] + q)[1..] == q;
    forall r | CoversAt(t, r, line) ensures r <= [i] + q {
      if r != [] {
        CoveringPathTouches(t.children[r[0]], r[1..], line);
        assert CoversAt(t.children[i], r[1..], line);
        assert r == [i] + r[1..];
      }
    }
  }

  lemma {:induction false} CoveringPathTouches(t: Tree, p: seq<nat>, line: int)
    requires CoversAt(t, p, line)
    ensures Touches(t, line)
    decreases p
  {
    if p != [] {
      CoveringPathTouches(t.children[p[0]], p[1..], line);
    }
  }

  lemma InnermostScope(t: Tree, p: seq<nat>, line: int)
    requires WellNested(t) && IsInnermost(t, p, line)
    ensures Inner(t, 0, line) == Some((NodeAt(t, p).kind.name, DepthAt(t, p, 0)))
  {
    CoveringPathTouches(t, p, line);
    var q := InnerIsInnermost(t, 0, line);
    assert p <= q && q <= p;
    assert p == q;
  }

  // ----- the stack walk -----

  ghost function Pending(stack: seq<(Tree, nat)>, line: int): Option<Scope> {
    if stack == [] then None
    else OrElse(Inner(stack[0].0, stack[0].1, line), Pending(stack[1..], line))
  }

  ghost predicate StackTouches(stack: seq<(Tree, nat)>, line: int) {
    exists i | 0 <= i < |stack| :: Touches(stack[i].0, line)
  }

  ghost predicate GoodStack(stack: seq<(Tree, nat)>) {
    && (forall i | 0 <= i < |stack| :: WellNested(stack[i].0))
    && (forall i, j | 0 <= i < j < |stack| :: Disjoint(stack[i].0, stack[j].0))
  }

  function Lookup(m: map<int, Scope>, line: int): Option<Scope> {
    if line in m then Some(m[line]) else None
  }

  /** What the map will say about a line once the stack has been emptied. */
  ghost function Outcome(m: map<int, Scope>, stack: seq<(Tree, nat)>, line: int): Option<Scope> {
    OrElse(Pending(stack, line), Lookup(m, line))
  }

  /** `m'` is `m` with the lines of a function, if `k` is one, mapped to it. */
  ghost predicate IsMarked(m: map<int, Scope>, m': map<int, Scope>, k: Kind, depth: nat) {
    forall line :: Lookup(m', line) == if Covers(k, line) then Some((k.name, depth)) else Lookup(m, line)
  }

  function Pushed(ts: seq<Tree>, depth: nat): seq<(Tree, nat)> {
    seq(|ts|, i requires 0 <= i < |ts| => (ts[i], depth))
  }

  function Size(t: Tree): nat { 1 + SizeAll(t.children) }

  function SizeAll(ts: seq<Tree>): nat {
    if ts == [] then 0 else Size(ts[0]) + SizeAll(ts[1..])
  }

  ghost function StackSize(stack: seq<(Tree, nat)>): nat {
    if stack == [] then 0 else Size(stack[0].0) + StackSize(stack[1..])
  }

  lemma {:induction false} StackSizeConcat(a: seq<(Tree, nat)>, b: seq<(Tree, nat)>)
    ensures StackSize(a + b) == StackSize(a) + StackSize(b)
  {
    if a == [] {
      assert a + b == b;
    } else {
      assert (a + b)[1..] == a[1..] + b;
      StackSizeConcat(a[1..], b);
    }
  }

  lemma {:induction false} PendingConcat(a: seq<(Tree, nat)>, b: seq<(Tree, nat)>, line: int)
    ensures Pending(a + b, line) == OrElse(Pending(a, line), Pending(b, line))
  {
    if a == [] {
      assert a + b == b;
    } else {
      assert (a + b)[1..] == a[1..] + b;
      PendingConcat(a[1..], b, line);
    }
  }

  lemma PendingOne(t: Tree, depth: nat, line: int)
    ensures Pending([(t, depth)], line) == Inner(t, depth, line)
  {
    assert [(t, depth)][1..] == [];
  }

  lemma {:induction false} PushedIsAll(ts: seq<Tree>, depth: nat, line: int)
    ensures Pending(Pushed(ts, depth), line) == InnerAll(ts, depth, line)
    ensures StackSize(Pushed(ts, depth)) == SizeAll(ts)
  {
    if ts != [] {
      assert Pushed(ts, depth)[1..] == Pushed(ts[1..], depth);
      PushedIsAll(ts[1..], depth, line);
    }
  }

  lemma {:induction false} PendingTouches(stack: seq<(Tree, nat)>, line: int)
    ensures Pending(stack, line).Some? <==> StackTouches(stack, line)
  {
    if stack != [] {
      PendingTouches(stack[1..], line);
      assert stack == [stack[0]] + stack[1..];
      assert StackTouches(stack, line) <==> Touches(stack[0].0, line) || StackTouches(stack[1..], line);
    }
  }

  /** Visiting the top of the stack leaves every line's outcome as it was. */
  lemma VisitKeepsOutcome(m: map<int, Scope>, m': map<int, Scope>, rest: seq<(Tree, nat)>,
                          t: Tree, depth: nat, line: int)
    requires GoodStack(rest + [(t, depth)]) && IsMarked(m, m', t.kind, depth)
    ensures Outcome(m', rest + Pushed(t.children, ChildDepth(t.kind, depth)), line)
         == Outcome(m, rest + [(t, depth)], line)
  {
    var pushed := Pushed(t.children, ChildDepth(t.kind, depth));
    PendingConcat(rest, [(t, depth)], line);
    PendingConcat(rest, pushed, line);
    PushedIsAll(t.children, ChildDepth(t.kind, depth), line);
    PendingTouches(rest, line);
    PendingOne(t, depth, line);
    if Touches(t, line) {
      forall i | 0 <= i < |rest| ensures !Touches(rest[i].0, line) {
        assert Disjoint((rest + [(t, depth)])[i].0, (rest + [(t, depth)])[|rest|].0);
      }
    }
  }

  lemma VisitKeepsGoodStack(rest: seq<(Tree, nat)>, t: Tree, depth: nat, childDepth: nat)
    requires GoodStack(rest + [(t, depth)])
    ensures GoodStack(rest + Pushed(t.children, childDepth))
  {
    var before, after := rest + [(t, depth)], rest + Pushed(t.children, childDepth);
    assert before[|rest|].0 == t;
    assert forall i | 0 <= i < |rest| :: before[i] == rest[i] == after[i];
    assert forall i | |rest| <= i < |after| :: after[i].0 == t.children[i - |rest|];
    forall i, j | 0 <= i < j < |after| ensures Disjoint(after[i].0, after[j].0) {
      if i < |rest| <= j {
        assert Disjoint(before[i].0, before[|rest|].0);
        assert after[j].0 in t.children;
      } else if j < |rest| {
        assert Disjoint(before[i].0, before[j].0);
      }
    }
  }

  method MarkLines(m: map<int, Scope>, k: Kind, depth: nat) returns (m': map<int, Scope>)
    requires k.Def?
    ensures IsMarked(m, m', k, depth)
  {
    m' := m;
    var next := k.first;
    while next <= k.last
      invariant k.first <= next
      invariant forall line :: Lookup(m', line)
                  == if k.first <= line < next then Some((k.name, depth)) else Lookup(m, line)
      invariant next <= k.last + 1 || next == k.first
    {
      ghost var before := m';
      m' := m'[next := (k.name, depth)];
      assert forall line :: Lookup(m', line) == if line == next then Some((k.name, depth)) else Lookup(before, line);
      next := next + 1;
    }
  }

  /** The stack walk: a node's lines are mapped before its children are pushed. */
  method WalkFunctions(root: Tree) returns (mapping: map<int, Scope>)
    requires WellNested(root)
    ensures forall line :: Lookup(mapping, line) == Inner(root, 0, line)
  {
    mapping := map[];
    var stack := [(root, 0)];
    forall line ensures Outcome(mapping, stack, line) == Inner(root, 0, line) {
      PendingOne(root, 0, line);
    }
    while stack != []
      invariant GoodStack(stack)
      invariant forall line :: Outcome(mapping, stack, line) == Inner(root, 0, line)
      decreases StackSize(stack)
    {
      var rest := stack[..|stack| - 1];
      var (node, depth) := stack[|stack| - 1];
      assert stack == rest + [(node, depth)];
      var childDepth := ChildDepth(node.kind, depth);
      ghost var before := mapping;
      if node.kind.Def? {
        mapping := MarkLines(mapping, node.kind, depth);
      }
      forall line
        ensures Outcome(mapping, rest + Pushed(node.children, childDepth), line) == Inner(root, 0, line)
      {
        VisitKeepsOutcome(before, mapping, rest, node, depth, line);
      }
      VisitKeepsGoodStack(rest, node, depth, childDepth);
      StackSizeConcat(rest, [(node, depth)]);
      StackSizeConcat(rest, Pushed(node.children, childDepth));
      PushedIsAll(node.children, childDepth, 0);
      stack := rest + Pushed(node.children, childDepth);
    }
  }

  /** Every line is given its innermost function and that function's scope depth; a line that
      no function covers is absent. */
  method MapEnclosingFunctions(root: Tree) returns (mapping: map<int, Scope>)
    requires WellNested(root)
    ensures forall line :: line in mapping <==> exists p :: CoversAt(root, p, line)
    ensures forall p, line | IsInnermost(root, p, line) ::
              Lookup(mapping, line) == Some((NodeAt(root, p).kind.name, DepthAt(root, p, 0)))
    ensures forall line | line in mapping :: exists p :: IsInnermost(root, p, line)
  {
    mapping := WalkFunctions(root);
    forall line
      ensures line in mapping <==> exists p :: CoversAt(root, p, line)
      ensures line in mapping ==> exists p :: IsInnermost(root, p, line)
      ensures forall p | IsInnermost(root, p, line) ::
                Lookup(mapping, line) == Some((NodeAt(root, p).kind.name, DepthAt(root, p, 0)))
    {
      assert line in mapping <==> Inner(root, 0, line).Some?;
      forall p | CoversAt(root, p, line) ensures line in mapping {
        CoveringPathTouches(root, p, line);
      }
      if line in mapping {
        var p := InnerIsInnermost(root, 0, line);
      }
      forall p | IsInnermost(root, p, line) {
        InnermostScope(root, p, line);
      }
    }
  }

  // ----- the order in which siblings are visited is immaterial -----

  datatype Record = Record(name: string, depth: nat, first: int, last: int)

  ghost function Records(t: Tree, depth: nat): set<Record> {
    RecordsAll(t.children, ChildDepth(t.kind, depth))
    + if t.kind.Def? then {Record(t.kind.name, depth, t.kind.first, t.kind.last)} else {}
  }

  ghost function RecordsAll(ts: seq<Tree>, depth: nat): set<Record> {
    if ts == [] then {} else Records(ts[0], depth) + RecordsAll(ts[1..], depth)
  }

  /** Among the functions that cover a line, the innermost is the one that is deepest. */
  ghost predicate IsDeepest(rs: set<Record>, s: Scope, line: int) {
    && (exists r | r in rs :: r.first <= line <= r.last && s == (r.name, r.depth))
    && (forall r | r in rs && r.first <= line <= r.last :: r.depth < s.1 || s == (r.name, r.depth))
  }

  lemma {:induction false} RecordTouches(t: Tree, depth: nat, line: int)
    ensures forall r | r in Records(t, depth) && r.first <= line <= r.last :: Touches(t, line)
    ensures forall r | r in Records(t, depth) :: r.depth >= depth
    decreases t, 1
  {
    RecordsTouch(t.children, ChildDepth(t.kind, depth), line);
  }

  lemma {:induction false} RecordsTouch(ts: seq<Tree>, depth: nat, line: int)
    ensures forall r | r in RecordsAll(ts, depth) && r.first <= line <= r.last :: exists t | t in ts :: Touches(t, line)
    ensures forall r | r in RecordsAll(ts, depth) :: r.depth >= depth
    decreases ts, 0
  {
    if ts != [] {
      RecordTouches(ts[0], depth, line);
      RecordsTouch(ts[1..], depth, line);
      forall r | r in RecordsAll(ts, depth) && r.first <= line <= r.last ensures exists t | t in ts :: Touches(t, line) {
        if r in Records(ts[0], depth) {
          assert Touches(ts[0], line);
        } else {
          var t :| t in ts[1..] && Touches(t, line);
          assert t in ts;
        }
      }
    }
  }

  lemma {:induction false} InnerIsDeepest(t: Tree, depth: nat, line: int)
    requires WellNested(t) && Touches(t, line)
    ensures IsDeepest(Records(t, depth), Inner(t, depth, line).value, line)
    decreases t, 1
  {
    var childDepth := ChildDepth(t.kind, depth);
    RecordsTouch(t.children, childDepth, line);
    if exists c | c in t.children :: Touches(c, line) {
      InnerAllIsDeepest(t.children, childDepth, line);
      var s := InnerAll(t.children, childDepth, line).value;
      var r :| r in RecordsAll(t.children, childDepth) && r.first <= line <= r.last && s == (r.name, r.depth);
      assert r in Records(t, depth);
    } else if t.kind.Def? {
      assert Record(t.kind.name, depth, t.kind.first, t.kind.last) in Records(t, depth);
    }
  }

  lemma {:induction false} InnerAllIsDeepest(ts: seq<Tree>, depth: nat, line: int)
    requires forall t | t in ts :: WellNested(t)
    requires forall i, j | 0 <= i < j < |ts| :: Disjoint(ts[i], ts[j])
    requires exists t | t in ts :: Touches(t, line)
    ensures IsDeepest(RecordsAll(ts, depth), InnerAll(ts, depth, line).value, line)
    decreases ts, 0
  {
    RecordTouches(ts[0], depth, line);
    RecordsTouch(ts[1..], depth, line);
    if Touches(ts[0], line) {
      InnerIsDeepest(ts[0], depth, line);
      forall t | t in ts[1..] ensures !Touches(t, line) {
        var j :| 0 <= j < |ts[1..]| && ts[1..][j] == t;
        assert Disjoint(ts[0], ts[j + 1]);
      }
      var s := Inner(ts[0], depth, line).value;
      var r :| r in Records(ts[0], depth) && r.first <= line <= r.last && s == (r.name, r.depth);
      assert r in RecordsAll(ts, depth);
    } else {
      InnerAllIsDeepest(ts[1..], depth, line);
      var s := InnerAll(ts[1..], depth, line).value;
      var r :| r in RecordsAll(ts[1..], depth) && r.first <= line <= r.last && s == (r.name, r.depth);
      assert r in RecordsAll(ts, depth);
    }
  }

  lemma SameRecordsSameMap(t: Tree, u: Tree, line: int)
    requires WellNested(t) && WellNested(u)
    requires Records(t, 0) == Records(u, 0)
    ensures Inner(t, 0, line) == Inner(u, 0, line)
  {
    RecordTouches(t, 0, line);
    RecordTouches(u, 0, line);
    if Touches(t, line) {
      InnerIsDeepest(t, 0, line);
    }
    if Touches(u, line) {
      InnerIsDeepest(u, 0, line);
    }
  }

  /** `p` says where each of `n` places went. */
  ghost predicate IsPermutation(p: seq<nat>, n: nat) {
    && |p| == n
    && (forall i | 0 <= i < n :: p[i] < n)
    && (forall i, j | 0 <= i < j < n :: p[i] != p[j])
    && (forall k: nat | k < n :: k in p)
  }

  lemma CameFrom(p: seq<nat>, k: nat) returns (i: nat)
    requires IsPermutation(p, |p|) && k < |p|
    ensures i < |p| && p[i] == k
  {
    assert k in p;
    i :| i < |p| && p[i] == k;
  }

  /** The same tree, up to the order of siblings anywhere in it. */
  ghost predicate IsReordered(t: Tree, u: Tree) {
    t.kind == u.kind && exists p :: ChildrenMoved(t, u, p)
  }

  ghost predicate ChildrenMoved(t: Tree, u: Tree, p: seq<nat>) {
    && |u.children| == |t.children| && IsPermutation(p, |t.children|)
    && forall i | 0 <= i < |t.children| :: IsReordered(t.children[i], u.children[p[i]])
  }

  lemma {:induction false} RecordsOfChildren(ts: seq<Tree>, depth: nat, r: Record)
    ensures r in RecordsAll(ts, depth) <==> exists i | 0 <= i < |ts| :: r in Records(ts[i], depth)
  {
    if ts != [] {
      RecordsOfChildren(ts[1..], depth, r);
      assert forall i | 0 < i < |ts| :: ts[i] == ts[1..][i - 1];
    }
  }

  lemma {:induction false} ReorderedRecords(t: Tree, u: Tree, depth: nat)
    requires IsReordered(t, u)
    ensures Records(t, depth) == Records(u, depth)
  {
    var p :| ChildrenMoved(t, u, p);
    var d := ChildDepth(t.kind, depth);
    forall i | 0 <= i < |t.children| ensures Records(t.children[i], d) == Records(u.children[p[i]], d) {
      ReorderedRecords(t.children[i], u.children[p[i]], d);
    }
    forall r ensures r in RecordsAll(t.children, d) <==> r in RecordsAll(u.children, d) {
      RecordsOfChildren(t.children, d, r);
      RecordsOfChildren(u.children, d, r);
      forall k: nat | k < |u.children| && r in Records(u.children[k], d)
        ensures exists i | 0 <= i < |t.children| :: r in Records(t.children[i], d)
      {
        var i := CameFrom(p, k);
        assert r in Records(t.children[i], d);
      }
    }
  }

  lemma {:induction false} ReorderedTouches(t: Tree, u: Tree, line: int)
    requires IsReordered(t, u)
    ensures Touches(t, line) <==> Touches(u, line)
  {
    var p :| ChildrenMoved(t, u, p);
    forall c | c in t.children && Touches(c, line) ensures exists c' | c' in u.children :: Touches(c', line) {
      var i :| 0 <= i < |t.children| && t.children[i] == c;
      ReorderedTouches(c, u.children[p[i]], line);
    }
    forall c' | c' in u.children && Touches(c', line) ensures exists c | c in t.children :: Touches(c, line) {
      var k :| 0 <= k < |u.children| && u.children[k] == c';
      var i := CameFrom(p, k);
      ReorderedTouches(t.children[i], c', line);
    }
  }

  lemma {:induction false} ReorderedWellNested(t: Tree, u: Tree)
    requires IsReordered(t, u) && WellNested(t)
    ensures WellNested(u)
  {
    var p :| ChildrenMoved(t, u, p);
    forall i, line | 0 <= i < |t.children|
      ensures Touches(t.children[i], line) <==> Touches(u.children[p[i]], line)
    {
      ReorderedTouches(t.children[i], u.children[p[i]], line);
    }
    forall k: nat | k < |u.children|
      ensures WellNested(u.children[k])
      ensures t.kind.Def? ==> forall line | Touches(u.children[k], line) :: Covers(u.kind, line)
    {
      var i := CameFrom(p, k);
      assert t.children[i] in t.children;
      ReorderedWellNested(t.children[i], u.children[k]);
    }
    forall k, l | 0 <= k < l < |u.children| ensures Disjoint(u.children[k], u.children[l]) {
      var i := CameFrom(p, k);
      var j := CameFrom(p, l);
      assert Disjoint(t.children[if i < j then i else j], t.children[if i < j then j else i]);
    }
  }

  /** Reordering siblings anywhere keeps the nesting and maps every line alike. */
  lemma OrderIsImmaterial(t: Tree, u: Tree, line: int)
    requires WellNested(t) && IsReordered(t, u)
    ensures WellNested(u) && Inner(t, 0, line) == Inner(u, 0, line)
  {
    ReorderedWellNested(t, u);
    ReorderedRecords(t, u, 0);
    SameRecordsSameMap(t, u, line);
  }

  // ----- the exemption keyed on the map -----

  /** A private-surface reference at `line` of `path`: an import in an import-exempt file only at
      module scope, anything else only inside a listed function. */
  predicate IsExempt(isImport: bool, path: string, line: int, enclosing: map<int, Scope>,
                     importOnly: set<string>, functionScoped: set<(string, string)>) {
    if isImport && path in importOnly then line !in enclosing
    else line in enclosing && enclosing[line].1 == 0 && (path, enclosing[line].0) in functionScoped
  }

  /** With the map of the walk, exempt means: an import outside every function, or a line whose
      innermost function is a listed one that no class or function encloses. */
  method CheckExempt(root: Tree, isImport: bool, path: string, line: int,
                     importOnly: set<string>, functionScoped: set<(string, string)>) returns (exempt: bool)
    requires WellNested(root)
    ensures isImport && path in importOnly ==> (exempt <==> forall p :: !CoversAt(root, p, line))
    ensures !(isImport && path in importOnly) ==>
              (exempt <==> exists p :: IsInnermost(root, p, line) && DepthAt(root, p, 0) == 0
                                    && (path, NodeAt(root, p).kind.name) in functionScoped)
  {
    var enclosing := MapEnclosingFunctions(root);
    exempt := IsExempt(isImport, path, line, enclosing, importOnly, functionScoped);
    if line in enclosing {
      ghost var p :| IsInnermost(root, p, line);
      assert forall q | IsInnermost(root, q, line) :: p <= q && q <= p;
    }
  }
}
