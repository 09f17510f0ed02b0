/** Dotted-path get and set on nested dicts that are changed in place. */
module ConfigDocument {
  import opened ConfigTree

  class Dict {
    var entries: map<string, Value<Dict>>

    constructor ()
      ensures entries == map[]
    {
      entries := map[];
    }
  }

  type DictHeap = Heap<Dict, string>

  /** The entries of a document's dicts at this moment. */
  ghost function Contents(dicts: set<Dict>): DictHeap
    reads dicts
  {
    map d | d in dicts :: d.entries
  }

  /** Some parent of the path is a scalar. */
  ghost predicate IsBlocked(h: DictHeap, root: Dict, keys: seq<string>) {
    exists i :: 0 < i < |keys| && Get(h, root, keys[..i]).Scalar?
  }

  method YamlGet(root: Dict, keys: seq<string>, ghost dicts: set<Dict>) returns (v: Value<Dict>)
    requires root in dicts && IsClosed(Contents(dicts))
    ensures v == Get(Contents(dicts), root, keys)
  {
    v := Nested(root);
    for i := 0 to |keys|
      invariant v == Get(Contents(dicts), root, keys[..i])
      invariant v.Nested? ==> v.node in dicts
    {
      assert keys[..i + 1][..i] == keys[..i];
      if !v.Nested? || keys[i] !in v.node.entries {
        AfterNull(Contents(dicts), root, keys, i + 1);
        return Null;
      }
      v := v.node.entries[keys[i]];
    }
    assert keys[..|keys|] == keys;
  }

  /** Nothing is found below a missing key. */
  lemma {:induction false} AfterNull(h: DictHeap, root: Dict, keys: seq<string>, i: nat)
    requires i <= |keys| && Get(h, root, keys[..i]).Null?
    ensures Get(h, root, keys).Null?
    decreases |keys| - i
  {
    if i < |keys| {
      assert keys[..i + 1][..i] == keys[..i];
      AfterNull(h, root, keys, i + 1);
    } else {
      assert keys[..i] == keys;
    }
  }

  /** `h1` differs from `h` at most in what lies on the way along `keys`. */
  ghost predicate DiffersOnlyAlong(h: DictHeap, h1: DictHeap, root: Dict, keys: seq<string>) {
    forall q: seq<string> :: !(q <= keys) ==> Get(h1, root, q) == Get(h, root, q)
  }

  /** What holds after walking `keys`, all parents so far: nothing but new empty parents has been
      added, and as soon as one has been added the walk stands in an empty dict. */
  ghost predicate HasWalked(h: DictHeap, h1: DictHeap, root: Dict, keys: seq<string>, node: Dict) {
    && IsTree(h1, root) && node in h1
    && Get(h1, root, keys) == Nested(node)
    && DiffersOnlyAlong(h, h1, root, keys)
    && (h1 == h || h1[node] == map[])
    && (forall i | 0 < i <= |keys| :: !Get(h, root, keys[..i]).Scalar?)
  }

  lemma NoScalarSoFar(h: DictHeap, root: Dict, keys: seq<string>, k: string)
    requires forall i | 0 < i <= |keys| :: !Get(h, root, keys[..i]).Scalar?
    requires !Get(h, root, keys + [k]).Scalar?
    ensures forall i | 0 < i <= |keys + [k]| :: !Get(h, root, (keys + [k])[..i]).Scalar?
  {
    forall i | 0 < i <= |keys + [k]| ensures !Get(h, root, (keys + [k])[..i]).Scalar? {
      if i <= |keys| {
        assert (keys + [k])[..i] == keys[..i];
      } else {
        assert (keys + [k])[..i] == keys + [k];
      }
    }
  }

  /** The entry under the next key is what the original document had there. */
  lemma NextIsOriginal(h: DictHeap, h1: DictHeap, root: Dict, keys: seq<string>, node: Dict, k: string)
    requires HasWalked(h, h1, root, keys, node)
    ensures Step(h1, Nested(node), k) == Get(h1, root, keys + [k]) == Get(h, root, keys + [k])
  {
    GetNext(h1, root, keys, k);
    assert !(keys + [k] <= keys);
  }

  /** Entering an existing dict: nothing can have been added before. */
  lemma EnteredExisting(h: DictHeap, h1: DictHeap, root: Dict, keys: seq<string>, node: Dict, k: string, next: Dict)
    requires HasWalked(h, h1, root, keys, node) && Step(h1, Nested(node), k) == Nested(next)
    ensures h1 == h && HasWalked(h, h1, root, keys + [k], next)
  {
    NextIsOriginal(h, h1, root, keys, node, k);
    NoScalarSoFar(h, root, keys, k);
  }

  lemma EnteredCreated(h: DictHeap, h1: DictHeap, root: Dict, keys: seq<string>, node: Dict, k: string, next: Dict)
    requires HasWalked(h, h1, root, keys, node) && Step(h1, Nested(node), k).Null? && next !in h1
    ensures HasWalked(h, Attach(h1, node, k, next), root, keys + [k], next)
  {
    var h2 := Attach(h1, node, k, next);
    NextIsOriginal(h, h1, root, keys, node, k);
    NoScalarSoFar(h, root, keys, k);
    AttachKeepsTree(h1, root, node, k, next);
    AttachIsLocal(h1, root, keys, node, k, next, keys + [k]);
    forall q: seq<string> | !(q <= keys + [k]) ensures Get(h2, root, q) == Get(h, root, q) {
      AttachIsLocal(h1, root, keys, node, k, next, q);
      assert q <= keys ==> q <= keys + [k];
    }
  }

  lemma StoppedAtScalar(h: DictHeap, h1: DictHeap, root: Dict, keys: seq<string>, i: nat, node: Dict)
    requires i < |keys| - 1 && HasWalked(h, h1, root, keys[..i], node)
    requires Step(h1, Nested(node), keys[i]).Scalar?
    ensures h1 == h && IsBlocked(h, root, keys)
  {
    NextIsOriginal(h, h1, root, keys[..i], node, keys[i]);
    assert keys[..i] + [keys[i]] == keys[..i + 1];
    assert Get(h, root, keys[..i + 1]).Scalar?;
  }

  /** The lens laws. */
  ghost predicate IsSet(h: DictHeap, h': DictHeap, root: Dict, keys: seq<string>, v: Value<Dict>) {
    && IsTree(h', root)
    && Get(h', root, keys) == v
    && (forall i | 0 <= i < |keys| :: Get(h', root, keys[..i]).Nested?)
    && (forall q: seq<string> :: !(q <= keys) && !(keys <= q) ==> Get(h', root, q) == Get(h, root, q))
  }

  lemma StoredLast(h: DictHeap, h1: DictHeap, root: Dict, parents: seq<string>, node: Dict, k: string, v: Value<Dict>)
    requires HasWalked(h, h1, root, parents, node) && !v.Nested?
    ensures IsSet(h, Put(h1, node, k, v), root, parents + [k], v)
    ensures !IsBlocked(h, root, parents + [k])
  {
    var h', keys := Put(h1, node, k, v), parents + [k];
    PutKeepsTree(h1, root, node, k, v);
    PutIsFound(h1, root, parents, node, k, v);
    PutIsLocal(h1, root, parents, node, k, v, parents);
    forall i | 0 <= i < |keys| ensures Get(h', root, keys[..i]).Nested? && !(i > 0 && Get(h, root, keys[..i]).Scalar?) {
      PrefixIsNested(h', root, parents, i);
      assert keys[..i] == parents[..i];
    }
    forall q: seq<string> | !(q <= keys) && !(keys <= q) ensures Get(h', root, q) == Get(h, root, q) {
      PutIsLocal(h1, root, parents, node, k, v, q);
      assert q <= parents ==> q <= keys;
    }
  }

  /** Walks down, creating parents that are missing or null, and stores the value. A parent that is a
      scalar is an error, and then nothing at all has been changed. `after` is the document's dicts
      afterwards. */
  method YamlSet(root: Dict, keys: seq<string>, v: Value<Dict>, ghost dicts: set<Dict>)
    returns (ok: bool, ghost after: set<Dict>)
    requires |keys| > 0 && IsTree(Contents(dicts), root) && !v.Nested?
    modifies dicts
    ensures dicts <= after && fresh(after - dicts)
    ensures ok <==> !IsBlocked(old(Contents(dicts)), root, keys)
    ensures ok ==> IsSet(old(Contents(dicts)), Contents(after), root, keys, v)
    ensures !ok ==> after == dicts && Contents(dicts) == old(Contents(dicts))
  {
    ghost var h := Contents(dicts);
    var node := root;
    after := dicts;
    for i := 0 to |keys| - 1
      invariant dicts <= after && fresh(after - dicts)
      invariant HasWalked(h, Contents(after), root, keys[..i], node)
    {
      assert keys[..i + 1] == keys[..i] + [keys[i]];
      var existing := if keys[i] in node.entries then node.entries[keys[i]] else Null;
      match existing {
        case Null =>
          ghost var h1 := Contents(after);
          var child := CreateChild(node, keys[i], after);
          EnteredCreated(h, h1, root, keys[..i], node, keys[i], child);
          node, after := child, after + {child};
        case Nested(next) =>
          EnteredExisting(h, Contents(after), root, keys[..i], node, keys[i], next);
          node := next;
        case Scalar(_) =>
          StoppedAtScalar(h, Contents(after), root, keys, i, node);
          return false, dicts;
      }
    }
    ghost var parents := keys[..|keys| - 1];
    assert keys == parents + [keys[|keys| - 1]];
    StoredLast(h, Contents(after), root, parents, node, keys[|keys| - 1], v);
    Store(node, keys[|keys| - 1], v, after);
    ok := true;
  }

  method Store(node: Dict, k: string, v: Value<Dict>, ghost dicts: set<Dict>)
    requires node in dicts
    modifies node
    ensures Contents(dicts) == Put(old(Contents(dicts)), node, k, v)
  {
    node.entries := node.entries[k := v];
  }

  method CreateChild(node: Dict, k: string, ghost dicts: set<Dict>) returns (child: Dict)
    requires node in dicts
    modifies node
    ensures fresh(child)
    ensures Contents(dicts + {child}) == Attach(old(Contents(dicts)), node, k, child)
  {
    child := new Dict();
    node.entries := node.entries[k := Nested(child)];
  }
}
