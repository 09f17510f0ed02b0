/**
  The per-file tier environment: which names stand for the tagged class, for a tier, or for
  the tagged class already parameterised, and with which verdict.
 */
module TierEnv {
  import opened Wrappers
  import opened PyAst
  import opened Reachability
  import opened AliasResolution
  import opened VerdictMaps

  predicate Named(name: Option<string>, names: set<string>) {
    name.Some? && name.value in names
  }

  /** The name under a slice; a string stands for the identifier it spells. */
  function SliceName(slice: Expr): Option<string> {
    if ArgName(slice).None? && slice.Str? then Some(slice.text) else ArgName(slice)
  }

  function SliceVerdict(slice: Expr, t3: set<string>, benign: set<string>): Verdict {
    if Named(SliceName(slice), t3) then T3
    else if Named(SliceName(slice), benign) then Benign
    else Unresolved
  }

  /** The verdict `base[slice]` gives the names a node binds to it, if `base` is the tagged class. */
  function NodeVerdict(n: Node, tcBare: set<string>, t3: set<string>, benign: set<string>): Option<Verdict> {
    match BoundValue(n)
    case Some(Subscript(base, slice)) =>
      if Named(ArgName(base), tcBare) then Some(SliceVerdict(slice, t3, benign)) else None
    case _ => None
  }

  function FirstKeyword(keywords: seq<Keyword>, arg: string): Option<Expr> {
    if keywords == [] then None
    else if keywords[0].arg == Some(arg) then Some(keywords[0].value)
    else FirstKeyword(keywords[1..], arg)
  }

  /** Generic tier parameters a node declares: PEP 695 aliases and bounded type variables. */
  function TierParameters(n: Node, admitting: set<string>, typeVars: set<string>): set<string> {
    match n
    case TypeAlias(alias, value) => if Named(ArgName(value), admitting) then {alias} else {}
    case Assign(_, value) =>
      if !value.Call? then {}
      else
        var bound := FirstKeyword(value.keywords, "bound");
        if bound.Some? && Named(ArgName(bound.value), admitting) && Named(ArgName(Callee(value)), typeVars)
        then BoundNames(n)
        else {}
    case _ => {}
  }

  // ----- what the environment means, over the set of nodes of a file -----

  ghost function AllTierParameters(file: set<Node>, admitting: set<string>, typeVars: set<string>): set<string> {
    set n, x | n in file && x in TierParameters(n, admitting, typeVars) :: x
  }

  ghost function TcBare(file: set<Node>): set<string> { Resolved(file, "TaggedContent") }

  ghost function T3Names(file: set<Node>): set<string> { Resolved(file, "T3") }

  ghost function BenignTier(file: set<Node>): set<string> {
    Resolved(file, "T0") + Resolved(file, "T1") + Resolved(file, "T2")
    + AllTierParameters(file, Resolved(file, "TrustTier") - T3Names(file), Resolved(file, "TypeVar"))
  }

  /** The contributions of the parameterised bindings themselves, before aliases are followed. */
  ghost function SeedPairs(file: set<Node>, tcBare: set<string>, t3: set<string>, benign: set<string>)
    : set<Pair<string>>
  {
    set n, x | n in file && NodeVerdict(n, tcBare, t3, benign).Some? && x in BoundNames(n) ::
      (x, NodeVerdict(n, tcBare, t3, benign).value)
  }

  ghost function FilePairs(file: set<Node>): set<Pair<string>> {
    SeedPairs(file, TcBare(file), T3Names(file), BenignTier(file))
  }

  ghost function Aliases(file: set<Node>): string -> set<string> {
    s => Resolved(file, s)
  }

  /** `m` gives each name the join of all the subscripts bound to any name it is an alias of. */
  ghost predicate IsTcParam(file: set<Node>, m: map<string, Verdict>) {
    IsJoin(m, FilePairs(file), Aliases(file), TcBare(file))
  }

  ghost predicate SeedOverflows(file: set<Node>, seeds: set<string>) {
    exists s :: s in seeds && Overflows(file, s)
  }

  ghost predicate EnvOverflows(file: set<Node>) {
    || Overflows(file, "TaggedContent") || Overflows(file, "T3")
    || Overflows(file, "T0") || Overflows(file, "T1") || Overflows(file, "T2")
    || Overflows(file, "dict") || Overflows(file, "TrustTier") || Overflows(file, "TypeVar")
    || SeedOverflows(file, Seeds(FilePairs(file)))
  }

  ghost function Seeds(r: set<Pair<string>>): set<string> {
    set c | c in r :: c.0
  }

  datatype Env = Env(
    tcBare: set<string>,
    tcParam: map<string, Verdict>,
    t3: set<string>,
    benignTier: set<string>,
    dictNames: set<string>)

  // ----- the loops -----

  method CollectTierParameters(nodes: seq<Node>, admitting: set<string>, typeVars: set<string>)
    returns (names: set<string>)
    ensures names == AllTierParameters(NodeSet(nodes), admitting, typeVars)
  {
    names := {};
    for i := 0 to |nodes|
      invariant names == AllTierParameters(NodeSet(nodes[..i]), admitting, typeVars)
    {
      assert NodeSet(nodes[..i + 1]) == NodeSet(nodes[..i]) + {nodes[i]};
      names := names + TierParameters(nodes[i], admitting, typeVars);
    }
    assert nodes[..|nodes|] == nodes;
  }

  lemma SeedOne(file: set<Node>, n: Node, tcBare: set<string>, t3: set<string>, benign: set<string>)
    ensures SeedPairs(file + {n}, tcBare, t3, benign) == SeedPairs(file, tcBare, t3, benign)
      + match NodeVerdict(n, tcBare, t3, benign) case Some(v) => Pairs(BoundNames(n), v) case None => {}
  {
  }

  /** Each name bound to a subscript of the tagged class, with the join of its own verdicts. */
  method SeedVerdicts(nodes: seq<Node>, tcBare: set<string>, t3: set<string>, benign: set<string>)
    returns (seeds: map<string, Verdict>)
    ensures Represents(seeds, SeedPairs(NodeSet(nodes), tcBare, t3, benign))
  {
    seeds := map[];
    ghost var r: set<Pair<string>> := {};
    for i := 0 to |nodes|
      invariant r == SeedPairs(NodeSet(nodes[..i]), tcBare, t3, benign)
      invariant Represents(seeds, r)
    {
      assert NodeSet(nodes[..i + 1]) == NodeSet(nodes[..i]) + {nodes[i]};
      SeedOne(NodeSet(nodes[..i]), nodes[i], tcBare, t3, benign);
      match NodeVerdict(nodes[i], tcBare, t3, benign) {
        case Some(v) =>
          seeds := Raise(seeds, BoundNames(nodes[i]), v, r);
          r := r + Pairs(BoundNames(nodes[i]), v);
        case None =>
      }
    }
    assert nodes[..|nodes|] == nodes;
  }

  /** Each seed's verdict goes to every alias of the seed. */
  method FanOut(nodes: seq<Node>, seeds: map<string, Verdict>, ghost aliases: string -> set<string>)
    returns (tcParam: map<string, Verdict>, overflowed: bool)
    requires forall s :: aliases(s) == Resolved(NodeSet(nodes), s)
    ensures Represents(tcParam, Fanned(seeds, aliases, seeds.Keys))
    ensures overflowed <==> SeedOverflows(NodeSet(nodes), seeds.Keys)
  {
    tcParam, overflowed := map[], false;
    var rest := seeds.Keys;
    while rest != {}
      invariant rest <= seeds.Keys
      invariant Represents(tcParam, Fanned(seeds, aliases, seeds.Keys - rest))
      invariant overflowed <==> SeedOverflows(NodeSet(nodes), seeds.Keys - rest)
    {
      var s :| s in rest;
      var resolved, grew := AliasNames(nodes, s);
      tcParam := Raise(tcParam, resolved, seeds[s], Fanned(seeds, aliases, seeds.Keys - rest));
      FanOne(seeds, aliases, seeds.Keys - rest, s);
      assert seeds.Keys - (rest - {s}) == seeds.Keys - rest + {s};
      overflowed := overflowed || grew;
      rest := rest - {s};
    }
    assert seeds.Keys - rest == seeds.Keys;
  }

  method TcParam(nodes: seq<Node>, tcBare: set<string>, t3: set<string>, benign: set<string>)
    returns (tcParam: map<string, Verdict>, overflowed: bool)
    ensures IsJoin(tcParam, SeedPairs(NodeSet(nodes), tcBare, t3, benign), Aliases(NodeSet(nodes)), tcBare)
    ensures overflowed <==> SeedOverflows(NodeSet(nodes), Seeds(SeedPairs(NodeSet(nodes), tcBare, t3, benign)))
  {
    ghost var aliases := Aliases(NodeSet(nodes));
    ghost var pairs := SeedPairs(NodeSet(nodes), tcBare, t3, benign);
    var seeds := SeedVerdicts(nodes, tcBare, t3, benign);
    var fanned, grew := FanOut(nodes, seeds, aliases);
    tcParam := Raise(fanned, fanned.Keys * tcBare, Unresolved, Fanned(seeds, aliases, seeds.Keys));
    overflowed := grew;
    RaisedIsJoin(tcParam, pairs, seeds, aliases, fanned, tcBare);
    SeedsAreKeys(seeds, pairs);
  }

  lemma SeedsAreKeys(seeds: map<string, Verdict>, r: set<Pair<string>>)
    requires Represents(seeds, r)
    ensures seeds.Keys == Seeds(r)
  {
    forall c | c in r ensures c.0 in seeds {
      assert c.1 in At(r, c.0);
    }
  }

  /** The environment of a file. Every component is a function of the set of its nodes. */
  method TierAliasEnv(nodes: seq<Node>) returns (env: Env, overflowed: bool)
    ensures env.tcBare == TcBare(NodeSet(nodes))
    ensures env.t3 == T3Names(NodeSet(nodes))
    ensures env.benignTier == BenignTier(NodeSet(nodes))
    ensures env.dictNames == Resolved(NodeSet(nodes), "dict")
    ensures IsTcParam(NodeSet(nodes), env.tcParam)
    ensures overflowed <==> EnvOverflows(NodeSet(nodes))
  {
    var tcBare, o1 := AliasNames(nodes, "TaggedContent");
    var t3, o2 := AliasNames(nodes, "T3");
    var b0, o3 := AliasNames(nodes, "T0");
    var b1, o4 := AliasNames(nodes, "T1");
    var b2, o5 := AliasNames(nodes, "T2");
    var dictNames, o6 := AliasNames(nodes, "dict");
    var trust, o7 := AliasNames(nodes, "TrustTier");
    var typeVars, o8 := AliasNames(nodes, "TypeVar");
    var generic := CollectTierParameters(nodes, trust - t3, typeVars);
    var benign := b0 + b1 + b2 + generic;
    var tcParam, o9 := TcParam(nodes, tcBare, t3, benign);
    env := Env(tcBare, tcParam, t3, benign, dictNames);
    overflowed := o1 || o2 || o3 || o4 || o5 || o6 || o7 || o8 || o9;
  }

  // ----- what a reader of the environment may rely on -----

  /** Without overflow, a verdict reaches every alias of the name it was bound to, however long the chain. */
  lemma ReachingIsReachability(file: set<Node>, x: string, v: Verdict)
    requires !EnvOverflows(file)
    ensures v in Reaching(FilePairs(file), Aliases(file), x)
       <==> exists s :: (s, v) in FilePairs(file) && Reachable(Edges(file), Roots(file, s), x)
  {
    var r := FilePairs(file);
    forall s | (s, v) in r
      ensures x in Resolved(file, s) <==> Reachable(Edges(file), Roots(file, s), x)
    {
      assert s in Seeds(r);
      NoOverflowIsLeastFixedPoint(file, s);
    }
  }

  /** A quoted tier is read like a bare or a qualified one. */
  lemma QuotedLikeBare(name: string, qualifier: Expr, t3: set<string>, benign: set<string>)
    ensures SliceVerdict(Str(name), t3, benign) == SliceVerdict(Name(name), t3, benign)
         == SliceVerdict(Attribute(qualifier, name), t3, benign)
  {
  }

  /** Binding a T3 subscript of the tagged class to a name, in any of the four statement shapes and
      whether the class and the tier are written bare, qualified or quoted, marks the name as T3. */
  lemma T3BindingIsSeen(file: set<Node>, m: map<string, Verdict>, x: string, base: Expr, slice: Expr)
    requires IsTcParam(file, m) && Binds(file, x, Subscript(base, slice))
    requires ArgName(base) == Some("TaggedContent")
    requires slice == Str("T3") || ArgName(slice) == Some("T3")
    ensures x in m && m[x] == T3
  {
    DirectAliasIsResolved(file, "TaggedContent", "TaggedContent");
    DirectAliasIsResolved(file, "T3", "T3");
    DirectAliasIsResolved(file, x, x);
    T3BindingIsPaired(file, x, base, slice, TcBare(file), T3Names(file), BenignTier(file));
    T3PairIsSeen(m, FilePairs(file), Aliases(file), TcBare(file), x);
  }

  lemma T3BindingIsPaired(file: set<Node>, x: string, base: Expr, slice: Expr,
                          tcBare: set<string>, t3: set<string>, benign: set<string>)
    requires Binds(file, x, Subscript(base, slice)) && Named(ArgName(base), tcBare) && Named(SliceName(slice), t3)
    ensures (x, T3) in SeedPairs(file, tcBare, t3, benign)
  {
    var n := BindingNode(file, x, Subscript(base, slice));
    assert NodeVerdict(n, tcBare, t3, benign) == Some(T3);
  }

  /** With `TrustTier = T3` in scope, a generic tier declared from `TrustTier` is T3, not benign. */
  lemma ReboundTrustTierIsT3(file: set<Node>, m: map<string, Verdict>, tier: string, x: string, base: Expr, slice: Expr)
    requires Binds(file, "TrustTier", Name("T3")) && Binds(file, tier, Name("TrustTier"))
    requires IsTcParam(file, m) && Binds(file, x, Subscript(base, slice))
    requires ArgName(base) == Some("TaggedContent") && SliceName(slice) == Some(tier)
    ensures x in m && m[x] == T3
  {
    ChainOfTwo(file, "T3", "TrustTier", tier);
    DirectAliasIsResolved(file, "TaggedContent", "TaggedContent");
    DirectAliasIsResolved(file, x, x);
    T3BindingIsPaired(file, x, base, slice, TcBare(file), T3Names(file), BenignTier(file));
    T3PairIsSeen(m, FilePairs(file), Aliases(file), TcBare(file), x);
  }

  lemma ChainOfTwo(file: set<Node>, seed: string, middle: string, x: string)
    requires Binds(file, middle, Name(seed)) && Binds(file, x, Name(middle))
    ensures x in Resolved(file, seed)
  {
    var n := BindingNode(file, middle, Name(seed));
    var n' := BindingNode(file, x, Name(middle));
    assert (middle, seed) in NameBindings(n) && (x, middle) in NameBindings(n');
    assert IsChain(Edges(file), Roots(file, seed), [seed, middle, x]);
  }

  /** The first keyword argument of this name denotes `b`. */
  ghost predicate KeywordDenotes(keywords: seq<Keyword>, arg: string, b: string) {
    exists i | 0 <= i < |keywords| ::
      && keywords[i].arg == Some(arg) && Denotes(keywords[i].value, b)
      && forall j | 0 <= j < i :: keywords[j].arg != Some(arg)
  }

  lemma {:induction false} FirstKeywordExactly(keywords: seq<Keyword>, arg: string, b: string)
    ensures KeywordDenotes(keywords, arg, b)
       <==> FirstKeyword(keywords, arg).Some? && ArgName(FirstKeyword(keywords, arg).value) == Some(b)
  {
    if keywords != [] {
      var rest := keywords[1..];
      FirstKeywordExactly(rest, arg, b);
      if keywords[0].arg == Some(arg) {
        ArgNameIsDenoted(keywords[0].value, b);
      } else {
        KeywordFurtherOn(keywords, arg, b);
      }
    }
  }

  lemma KeywordFurtherOn(keywords: seq<Keyword>, arg: string, b: string)
    requires keywords != [] && keywords[0].arg != Some(arg)
    ensures KeywordDenotes(keywords, arg, b) <==> KeywordDenotes(keywords[1..], arg, b)
  {
    var rest := keywords[1..];
    assert forall i | 0 <= i < |rest| :: rest[i] == keywords[i + 1];
    if i :| 0 <= i < |keywords| && keywords[i].arg == Some(arg) && Denotes(keywords[i].value, b)
            && forall j | 0 <= j < i :: keywords[j].arg != Some(arg) {
      assert rest[i - 1] == keywords[i];
    }
    if i :| 0 <= i < |rest| && rest[i].arg == Some(arg) && Denotes(rest[i].value, b)
            && forall j | 0 <= j < i :: rest[j].arg != Some(arg) {
      assert keywords[i + 1] == rest[i];
      assert forall j | 0 < j < i + 1 :: keywords[j] == rest[j - 1];
    }
  }

  /** `n` declares `x` as `TypeVar(..., bound=b)`, under any name of `TypeVar`, the bound bare or qualified. */
  ghost predicate DeclaresTypeVariable(n: Node, x: string, typeVars: set<string>, b: string) {
    && n.Assign? && Name(x) in n.targets && n.value.Call?
    && CallsOneOf(n.value, typeVars) && KeywordDenotes(n.value.keywords, "bound", b)
  }

  /** `n` is `type x = b`, or declares `x` as a type variable with bound `b`. */
  ghost predicate DeclaresTier(n: Node, x: string, typeVars: set<string>, b: string) {
    || (n.TypeAlias? && n.alias == x && Denotes(n.value, b))
    || DeclaresTypeVariable(n, x, typeVars, b)
  }

  lemma TierParametersExactly(n: Node, admitting: set<string>, typeVars: set<string>, x: string)
    ensures x in TierParameters(n, admitting, typeVars)
       <==> exists b :: b in admitting && DeclaresTier(n, x, typeVars, b)
  {
    if n.TypeAlias? {
      forall b ensures ArgName(n.value) == Some(b) <==> Denotes(n.value, b) {
        ArgNameIsDenoted(n.value, b);
      }
    } else if n.Assign? && n.value.Call? {
      CalleeExactly(n.value, typeVars);
      var keywords := n.value.keywords;
      forall b
        ensures KeywordDenotes(keywords, "bound", b)
           <==> FirstKeyword(keywords, "bound").Some? && ArgName(FirstKeyword(keywords, "bound").value) == Some(b)
      {
        FirstKeywordExactly(keywords, "bound", b);
      }
      assert x in BoundNames(n) <==> Name(x) in n.targets;
    }
  }

  /** The benign tiers of a file: the names of T0, T1 and T2, and what the file declares from a name of the
      trust tier that is no name of T3. */
  lemma BenignTierExactly(file: set<Node>, x: string)
    ensures x in BenignTier(file)
       <==> || x in Resolved(file, "T0") || x in Resolved(file, "T1") || x in Resolved(file, "T2")
            || exists n, b :: && n in file && DeclaresTier(n, x, Resolved(file, "TypeVar"), b)
                              && b in Resolved(file, "TrustTier") && b !in T3Names(file)
  {
    var admitting, typeVars := Resolved(file, "TrustTier") - T3Names(file), Resolved(file, "TypeVar");
    forall n | n in file
      ensures x in TierParameters(n, admitting, typeVars)
         <==> exists b :: b in admitting && DeclaresTier(n, x, typeVars, b)
    {
      TierParametersExactly(n, admitting, typeVars, x);
    }
  }

  /** The verdict on a slice that is a type variable, declared once: benign exactly when its bound is the
      trust tier under some name and that name is no name of T3; unresolved otherwise, but never T3. */
  lemma TypeVariableVerdict(file: set<Node>, n: Node, x: string, b: string)
    requires n in file && DeclaresTypeVariable(n, x, Resolved(file, "TypeVar"), b)
    requires forall o | o in file && x in BoundNames(o) :: o == n
    requires forall o | o in file && o.ImportAlias? :: o.asname != Some(x)
    requires x !in {"T0", "T1", "T2", "T3"}
    ensures SliceVerdict(Name(x), T3Names(file), BenignTier(file))
         == if b in Resolved(file, "TrustTier") && b !in T3Names(file) then Benign else Unresolved
  {
    assert IsNoAlias(file, x);
    NoAliasIsNotResolved(file, "T0", x);
    NoAliasIsNotResolved(file, "T1", x);
    NoAliasIsNotResolved(file, "T2", x);
    NoAliasIsNotResolved(file, "T3", x);
    SoleDeclaration(file, n, x, b, Resolved(file, "TrustTier") - T3Names(file), Resolved(file, "TypeVar"));
  }

  lemma SoleDeclaration(file: set<Node>, n: Node, x: string, b: string, admitting: set<string>, typeVars: set<string>)
    requires n in file && DeclaresTypeVariable(n, x, typeVars, b)
    requires forall o | o in file && x in BoundNames(o) :: o == n
    ensures x in AllTierParameters(file, admitting, typeVars) <==> b in admitting
  {
    assert x in BoundNames(n);
    FirstKeywordExactly(n.value.keywords, "bound", b);
    CalleeExactly(n.value, typeVars);
    assert x in TierParameters(n, admitting, typeVars) <==> b in admitting;
    forall o | o in file && x in TierParameters(o, admitting, typeVars) ensures o == n {
      assert o.TypeAlias? ==> Name(x) in Targets(o);
    }
  }

  // ----- the parameterised map, read off the statements of the file -----

  /** The slice names `t`, bare, qualified or quoted. */
  predicate Spells(slice: Expr, t: string) {
    slice == Str(t) || Denotes(slice, t)
  }

  ghost predicate SliceIsT3(file: set<Node>, slice: Expr) {
    exists t :: Spells(slice, t) && t in T3Names(file)
  }

  ghost predicate SliceIsBenign(file: set<Node>, slice: Expr) {
    exists t :: Spells(slice, t) && t in BenignTier(file) && t !in T3Names(file)
  }

  /** Some statement binds `s` to the tagged class, under any of its names, over this slice. */
  ghost predicate BindsTagged(file: set<Node>, s: string, slice: Expr) {
    BindsOver(file, s, slice, TcBare(file))
  }

  ghost predicate BindsOver(file: set<Node>, s: string, slice: Expr, classes: set<string>) {
    exists base, c :: Denotes(base, c) && c in classes && Binds(file, s, Subscript(base, slice))
  }

  /** The name stands for one that is bound to the tagged class over this slice. */
  ghost predicate Carries(file: set<Node>, x: string, slice: Expr) {
    exists s :: BindsTagged(file, s, slice) && x in Resolved(file, s)
  }

  lemma SliceVerdictExactly(file: set<Node>, slice: Expr)
    ensures
      var v := SliceVerdict(slice, T3Names(file), BenignTier(file));
      (v == T3 <==> SliceIsT3(file, slice)) && (v == Benign <==> SliceIsBenign(file, slice))
  {
    forall t ensures SliceName(slice) == Some(t) <==> Spells(slice, t) {
      ArgNameIsDenoted(slice, t);
    }
  }

  lemma PairIsBound(file: set<Node>, s: string, v: Verdict, tcBare: set<string>, t3: set<string>, benign: set<string>)
    returns (slice: Expr)
    requires (s, v) in SeedPairs(file, tcBare, t3, benign)
    ensures BindsOver(file, s, slice, tcBare) && SliceVerdict(slice, t3, benign) == v
  {
    var n :| n in file && NodeVerdict(n, tcBare, t3, benign) == Some(v) && s in BoundNames(n);
    var e := BoundValue(n).value;
    NodeBinds(file, n, s, e);
    slice := e.slice;
    assert Denotes(e.value, ArgName(e.value).value);
  }

  lemma BoundIsPair(file: set<Node>, s: string, slice: Expr, tcBare: set<string>, t3: set<string>, benign: set<string>)
    requires BindsOver(file, s, slice, tcBare)
    ensures (s, SliceVerdict(slice, t3, benign)) in SeedPairs(file, tcBare, t3, benign)
  {
    var base, c :| Denotes(base, c) && c in tcBare && Binds(file, s, Subscript(base, slice));
    var n := BindingNode(file, s, Subscript(base, slice));
    assert NodeVerdict(n, tcBare, t3, benign) == Some(SliceVerdict(slice, t3, benign));
  }

  lemma PairExactly(file: set<Node>, s: string, v: Verdict)
    ensures (s, v) in FilePairs(file)
       <==> exists slice :: BindsTagged(file, s, slice) && SliceVerdict(slice, T3Names(file), BenignTier(file)) == v
  {
    if (s, v) in FilePairs(file) {
      var slice := PairIsBound(file, s, v, TcBare(file), T3Names(file), BenignTier(file));
      assert BindsTagged(file, s, slice);
    }
    if slice :| BindsTagged(file, s, slice) && SliceVerdict(slice, T3Names(file), BenignTier(file)) == v {
      BoundIsPair(file, s, slice, TcBare(file), T3Names(file), BenignTier(file));
    }
  }

  lemma ReachingExactly(file: set<Node>, x: string, v: Verdict)
    ensures v in Reaching(FilePairs(file), Aliases(file), x)
       <==> exists slice :: Carries(file, x, slice) && SliceVerdict(slice, T3Names(file), BenignTier(file)) == v
  {
    if v in Reaching(FilePairs(file), Aliases(file), x) {
      var c :| c in FilePairs(file) && x in Aliases(file)(c.0) && c.1 == v;
      PairExactly(file, c.0, v);
      var slice :| BindsTagged(file, c.0, slice) && SliceVerdict(slice, T3Names(file), BenignTier(file)) == v;
      assert Carries(file, x, slice);
    }
    if slice :| Carries(file, x, slice) && SliceVerdict(slice, T3Names(file), BenignTier(file)) == v {
      var s :| BindsTagged(file, s, slice) && x in Resolved(file, s);
      PairExactly(file, s, v);
      assert (s, v) in FilePairs(file) && x in Aliases(file)(s);
    }
  }

  lemma CarriedIsInMap(file: set<Node>, m: map<string, Verdict>, x: string)
    requires IsTcParam(file, m)
    ensures x in m <==> exists slice :: Carries(file, x, slice)
  {
    if x in m {
      var v :| v in Reaching(FilePairs(file), Aliases(file), x);
      ReachingExactly(file, x, v);
    }
    if slice :| Carries(file, x, slice) {
      ReachingExactly(file, x, SliceVerdict(slice, T3Names(file), BenignTier(file)));
    }
  }

  lemma CarriedT3(file: set<Node>, x: string)
    ensures T3 in Reaching(FilePairs(file), Aliases(file), x)
       <==> exists slice :: Carries(file, x, slice) && SliceIsT3(file, slice)
  {
    ReachingExactly(file, x, T3);
    if slice :| Carries(file, x, slice) && SliceVerdict(slice, T3Names(file), BenignTier(file)) == T3 {
      SliceVerdictExactly(file, slice);
    }
    if slice :| Carries(file, x, slice) && SliceIsT3(file, slice) {
      SliceVerdictExactly(file, slice);
    }
  }

  lemma CarriedBenign(file: set<Node>, x: string)
    ensures (forall v | v in Reaching(FilePairs(file), Aliases(file), x) :: v == Benign)
       <==> forall slice :: Carries(file, x, slice) ==> SliceIsBenign(file, slice)
  {
    if v :| v in Reaching(FilePairs(file), Aliases(file), x) && v != Benign {
      ReachingExactly(file, x, v);
      var slice :| Carries(file, x, slice) && SliceVerdict(slice, T3Names(file), BenignTier(file)) == v;
      SliceVerdictExactly(file, slice);
    }
    if slice :| Carries(file, x, slice) && !SliceIsBenign(file, slice) {
      SliceVerdictExactly(file, slice);
      ReachingExactly(file, x, SliceVerdict(slice, T3Names(file), BenignTier(file)));
    }
  }

  /** The parameterised map without any of the functions that compute it. A name is in it exactly when it
      stands for one that is bound to the tagged class over some slice. It is T3 exactly when one of these
      slices names T3. It is benign exactly when it does not also stand for the bare class and every one of
      these slices can be read and names a benign tier. */
  lemma TcParamExactly(file: set<Node>, m: map<string, Verdict>, x: string)
    requires IsTcParam(file, m)
    ensures x in m <==> exists slice :: Carries(file, x, slice)
    ensures x in m ==> (m[x] == T3 <==> exists slice :: Carries(file, x, slice) && SliceIsT3(file, slice))
    ensures x in m ==>
              (m[x] == Benign
               <==> x !in TcBare(file) && forall slice :: Carries(file, x, slice) ==> SliceIsBenign(file, slice))
  {
    CarriedIsInMap(file, m, x);
    if x in m {
      BenignMeansAllBenign(m, FilePairs(file), Aliases(file), TcBare(file), x);
      AllOneVerdict(Reaching(FilePairs(file), Aliases(file), x));
      CarriedT3(file, x);
      CarriedBenign(file, x);
    }
  }

  lemma AllOneVerdict(vs: set<Verdict>)
    requires vs != {}
    ensures vs == {Benign} <==> forall v | v in vs :: v == Benign
  {
    if forall v | v in vs :: v == Benign {
      var v :| v in vs;
      assert vs == {Benign};
    }
  }

  /** A slice that is neither a name nor a quoted one is never taken for benign. */
  lemma UnreadableSliceIsNotBenign(file: set<Node>, m: map<string, Verdict>, x: string, base: Expr, slice: Expr)
    requires IsTcParam(file, m) && Binds(file, x, Subscript(base, slice)) && Denotes(base, "TaggedContent")
    requires !slice.Name? && !slice.Attribute? && !slice.Str?
    ensures x in m && m[x] != Benign
  {
    DirectAliasIsResolved(file, "TaggedContent", "TaggedContent");
    DirectAliasIsResolved(file, x, x);
    assert BindsTagged(file, x, slice);
    NotBenign(file, m, x, slice);
  }

  lemma NotBenign(file: set<Node>, m: map<string, Verdict>, x: string, slice: Expr)
    requires IsTcParam(file, m) && BindsTagged(file, x, slice) && x in Resolved(file, x)
    requires forall t :: !Spells(slice, t)
    ensures x in m && m[x] != Benign
  {
    assert Carries(file, x, slice);
    TcParamExactly(file, m, x);
  }

  /** The names whose aliases the environment resolves. */
  ghost predicate IsSeed(file: set<Node>, s: string) {
    || s in {"TaggedContent", "T0", "T1", "T2", "T3", "dict", "TrustTier", "TypeVar"}
    || exists slice :: BindsTagged(file, s, slice)
  }

  /** The flag: some name stands for one of these seeds only through 32 or more bindings. */
  lemma EnvOverflowsExactly(file: set<Node>)
    ensures EnvOverflows(file) <==> exists s, x :: IsSeed(file, s) && IsFar(file, s, x)
  {
    forall s ensures Overflows(file, s) <==> exists x :: IsFar(file, s, x) {
      OverflowsExactly(file, s);
    }
    forall s ensures s in Seeds(FilePairs(file)) <==> exists slice :: BindsTagged(file, s, slice) {
      SeedExactly(file, s);
    }
    if s, x :| IsSeed(file, s) && IsFar(file, s, x) {
      assert Overflows(file, s);
    }
  }

  lemma SeedExactly(file: set<Node>, s: string)
    ensures s in Seeds(FilePairs(file)) <==> exists slice :: BindsTagged(file, s, slice)
  {
    if s in Seeds(FilePairs(file)) {
      var c :| c in FilePairs(file) && c.0 == s;
      PairExactly(file, s, c.1);
    }
    if slice :| BindsTagged(file, s, slice) {
      PairExactly(file, s, SliceVerdict(slice, T3Names(file), BenignTier(file)));
      assert (s, SliceVerdict(slice, T3Names(file), BenignTier(file))) in FilePairs(file);
    }
  }

  /** A binding of the tagged class whose slice names T3 stays one when nodes are added. */
  lemma T3PairsGrow(file: set<Node>, more: set<Node>, s: string)
    requires file <= more && (s, T3) in FilePairs(file)
    ensures (s, T3) in FilePairs(more)
  {
    ResolvedMonotone(file, more, "TaggedContent");
    ResolvedMonotone(file, more, "T3");
    T3SeedPairsGrow(file, more, s, TcBare(file), TcBare(more), T3Names(file), T3Names(more),
                    BenignTier(file), BenignTier(more));
  }

  lemma T3SeedPairsGrow(file: set<Node>, more: set<Node>, s: string, tcBare: set<string>, tcBare': set<string>,
                        t3: set<string>, t3': set<string>, benign: set<string>, benign': set<string>)
    requires file <= more && tcBare <= tcBare' && t3 <= t3'
    requires (s, T3) in SeedPairs(file, tcBare, t3, benign)
    ensures (s, T3) in SeedPairs(more, tcBare', t3', benign')
  {
    var n :| n in file && NodeVerdict(n, tcBare, t3, benign) == Some(T3) && s in BoundNames(n);
    assert NodeVerdict(n, tcBare', t3', benign') == Some(T3);
  }

  /** Adding nodes to a file never lowers a T3 verdict, even when chains overflow. */
  lemma T3IsNeverLost(file: set<Node>, more: set<Node>, m: map<string, Verdict>, m': map<string, Verdict>, x: string)
    requires file <= more && IsTcParam(file, m) && IsTcParam(more, m')
    requires x in m && m[x] == T3
    ensures x in m' && m'[x] == T3
  {
    BenignMeansAllBenign(m, FilePairs(file), Aliases(file), TcBare(file), x);
    var c :| c in FilePairs(file) && x in Aliases(file)(c.0) && c.1 == T3;
    T3PairsGrow(file, more, c.0);
    ResolvedMonotone(file, more, c.0);
    assert c in FilePairs(more) && x in Aliases(more)(c.0);
    assert T3 in Reaching(FilePairs(more), Aliases(more), x);
    BenignMeansAllBenign(m', FilePairs(more), Aliases(more), TcBare(more), x);
  }
}
