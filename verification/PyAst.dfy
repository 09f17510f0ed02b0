/** The part of Python's syntax tree that the T3 gate reads. */
module PyAst {
  import opened Wrappers

  /** Expressions. `Opaque` stands for every shape no rule looks inside; its tag keeps
      two different opaque expressions apart. */
  datatype Expr =
    | Name(id: string)
    | Attribute(value: Expr, attr: string)
    | Str(text: string)
    | OtherConstant
    | Add(left: Expr, right: Expr)
    | JoinedStr(values: seq<Expr>)
    | NamedExpr(target: Expr, value: Expr)
    | DictDisplay(items: seq<DictItem>)
    | Call(func: Expr, args: seq<Expr>, keywords: seq<Keyword>)
    | Subscript(value: Expr, slice: Expr)
    | Opaque(tag: nat)

  /** One entry of a dict display; a missing key is a `**` unpacking. */
  datatype DictItem = DictItem(key: Option<Expr>, value: Expr)

  /** One keyword argument; a missing name is a `**` unpacking. */
  datatype Keyword = Keyword(arg: Option<string>, value: Expr)

  /** The nodes of a walk over one file that bind a name. */
  datatype Node =
    | ImportAlias(name: string, asname: Option<string>)
    | Assign(targets: seq<Expr>, value: Expr)
    | AnnAssign(target: Expr, annotated: Option<Expr>)
    | Walrus(target: Expr, value: Expr)
    | TypeAlias(alias: string, value: Expr)
    | OtherNode

  /** The identifier an expression ends in: `T3` and `tiers.T3` are both `T3`. */
  function ArgName(e: Expr): Option<string> {
    match e
    case Name(id) => Some(id)
    case Attribute(_, attr) => Some(attr)
    case _ => None
  }

  /** The value an assignment expression, however nested, binds. */
  function UnwrapWalrus(e: Expr): Expr {
    if e.NamedExpr? then UnwrapWalrus(e.value) else e
  }

  /** The callable of a call, seen through assignment expressions. */
  function Callee(call: Expr): Expr
    requires call.Call?
  {
    UnwrapWalrus(call.func)
  }

  /** The value a binding node binds, where it has one. */
  function BoundValue(n: Node): Option<Expr> {
    match n
    case Assign(_, value) => Some(value)
    case AnnAssign(_, value) => value
    case Walrus(_, value) => Some(value)
    case TypeAlias(_, value) => Some(value)
    case _ => None
  }

  function Targets(n: Node): seq<Expr> {
    match n
    case Assign(targets, _) => targets
    case AnnAssign(target, _) => [target]
    case Walrus(target, _) => [target]
    case TypeAlias(alias, _) => [Name(alias)]
    case _ => []
  }

  /** The names among a node's targets; other targets are not read. */
  function BoundNames(n: Node): set<string> {
    set t | t in Targets(n) && t.Name? :: t.id
  }

  /** Some statement of the file binds the name to the expression, in one of the four shapes:
      `x = e`, `x: T = e`, `(x := e)` or `type x = e`. */
  ghost predicate Binds(file: set<Node>, x: string, e: Expr) {
    || (exists n | n in file :: n.Assign? && n.value == e && Name(x) in n.targets)
    || AnnAssign(Name(x), Some(e)) in file
    || Walrus(Name(x), e) in file
    || TypeAlias(x, e) in file
  }

  lemma BindingNode(file: set<Node>, x: string, e: Expr) returns (n: Node)
    requires Binds(file, x, e)
    ensures n in file && BoundValue(n) == Some(e) && x in BoundNames(n)
  {
    if AnnAssign(Name(x), Some(e)) in file {
      n := AnnAssign(Name(x), Some(e));
    } else if Walrus(Name(x), e) in file {
      n := Walrus(Name(x), e);
    } else if TypeAlias(x, e) in file {
      n := TypeAlias(x, e);
    } else {
      n :| n in file && n.Assign? && n.value == e && Name(x) in n.targets;
    }
    assert Name(x) in Targets(n);
  }

  lemma NodeBinds(file: set<Node>, n: Node, x: string, e: Expr)
    requires n in file && BoundValue(n) == Some(e) && x in BoundNames(n)
    ensures Binds(file, x, e)
  {
  }

  /** The expression is the name, bare or at the end of a qualification. */
  predicate Denotes(e: Expr, name: string) {
    e == Name(name) || (e.Attribute? && e.attr == name)
  }

  lemma ArgNameIsDenoted(e: Expr, name: string)
    ensures ArgName(e) == Some(name) <==> Denotes(e, name)
  {
  }

  /** `(t1 := (t2 := ... e))` */
  function Wrapped(targets: seq<Expr>, e: Expr): Expr {
    if targets == [] then e else NamedExpr(targets[0], Wrapped(targets[1..], e))
  }

  lemma {:induction false} UnwrapWrapped(targets: seq<Expr>, e: Expr)
    requires !e.NamedExpr?
    ensures UnwrapWalrus(Wrapped(targets, e)) == e
  {
    if targets != [] {
      UnwrapWrapped(targets[1..], e);
    }
  }

  lemma {:induction false} WrapUnwrapped(e: Expr) returns (targets: seq<Expr>)
    ensures e == Wrapped(targets, UnwrapWalrus(e)) && !UnwrapWalrus(e).NamedExpr?
  {
    if e.NamedExpr? {
      var inner := WrapUnwrapped(e.value);
      targets := [e.target] + inner;
    } else {
      targets := [];
    }
  }

  /** A call of one of the names, bare or qualified, behind any number of assignment expressions. */
  ghost predicate CallsOneOf(e: Expr, names: set<string>) {
    e.Call? && exists targets, f, name :: e.func == Wrapped(targets, f) && Denotes(f, name) && name in names
  }

  lemma CalleeExactly(e: Expr, names: set<string>)
    requires e.Call?
    ensures CallsOneOf(e, names) <==> ArgName(Callee(e)).Some? && ArgName(Callee(e)).value in names
  {
    if targets, f, name :| e.func == Wrapped(targets, f) && Denotes(f, name) && name in names {
      UnwrapWrapped(targets, f);
    }
    if ArgName(Callee(e)).Some? && ArgName(Callee(e)).value in names {
      var targets := WrapUnwrapped(e.func);
      assert Denotes(Callee(e), ArgName(Callee(e)).value);
    }
  }

  function NodeSet(nodes: seq<Node>): set<Node> {
    set n | n in nodes
  }
}
