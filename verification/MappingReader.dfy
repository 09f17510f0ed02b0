/**
  The gate's reader of mapping expressions: does this expression build a mapping that can
  have a "tier" key? Keys are read by a depth-bounded constant folder, operands that cannot
  be read are refused.
 */
module MappingReader {
  import opened Wrappers
  import opened PyAst

  const MAX_DEPTH: nat := 32

  const TIER := "tier"

  // ----- the constant folder -----

  function Concat(a: Option<string>, b: Option<string>): Option<string> {
    if a.Some? && b.Some? then Some(a.value + b.value) else None
  }

  function FoldStr(e: Expr, depth: nat): Option<string> {
    if depth > MAX_DEPTH then None
    else
      match e
      case Str(text) => Some(text)
      case Add(left, right) => Concat(FoldStr(left, depth + 1), FoldStr(right, depth + 1))
      case JoinedStr(values) => FoldAll(values, depth + 1)
      case _ => None
  }

  function FoldAll(values: seq<Expr>, depth: nat): Option<string> {
    if values == [] then Some("")
    else Concat(FoldStr(values[0], depth), FoldAll(values[1..], depth))
  }

  // ----- the mapping reader -----

  predicate IsDictCall(e: Expr, dictNames: set<string>) {
    e.Call? && ArgName(Callee(e)).Some? && ArgName(Callee(e)).value in dictNames
  }

  predicate IsReadable(e: Expr, dictNames: set<string>) {
    e.DictDisplay? || IsDictCall(e, dictNames)
  }

  predicate MentionsTier(e: Expr, dictNames: set<string>, depth: nat) {
    || depth > MAX_DEPTH
    || match e
       case DictDisplay(items) => ItemsMention(items, dictNames, depth)
       case Call(_, args, keywords) =>
         && IsDictCall(e, dictNames)
         && ((exists k | k in keywords :: k.arg == Some(TIER) || k.arg == None)
             || ArgsMention(args, dictNames, depth))
       case _ => false
  }

  predicate ItemsMention(items: seq<DictItem>, dictNames: set<string>, depth: nat) {
    if items == [] then false
    else ItemMentions(items[0], dictNames, depth) || ItemsMention(items[1..], dictNames, depth)
  }

  predicate ItemMentions(item: DictItem, dictNames: set<string>, depth: nat) {
    match item.key
    case None => MentionsTier(item.value, dictNames, depth + 1) || !IsReadable(item.value, dictNames)
    case Some(key) => FoldStr(key, 0) == Some(TIER)
  }

  predicate ArgsMention(args: seq<Expr>, dictNames: set<string>, depth: nat) {
    if args == [] then false
    else
      || MentionsTier(args[0], dictNames, depth + 1)
      || !IsReadable(args[0], dictNames)
      || ArgsMention(args[1..], dictNames, depth)
  }

  // ----- what expressions evaluate to -----

  /** What the expressions the gate cannot see into evaluate to: a string, or string keys. */
  datatype World = World(text: Expr -> Option<string>, keys: Expr -> set<string>)

  /** Built from constants alone. */
  predicate IsFixed(e: Expr) {
    match e
    case Str(_) => true
    case OtherConstant => true
    case Add(left, right) => IsFixed(left) && IsFixed(right)
    case JoinedStr(values) => forall v | v in values :: IsFixed(v)
    case _ => false
  }

  /** The string an expression evaluates to, `None` if it is not a string. A sum that is not of two
      strings is whatever its operands make of it, unless both are constants. */
  function Text(e: Expr, w: World): Option<string> {
    match e
    case Str(text) => Some(text)
    case OtherConstant => None
    case Add(left, right) =>
      var both := Concat(Text(left, w), Text(right, w));
      if both.Some? || IsFixed(e) then both else w.text(e)
    case JoinedStr(values) => JoinedText(values, w)
    case _ => w.text(e)
  }

  function JoinedText(values: seq<Expr>, w: World): Option<string> {
    if values == [] then Some("") else Concat(Text(values[0], w), JoinedText(values[1..], w))
  }

  /** The string keys of the mapping an expression evaluates to. Calling a bare name bound to
      `dict` builds a dict; any other call returns whatever the world says. */
  function Keys(e: Expr, dictNames: set<string>, w: World): set<string> {
    match e
    case DictDisplay(items) => ItemKeys(items, dictNames, w)
    case Call(_, args, keywords) =>
      if IsDictCall(e, dictNames) && Callee(e).Name?
      then ArgKeys(args, dictNames, w) + KeywordKeys(keywords, dictNames, w)
      else w.keys(e)
    case _ => w.keys(e)
  }

  function ItemKeys(items: seq<DictItem>, dictNames: set<string>, w: World): set<string> {
    if items == [] then {} else ItemKey(items[0], dictNames, w) + ItemKeys(items[1..], dictNames, w)
  }

  function ItemKey(item: DictItem, dictNames: set<string>, w: World): set<string> {
    match item.key
    case None => Keys(item.value, dictNames, w)
    case Some(key) => var t := Text(key, w); if t.Some? then {t.value} else {}
  }

  function ArgKeys(args: seq<Expr>, dictNames: set<string>, w: World): set<string> {
    if args == [] then {} else Keys(args[0], dictNames, w) + ArgKeys(args[1..], dictNames, w)
  }

  function KeywordKeys(keywords: seq<Keyword>, dictNames: set<string>, w: World): set<string> {
    if keywords == [] then {} else KeywordKey(keywords[0], dictNames, w) + KeywordKeys(keywords[1..], dictNames, w)
  }

  function KeywordKey(keyword: Keyword, dictNames: set<string>, w: World): set<string> {
    match keyword.arg
    case None => Keys(keyword.value, dictNames, w)
    case Some(name) => {name}
  }

  // ----- the folder folds exactly the literals nested at most 32 deep, to their value -----

  predicate IsLiteral(e: Expr) {
    match e
    case Str(_) => true
    case Add(left, right) => IsLiteral(left) && IsLiteral(right)
    case JoinedStr(values) => forall v | v in values :: IsLiteral(v)
    case _ => false
  }

  function Nesting(e: Expr): nat {
    match e
    case Add(left, right) =>
      1 + if Nesting(left) > Nesting(right) then Nesting(left) else Nesting(right)
    case JoinedStr(values) => NestingAll(values)
    case _ => 0
  }

  /** Zero for no parts, otherwise one more than the deepest part. */
  function NestingAll(values: seq<Expr>): nat {
    if values == [] then 0
    else
      var first, rest := 1 + Nesting(values[0]), NestingAll(values[1..]);
      if first > rest then first else rest
  }

  lemma {:induction false} FoldIsExact(e: Expr, depth: nat, w: World)
    ensures FoldStr(e, depth).Some? <==> IsLiteral(e) && depth + Nesting(e) <= 32
    ensures FoldStr(e, depth).Some? ==> FoldStr(e, depth) == Text(e, w)
    decreases e, 1
  {
    match e
    case Add(left, right) =>
      FoldIsExact(left, depth + 1, w);
      FoldIsExact(right, depth + 1, w);
    case JoinedStr(values) =>
      FoldAllIsExact(values, depth, w);
    case _ =>
  }

  lemma {:induction false} FoldAllIsExact(values: seq<Expr>, depth: nat, w: World)
    ensures FoldAll(values, depth + 1).Some?
       <==> (forall v | v in values :: IsLiteral(v)) && (values == [] || depth + NestingAll(values) <= MAX_DEPTH)
    ensures FoldAll(values, depth + 1).Some? ==> FoldAll(values, depth + 1) == JoinedText(values, w)
    decreases values, 0
  {
    if values != [] {
      FoldIsExact(values[0], depth + 1, w);
      FoldAllIsExact(values[1..], depth, w);
      assert forall v :: v in values <==> v == values[0] || v in values[1..];
    }
  }

  // ----- an admitted mapping has no "tier" key exactly if it is harmless -----

  const NOTHING := World(_ => None, _ => {})

  /** A key of constants is judged by what it spells; anything else may turn out to be "tier". */
  predicate KeyIsHarmless(key: Expr) {
    IsFixed(key) && Text(key, NOTHING) != Some(TIER)
  }

  /** Along the readable part of `e`, explicit keys are harmless and dict calls go through a bare name. */
  predicate IsHarmless(e: Expr, dictNames: set<string>) {
    match e
    case DictDisplay(items) =>
      forall i | i in items :: ItemIsHarmless(i, dictNames)
    case Call(_, args, _) =>
      IsDictCall(e, dictNames) ==> Callee(e).Name? && forall a | a in args :: IsHarmless(a, dictNames)
    case _ => true
  }

  predicate ItemIsHarmless(item: DictItem, dictNames: set<string>) {
    match item.key
    case None => IsHarmless(item.value, dictNames)
    case Some(key) => KeyIsHarmless(key)
  }

  /** Along the readable part of `e`, no explicit key is an f-string with something to format. */
  predicate FormatsNoKey(e: Expr, dictNames: set<string>) {
    match e
    case DictDisplay(items) =>
      forall i | i in items :: ItemFormatsNoKey(i, dictNames)
    case Call(_, args, _) =>
      IsDictCall(e, dictNames) ==> forall a | a in args :: FormatsNoKey(a, dictNames)
    case _ => true
  }

  predicate ItemFormatsNoKey(item: DictItem, dictNames: set<string>) {
    match item.key
    case None => FormatsNoKey(item.value, dictNames)
    case Some(key) => key.JoinedStr? ==> IsFixed(key)
  }

  /** Of an admitted mapping whose keys are not formatted, harmlessness is exactly what keeps "tier" out. */
  lemma AdmittedIsSafe(e: Expr, dictNames: set<string>, depth: nat)
    requires IsReadable(e, dictNames) && FormatsNoKey(e, dictNames)
    requires !MentionsTier(e, dictNames, depth)
    ensures (forall w: World :: TIER !in Keys(e, dictNames, w)) <==> IsHarmless(e, dictNames)
  {
    if IsHarmless(e, dictNames) {
      forall w: World ensures TIER !in Keys(e, dictNames, w) {
        AdmittedHasNoTier(e, dictNames, depth, w);
      }
    } else {
      var w := HarmfulWorld(e, dictNames);
      assert TIER in Keys(e, dictNames, w);
    }
  }

  lemma {:induction false} AdmittedHasNoTier(e: Expr, dictNames: set<string>, depth: nat, w: World)
    requires IsReadable(e, dictNames) && IsHarmless(e, dictNames)
    requires !MentionsTier(e, dictNames, depth)
    ensures TIER !in Keys(e, dictNames, w)
    decreases e, 1
  {
    match e
    case DictDisplay(items) => AdmittedItems(items, dictNames, depth, w);
    case Call(_, args, keywords) =>
      AdmittedArgs(args, dictNames, depth, w);
      NamedKeywords(keywords, dictNames, w);
  }

  lemma {:induction false} AdmittedItems(items: seq<DictItem>, dictNames: set<string>, depth: nat, w: World)
    requires forall i | i in items :: ItemIsHarmless(i, dictNames)
    requires !ItemsMention(items, dictNames, depth)
    ensures TIER !in ItemKeys(items, dictNames, w)
    decreases items, 0
  {
    if items != [] {
      AdmittedItem(items[0], dictNames, depth, w);
      AdmittedItems(items[1..], dictNames, depth, w);
    }
  }

  lemma {:induction false} AdmittedItem(item: DictItem, dictNames: set<string>, depth: nat, w: World)
    requires ItemIsHarmless(item, dictNames)
    requires !ItemMentions(item, dictNames, depth)
    ensures TIER !in ItemKey(item, dictNames, w)
    decreases item, 0
  {
    match item.key
    case Some(key) => FixedText(key, NOTHING, w);
    case None => AdmittedHasNoTier(item.value, dictNames, depth + 1, w);
  }

  lemma {:induction false} AdmittedArgs(args: seq<Expr>, dictNames: set<string>, depth: nat, w: World)
    requires forall a | a in args :: IsHarmless(a, dictNames)
    requires !ArgsMention(args, dictNames, depth)
    ensures TIER !in ArgKeys(args, dictNames, w)
    decreases args, 0
  {
    if args != [] {
      AdmittedHasNoTier(args[0], dictNames, depth + 1, w);
      AdmittedArgs(args[1..], dictNames, depth, w);
    }
  }

  /** No world changes what constants spell. */
  lemma {:induction false} FixedText(e: Expr, v: World, w: World)
    requires IsFixed(e)
    ensures Text(e, v) == Text(e, w)
  {
    match e
    case Add(left, right) =>
      FixedText(left, v, w);
      FixedText(right, v, w);
    case JoinedStr(values) => FixedJoined(values, v, w);
    case _ =>
  }

  lemma {:induction false} FixedJoined(values: seq<Expr>, v: World, w: World)
    requires forall x | x in values :: IsFixed(x)
    ensures JoinedText(values, v) == JoinedText(values, w)
  {
    if values != [] {
      FixedText(values[0], v, w);
      FixedJoined(values[1..], v, w);
    }
  }

  /** A world in which `key`, and nothing else that is opaque, is a string, namely "tier". */
  function Naming(key: Expr): World {
    World(x => if x == key then Some(TIER) else None, _ => {})
  }

  function Size(e: Expr): nat {
    match e
    case Add(left, right) => 1 + Size(left) + Size(right)
    case JoinedStr(values) => 1 + SizeAll(values)
    case _ => 0
  }

  function SizeAll(values: seq<Expr>): nat {
    if values == [] then 0 else Size(values[0]) + SizeAll(values[1..])
  }

  lemma {:induction false} SmallerHasNoText(e: Expr, key: Expr)
    requires !IsFixed(e) && Size(e) < Size(key)
    ensures Text(e, Naming(key)) == None
  {
    match e
    case Add(left, right) =>
      if !IsFixed(left) {
        SmallerHasNoText(left, key);
      } else {
        SmallerHasNoText(right, key);
      }
    case JoinedStr(values) => SmallerPartHasNoText(values, key);
    case _ =>
  }

  lemma {:induction false} SmallerPartHasNoText(values: seq<Expr>, key: Expr)
    requires (exists v | v in values :: !IsFixed(v)) && SizeAll(values) < Size(key)
    ensures JoinedText(values, Naming(key)) == None
  {
    if !IsFixed(values[0]) {
      SmallerHasNoText(values[0], key);
    } else {
      assert exists v | v in values[1..] :: !IsFixed(v);
      SmallerPartHasNoText(values[1..], key);
    }
  }

  lemma HarmfulKey(key: Expr) returns (w: World)
    requires !KeyIsHarmless(key) && (key.JoinedStr? ==> IsFixed(key))
    ensures Text(key, w) == Some(TIER)
  {
    if IsFixed(key) {
      w := NOTHING;
    } else {
      w := Naming(key);
      if key.Add? {
        if !IsFixed(key.left) {
          SmallerHasNoText(key.left, key);
        } else {
          SmallerHasNoText(key.right, key);
        }
      }
    }
  }

  lemma {:induction false} HarmfulWorld(e: Expr, dictNames: set<string>) returns (w: World)
    requires !IsHarmless(e, dictNames) && FormatsNoKey(e, dictNames)
    ensures TIER in Keys(e, dictNames, w)
    decreases e, 1
  {
    match e
    case DictDisplay(items) => w := HarmfulItems(items, dictNames);
    case Call(_, args, _) =>
      if Callee(e).Name? {
        w := HarmfulArgs(args, dictNames);
      } else {
        w := World(_ => None, _ => {TIER});
      }
  }

  lemma {:induction false} HarmfulItems(items: seq<DictItem>, dictNames: set<string>) returns (w: World)
    requires exists i | i in items :: !ItemIsHarmless(i, dictNames)
    requires forall i | i in items :: ItemFormatsNoKey(i, dictNames)
    ensures TIER in ItemKeys(items, dictNames, w)
    decreases items, 0
  {
    if !ItemIsHarmless(items[0], dictNames) {
      w := HarmfulItem(items[0], dictNames);
    } else {
      assert exists i | i in items[1..] :: !ItemIsHarmless(i, dictNames);
      w := HarmfulItems(items[1..], dictNames);
    }
  }

  lemma {:induction false} HarmfulItem(item: DictItem, dictNames: set<string>) returns (w: World)
    requires !ItemIsHarmless(item, dictNames) && ItemFormatsNoKey(item, dictNames)
    ensures TIER in ItemKey(item, dictNames, w)
    decreases item, 0
  {
    match item.key
    case Some(key) => w := HarmfulKey(key);
    case None => w := HarmfulWorld(item.value, dictNames);
  }

  lemma {:induction false} HarmfulArgs(args: seq<Expr>, dictNames: set<string>) returns (w: World)
    requires exists a | a in args :: !IsHarmless(a, dictNames)
    requires forall a | a in args :: FormatsNoKey(a, dictNames)
    ensures TIER in ArgKeys(args, dictNames, w)
    decreases args, 0
  {
    if !IsHarmless(args[0], dictNames) {
      w := HarmfulWorld(args[0], dictNames);
    } else {
      assert exists a | a in args[1..] :: !IsHarmless(a, dictNames);
      w := HarmfulArgs(args[1..], dictNames);
    }
  }

  lemma {:induction false} NamedKeywords(keywords: seq<Keyword>, dictNames: set<string>, w: World)
    requires forall k | k in keywords :: k.arg.Some?
    ensures TIER in KeywordKeys(keywords, dictNames, w) <==> exists k | k in keywords :: k.arg == Some(TIER)
  {
    if keywords != [] {
      NamedKeywords(keywords[1..], dictNames, w);
      assert forall k :: k in keywords <==> k == keywords[0] || k in keywords[1..];
    }
  }

  // ----- without opaque operands and within the depth bound the answer is exact -----

  /** Along the readable part of `e`, explicit keys fold or are harmless and dict calls go through a bare
      name. */
  predicate ReadsFaithfully(e: Expr, dictNames: set<string>) {
    match e
    case DictDisplay(items) =>
      forall i | i in items :: ItemReadsFaithfully(i, dictNames)
    case Call(_, args, _) =>
      IsDictCall(e, dictNames) ==> Callee(e).Name? && forall a | a in args :: ReadsFaithfully(a, dictNames)
    case _ => true
  }

  predicate ItemReadsFaithfully(item: DictItem, dictNames: set<string>) {
    match item.key
    case None => ReadsFaithfully(item.value, dictNames)
    case Some(key) => FoldStr(key, 0).Some? || KeyIsHarmless(key)
  }

  /** Every operand is itself readable, and no call unpacks keywords. */
  predicate IsTransparent(e: Expr, dictNames: set<string>) {
    && IsReadable(e, dictNames)
    && match e
       case DictDisplay(items) =>
         forall i | i in items :: ItemIsTransparent(i, dictNames)
       case Call(_, args, keywords) =>
         && (forall a | a in args :: IsTransparent(a, dictNames))
         && (forall k | k in keywords :: k.arg.Some?)
       case _ => true
  }

  predicate ItemIsTransparent(item: DictItem, dictNames: set<string>) {
    item.key.None? ==> IsTransparent(item.value, dictNames)
  }

  function MappingDepth(e: Expr): nat {
    match e
    case DictDisplay(items) => ItemsDepth(items)
    case Call(_, args, _) => ArgsDepth(args)
    case _ => 0
  }

  function ItemsDepth(items: seq<DictItem>): nat {
    if items == [] then 0
    else
      var first := ItemDepth(items[0]);
      if first > ItemsDepth(items[1..]) then first else ItemsDepth(items[1..])
  }

  function ItemDepth(item: DictItem): nat {
    if item.key.None? then 1 + MappingDepth(item.value) else 0
  }

  function ArgsDepth(args: seq<Expr>): nat {
    if args == [] then 0
    else
      var first := 1 + MappingDepth(args[0]);
      if first > ArgsDepth(args[1..]) then first else ArgsDepth(args[1..])
  }

  lemma {:induction false} TransparentIsExact(e: Expr, dictNames: set<string>, depth: nat, w: World)
    requires IsTransparent(e, dictNames) && ReadsFaithfully(e, dictNames)
    requires depth + MappingDepth(e) <= MAX_DEPTH
    ensures MentionsTier(e, dictNames, depth) <==> TIER in Keys(e, dictNames, w)
    decreases e, 1
  {
    match e
    case DictDisplay(items) => TransparentItems(items, dictNames, depth, w);
    case Call(_, args, keywords) =>
      TransparentArgs(args, dictNames, depth, w);
      NamedKeywords(keywords, dictNames, w);
  }

  lemma {:induction false} TransparentItems(items: seq<DictItem>, dictNames: set<string>, depth: nat, w: World)
    requires forall i | i in items :: ItemIsTransparent(i, dictNames) && ItemReadsFaithfully(i, dictNames)
    requires depth + ItemsDepth(items) <= MAX_DEPTH
    ensures ItemsMention(items, dictNames, depth) <==> TIER in ItemKeys(items, dictNames, w)
    decreases items, 0
  {
    if items != [] {
      TransparentItem(items[0], dictNames, depth, w);
      TransparentItems(items[1..], dictNames, depth, w);
    }
  }

  lemma {:induction false} TransparentItem(item: DictItem, dictNames: set<string>, depth: nat, w: World)
    requires ItemIsTransparent(item, dictNames) && ItemReadsFaithfully(item, dictNames)
    requires depth + ItemDepth(item) <= MAX_DEPTH
    ensures ItemMentions(item, dictNames, depth) <==> TIER in ItemKey(item, dictNames, w)
    decreases item, 0
  {
    match item.key
    case Some(key) =>
      FoldIsExact(key, 0, w);
      if KeyIsHarmless(key) {
        FixedText(key, NOTHING, w);
      }
    case None => TransparentIsExact(item.value, dictNames, depth + 1, w);
  }

  lemma {:induction false} TransparentArgs(args: seq<Expr>, dictNames: set<string>, depth: nat, w: World)
    requires forall a | a in args :: IsTransparent(a, dictNames) && ReadsFaithfully(a, dictNames)
    requires depth + ArgsDepth(args) <= MAX_DEPTH
    ensures ArgsMention(args, dictNames, depth) <==> TIER in ArgKeys(args, dictNames, w)
    decreases args, 0
  {
    if args != [] {
      TransparentIsExact(args[0], dictNames, depth + 1, w);
      TransparentArgs(args[1..], dictNames, depth, w);
    }
  }

  /** Being admitted means that every operand could be read, no keywords are unpacked and no level is too
      deep: whatever the gate cannot read it refuses. */
  lemma {:induction false} AdmittedIsTransparent(e: Expr, dictNames: set<string>, depth: nat)
    requires IsReadable(e, dictNames) && !MentionsTier(e, dictNames, depth)
    ensures IsTransparent(e, dictNames) && depth + MappingDepth(e) <= MAX_DEPTH
    decreases e, 1
  {
    match e
    case DictDisplay(items) => AdmittedItemsAreTransparent(items, dictNames, depth);
    case Call(_, args, _) => AdmittedArgsAreTransparent(args, dictNames, depth);
  }

  lemma {:induction false} AdmittedItemsAreTransparent(items: seq<DictItem>, dictNames: set<string>, depth: nat)
    requires depth <= MAX_DEPTH && !ItemsMention(items, dictNames, depth)
    ensures (forall i | i in items :: ItemIsTransparent(i, dictNames)) && depth + ItemsDepth(items) <= MAX_DEPTH
    decreases items, 0
  {
    if items != [] {
      AdmittedItemIsTransparent(items[0], dictNames, depth);
      AdmittedItemsAreTransparent(items[1..], dictNames, depth);
      assert forall i :: i in items <==> i == items[0] || i in items[1..];
    }
  }

  lemma {:induction false} AdmittedItemIsTransparent(item: DictItem, dictNames: set<string>, depth: nat)
    requires depth <= MAX_DEPTH && !ItemMentions(item, dictNames, depth)
    ensures ItemIsTransparent(item, dictNames) && depth + ItemDepth(item) <= MAX_DEPTH
    decreases item, 0
  {
    if item.key.None? {
      AdmittedIsTransparent(item.value, dictNames, depth + 1);
    }
  }

  lemma {:induction false} AdmittedArgsAreTransparent(args: seq<Expr>, dictNames: set<string>, depth: nat)
    requires depth <= MAX_DEPTH && !ArgsMention(args, dictNames, depth)
    ensures (forall a | a in args :: IsTransparent(a, dictNames)) && depth + ArgsDepth(args) <= MAX_DEPTH
    decreases args, 0
  {
    if args != [] {
      AdmittedIsTransparent(args[0], dictNames, depth + 1);
      AdmittedArgsAreTransparent(args[1..], dictNames, depth);
      assert forall a :: a in args <==> a == args[0] || a in args[1..];
    }
  }

  /** The whole answer on a readable mapping: refused exactly when something in it cannot be read, it is
      nested too deep, or it has a "tier" key. */
  lemma MentionsExactly(e: Expr, dictNames: set<string>, depth: nat, w: World)
    requires IsReadable(e, dictNames) && ReadsFaithfully(e, dictNames)
    ensures MentionsTier(e, dictNames, depth)
       <==> !IsTransparent(e, dictNames) || depth + MappingDepth(e) > 32 || "tier" in Keys(e, dictNames, w)
  {
    if IsTransparent(e, dictNames) && depth + MappingDepth(e) <= MAX_DEPTH {
      TransparentIsExact(e, dictNames, depth, w);
    } else if !MentionsTier(e, dictNames, depth) {
      AdmittedIsTransparent(e, dictNames, depth);
    }
  }

  // ----- which expressions are read as mappings -----

  /** A dict display, or a call of any name of `dict`, bare or qualified and behind any assignment
      expressions; nothing else is looked into. */
  lemma ReadableExactly(e: Expr, dictNames: set<string>, depth: nat)
    ensures IsReadable(e, dictNames) <==> e.DictDisplay? || CallsOneOf(e, dictNames)
    ensures !e.DictDisplay? && !CallsOneOf(e, dictNames) ==> (MentionsTier(e, dictNames, depth) <==> depth > MAX_DEPTH)
  {
    if e.Call? {
      CalleeExactly(e, dictNames);
    }
  }

  /** A call of any name of `dict` is refused if it sets or unpacks a keyword that may be "tier", or has an
      operand that is no readable mapping. */
  lemma DictCallIsRead(d: string, targets: seq<Expr>, args: seq<Expr>, keywords: seq<Keyword>,
                       dictNames: set<string>, depth: nat)
    requires d in dictNames
    ensures
      var e := Call(Wrapped(targets, Name(d)), args, keywords);
      && IsReadable(e, dictNames)
      && ((exists k | k in keywords :: k.arg == Some("tier") || k.arg == None) ==> MentionsTier(e, dictNames, depth))
      && ((exists a | a in args :: !a.DictDisplay? && !CallsOneOf(a, dictNames)) ==> MentionsTier(e, dictNames, depth))
  {
    var e := Call(Wrapped(targets, Name(d)), args, keywords);
    UnwrapWrapped(targets, Name(d));
    assert IsDictCall(e, dictNames);
    if a :| a in args && !a.DictDisplay? && !CallsOneOf(a, dictNames) {
      ReadableExactly(a, dictNames, depth);
      UnreadableArg(args, a, dictNames, depth);
    }
  }

  lemma {:induction false} UnreadableArg(args: seq<Expr>, a: Expr, dictNames: set<string>, depth: nat)
    requires a in args && !IsReadable(a, dictNames)
    ensures ArgsMention(args, dictNames, depth)
  {
    if a != args[0] {
      UnreadableArg(args[1..], a, dictNames, depth);
    }
  }

  /** Neither half of harmlessness follows from being admitted: a key that is a variable, and a method
      that happens to be called `dict`, are admitted and can each yield a "tier" key. */
  lemma AdmittedButHarmful(dictNames: set<string>)
    requires "dict" in dictNames
    ensures !MentionsTier(UnfoldableKey(), dictNames, 0) && !IsHarmless(UnfoldableKey(), dictNames)
    ensures !MentionsTier(MethodCalledDict(), dictNames, 0) && !IsHarmless(MethodCalledDict(), dictNames)
    ensures exists w: World :: TIER in Keys(UnfoldableKey(), dictNames, w)
    ensures exists w: World :: TIER in Keys(MethodCalledDict(), dictNames, w)
  {
    var items := UnfoldableKey().items;
    assert items[0] in items && !ItemIsHarmless(items[0], dictNames) && items[1..] == [];
    assert !ItemMentions(items[0], dictNames, 0);
    assert !ItemsMention(items, dictNames, 0);
    assert Callee(MethodCalledDict()) == MethodCalledDict().func;
    AdmittedIsSafe(UnfoldableKey(), dictNames, 0);
    AdmittedIsSafe(MethodCalledDict(), dictNames, 0);
  }

  /** `{key: ...}` with `key` a variable. */
  function UnfoldableKey(): Expr {
    DictDisplay([DictItem(Some(Name("key")), OtherConstant)])
  }

  /** `model.dict()` */
  function MethodCalledDict(): Expr {
    Call(Attribute(Name("model"), "dict"), [], [])
  }
}
