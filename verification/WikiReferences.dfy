/**
  The wiki validator's reference check: every page's parent exists and no parent chain is a cycle.
  Later pages overwrite earlier ones of the same title.
 */
module WikiReferences {
  import opened Wrappers

  /** An entry of `pages`: ignored if it is no object or has no usable title. A parent that is not a
      string is no parent. */
  datatype Page = Ignored | Titled(title: string, parent: Option<string>)

  datatype Problem = Dangling | Cycle

  /** Errors name the page by its position, never by its title. */
  datatype Error = Error(page: nat, problem: Problem)

  type Parents = map<string, Option<string>>

  // ----- chains -----

  /** `title_to_parent.get` */
  function ParentOf(parents: Parents, title: string): Option<string> {
    if title in parents then parents[title] else None
  }

  /** The `n`-th title up the chain, `None` once the chain has ended. */
  ghost function Ancestor(parents: Parents, title: string, n: nat): Option<string> {
    if n == 0 then Some(title)
    else
      match Ancestor(parents, title, n - 1)
      case None => None
      case Some(below) => ParentOf(parents, below)
  }

  ghost predicate IsEndless(parents: Parents, title: string) {
    forall n: nat :: Ancestor(parents, title, n).Some?
  }

  /** The chain comes back to a title it has already passed. */
  ghost predicate EntersCycle(parents: Parents, title: string) {
    exists i: nat, n: nat ::
      i < n && Ancestor(parents, title, i).Some? && Ancestor(parents, title, i) == Ancestor(parents, title, n)
  }

  /** The chain reaches an existing page that has no parent. */
  ghost predicate ReachesRoot(parents: Parents, title: string) {
    exists n: nat :: IsRootAt(parents, title, n)
  }

  ghost predicate IsRootAt(parents: Parents, title: string, n: nat) {
    var top := Ancestor(parents, title, n);
    top.Some? && top.value in parents && parents[top.value].None?
  }

  ghost function ProblemOf(parents: Parents, title: string): Option<Problem>
    requires title in parents
  {
    if parents[title].None? then None
    else if parents[title].value !in parents then Some(Dangling)
    else if EntersCycle(parents, title) then Some(Cycle)
    else None
  }

  lemma {:induction false} AncestorFrom(parents: Parents, title: string, n: nat, k: nat)
    requires Ancestor(parents, title, n).Some?
    ensures Ancestor(parents, title, n + k) == Ancestor(parents, Ancestor(parents, title, n).value, k)
  {
    if k > 0 {
      AncestorFrom(parents, title, n, k - 1);
    }
  }

  lemma {:induction false} EndedStaysEnded(parents: Parents, title: string, n: nat, m: nat)
    requires n <= m && Ancestor(parents, title, n).None?
    ensures Ancestor(parents, title, m).None?
  {
    if n < m {
      EndedStaysEnded(parents, title, n, m - 1);
    }
  }

  /** A chain that comes back to a title it has passed goes round for ever. */
  lemma {:induction false} RevisitNeverEnds(parents: Parents, title: string, i: nat, n: nat, m: nat)
    requires i < n && Ancestor(parents, title, i).Some?
    requires Ancestor(parents, title, i) == Ancestor(parents, title, n)
    ensures Ancestor(parents, title, m).Some?
  {
    if m <= n {
      if Ancestor(parents, title, m).None? {
        EndedStaysEnded(parents, title, m, n);
      }
    } else {
      AncestorFrom(parents, title, n, m - n);
      AncestorFrom(parents, title, i, m - n);
      RevisitNeverEnds(parents, title, i, n, i + (m - n));
    }
  }

  /** There are finitely many titles, so a chain that never ends comes back to one. */
  lemma EndlessIsCycle(parents: Parents, title: string)
    ensures IsEndless(parents, title) <==> EntersCycle(parents, title)
  {
    if IsEndless(parents, title) {
      var i, n := Repeat(parents, title);
    }
    if EntersCycle(parents, title) {
      var i: nat, n: nat :|
        i < n && Ancestor(parents, title, i).Some? && Ancestor(parents, title, i) == Ancestor(parents, title, n);
      forall m: nat ensures Ancestor(parents, title, m).Some? {
        RevisitNeverEnds(parents, title, i, n, m);
      }
    }
  }

  /** The title is among the first `n` of the chain. */
  ghost predicate Passed(parents: Parents, title: string, n: nat, t: string) {
    exists i: nat :: i < n && Ancestor(parents, title, i) == Some(t)
  }

  lemma Repeat(parents: Parents, title: string) returns (i: nat, n: nat)
    requires IsEndless(parents, title)
    ensures i < n && Ancestor(parents, title, i) == Ancestor(parents, title, n)
  {
    n := 0;
    var seen: set<string> := {};
    while Ancestor(parents, title, n).value !in seen
      invariant seen <= parents.Keys
      invariant forall t | t in seen :: Passed(parents, title, n, t)
      decreases parents.Keys - seen
    {
      var here := Ancestor(parents, title, n).value;
      assert Ancestor(parents, title, n + 1).Some?;
      assert Ancestor(parents, title, n) == Some(here);
      forall t | t in seen ensures Passed(parents, title, n + 1, t) {
        var k: nat :| k < n && Ancestor(parents, title, k) == Some(t);
      }
      assert Passed(parents, title, n + 1, here);
      seen := seen + {here};
      n := n + 1;
    }
    i :| i < n && Ancestor(parents, title, i) == Some(Ancestor(parents, title, n).value);
  }

  // ----- the walk -----

  ghost function Titles(parents: Parents): set<string> {
    parents.Keys + set t | t in parents && parents[t].Some? :: parents[t].value
  }

  /** The ancestor walk: a growing set of titles seen and a moving cursor. */
  method FindsCycle(parents: Parents, title: string) returns (cycle: bool)
    requires title in parents
    ensures cycle <==> IsEndless(parents, title)
    ensures cycle <==> EntersCycle(parents, title)
  {
    EndlessIsCycle(parents, title);
    var seen: set<string> := {};
    var cursor := Some(title);
    ghost var n: nat := 0;
    while cursor.Some?
      invariant cursor == Ancestor(parents, title, n)
      invariant seen <= Titles(parents)
      invariant forall t | t in seen :: Passed(parents, title, n, t)
      invariant cursor.Some? ==> cursor.value in Titles(parents)
      decreases Titles(parents) - seen
    {
      if cursor.value in seen {
        return true;
      }
      assert Ancestor(parents, title, n) == Some(cursor.value);
      seen := seen + {cursor.value};
      cursor := ParentOf(parents, cursor.value);
      n := n + 1;
    }
    return false;
  }

  // ----- the check -----

  /** The titles in the order in which they first appear. */
  function Order(pages: seq<Page>): seq<string> {
    if pages == [] then []
    else
      var before, p := Order(pages[..|pages| - 1]), pages[|pages| - 1];
      if p.Titled? && p.title !in before then before + [p.title] else before
  }

  /** The parent of each title ... */
  function ParentMap(pages: seq<Page>): (m: Parents)
    ensures forall t :: t in m <==> t in Order(pages)
  {
    if pages == [] then map[]
    else
      var before, p := ParentMap(pages[..|pages| - 1]), pages[|pages| - 1];
      if p.Titled? then before[p.title := p.parent] else before
  }

  /** ... and its position. */
  function IndexMap(pages: seq<Page>): (m: map<string, nat>)
    ensures forall t :: t in m <==> t in Order(pages)
  {
    if pages == [] then map[]
    else
      var before, p := IndexMap(pages[..|pages| - 1]), pages[|pages| - 1];
      if p.Titled? then before[p.title := |pages| - 1] else before
  }

  ghost function Report(titles: seq<string>, parents: Parents, index: map<string, nat>): seq<Error>
    requires forall t | t in titles :: t in parents && t in index
  {
    if titles == [] then []
    else
      var before, t := titles[..|titles| - 1], titles[|titles| - 1];
      Report(before, parents, index)
      + match ProblemOf(parents, t) case None => [] case Some(problem) => [Error(index[t], problem)]
  }

  ghost predicate HasPage(pages: seq<Page>, title: string) {
    exists p | p in pages :: p.Titled? && p.title == title
  }

  /** No later page has the title of this one. */
  ghost predicate IsLast(pages: seq<Page>, i: nat) {
    && i < |pages| && pages[i].Titled?
    && forall j | i < j < |pages| :: !(pages[j].Titled? && pages[j].title == pages[i].title)
  }

  /** The last page of a title decides its parent and its position. */
  lemma {:induction false} LastWins(pages: seq<Page>, i: nat)
    requires IsLast(pages, i)
    ensures pages[i].title in ParentMap(pages) && ParentMap(pages)[pages[i].title] == pages[i].parent
    ensures pages[i].title in IndexMap(pages) && IndexMap(pages)[pages[i].title] == i
  {
    if i < |pages| - 1 {
      assert pages[|pages| - 1].Titled? ==> pages[|pages| - 1].title != pages[i].title;
      LastWins(pages[..|pages| - 1], i);
    }
  }

  /** Every title that some page has, and no other, is checked; one of its pages is the last. */
  lemma {:induction false} TitlesAreThePages(pages: seq<Page>, title: string)
    ensures title in Order(pages) <==> HasPage(pages, title)
    ensures title in Order(pages) ==> exists i: nat :: IsLast(pages, i) && pages[i].title == title
  {
    if pages != [] {
      var before, p := pages[..|pages| - 1], pages[|pages| - 1];
      TitlesAreThePages(before, title);
      assert pages == before + [p];
      assert forall q :: q in pages <==> q in before || q == p;
      if p.Titled? && p.title == title {
        assert IsLast(pages, |pages| - 1);
      } else if title in Order(before) {
        var i: nat :| IsLast(before, i) && before[i].title == title;
        assert IsLast(pages, i);
      }
    }
  }

  /** The first loop fills the two dicts. */
  method CollectPages(pages: seq<Page>) returns (order: seq<string>, index: map<string, nat>, parents: Parents)
    ensures order == Order(pages) && index == IndexMap(pages) && parents == ParentMap(pages)
    ensures forall t :: t in parents <==> HasPage(pages, t)
    ensures forall i: nat | IsLast(pages, i) ::
              && pages[i].title in index && index[pages[i].title] == i
              && pages[i].title in parents && parents[pages[i].title] == pages[i].parent
  {
    order, index, parents := [], map[], map[];
    for i := 0 to |pages|
      invariant order == Order(pages[..i]) && index == IndexMap(pages[..i]) && parents == ParentMap(pages[..i])
    {
      assert pages[..i + 1][..i] == pages[..i];
      match pages[i] {
        case Ignored =>
        case Titled(title, parent) =>
          if title !in order { order := order + [title]; }
          index := index[title := i];
          parents := parents[title := parent];
      }
    }
    assert pages[..|pages|] == pages;
    forall t ensures t in parents <==> HasPage(pages, t) {
      TitlesAreThePages(pages, t);
    }
    forall i: nat | IsLast(pages, i)
      ensures
        && pages[i].title in index && index[pages[i].title] == i
        && pages[i].title in parents && parents[pages[i].title] == pages[i].parent
    {
      LastWins(pages, i);
    }
  }

  /** What the second loop finds for one title. */
  method CheckTitle(parents: Parents, title: string) returns (problem: Option<Problem>)
    requires title in parents
    ensures problem == ProblemOf(parents, title)
  {
    if parents[title].None? {
      return None;
    }
    if parents[title].value !in parents {
      return Some(Dangling);
    }
    var cycle := FindsCycle(parents, title);
    problem := if cycle then Some(Cycle) else None;
  }

  method CheckReferences(pages: seq<Page>) returns (errors: seq<Error>)
    ensures errors == Report(Order(pages), ParentMap(pages), IndexMap(pages))
  {
    var order, index, parents := CollectPages(pages);
    errors := [];
    for i := 0 to |order|
      invariant errors == Report(order[..i], parents, index)
    {
      assert order[..i + 1][..i] == order[..i];
      var problem := CheckTitle(parents, order[i]);
      if problem.Some? {
        errors := errors + [Error(index[order[i]], problem.value)];
      }
    }
    assert order[..|order|] == order;
  }

  // ----- what an empty report means -----

  lemma {:induction false} ReportIsEmpty(titles: seq<string>, parents: Parents, index: map<string, nat>)
    requires forall t | t in titles :: t in parents && t in index
    ensures Report(titles, parents, index) == [] <==> forall t | t in titles :: ProblemOf(parents, t).None?
  {
    if titles != [] {
      ReportIsEmpty(titles[..|titles| - 1], parents, index);
      assert titles == titles[..|titles| - 1] + [titles[|titles| - 1]];
    }
  }

  lemma {:induction false} ReportHolds(titles: seq<string>, parents: Parents, index: map<string, nat>, e: Error)
    requires forall t | t in titles :: t in parents && t in index
    ensures e in Report(titles, parents, index)
       <==> exists t | t in titles :: ProblemOf(parents, t) == Some(e.problem) && index[t] == e.page
  {
    if titles != [] {
      var before, last := titles[..|titles| - 1], titles[|titles| - 1];
      ReportHolds(before, parents, index, e);
      assert titles == before + [last];
      assert forall t :: t in titles <==> t in before || t == last;
    }
  }

  /** What is wrong with the page at this position, read off the pages. */
  ghost predicate IsFaulty(pages: seq<Page>, e: Error) {
    && IsLast(pages, e.page) && pages[e.page].parent.Some?
    && match e.problem
       case Dangling => !HasPage(pages, pages[e.page].parent.value)
       case Cycle =>
         HasPage(pages, pages[e.page].parent.value) && EntersCycle(ParentMap(pages), pages[e.page].title)
  }

  /** An error is reported exactly for the last page of a title, with a parent that no page has, or with a
      parent that some page has and a chain that enters a cycle. */
  lemma ReportIsExact(pages: seq<Page>, e: Error)
    ensures e in Report(Order(pages), ParentMap(pages), IndexMap(pages)) <==> IsFaulty(pages, e)
  {
    var parents, index := ParentMap(pages), IndexMap(pages);
    ReportHolds(Order(pages), parents, index, e);
    if IsFaulty(pages, e) {
      LastWins(pages, e.page);
      ProblemIsFault(pages, e);
    }
    if e in Report(Order(pages), parents, index) {
      var t :| t in Order(pages) && ProblemOf(parents, t) == Some(e.problem) && index[t] == e.page;
      TitlesAreThePages(pages, t);
      var i: nat :| IsLast(pages, i) && pages[i].title == t;
      LastWins(pages, i);
      ProblemIsFault(pages, e);
    }
  }

  lemma ProblemIsFault(pages: seq<Page>, e: Error)
    requires IsLast(pages, e.page)
    ensures
      var title := pages[e.page].title;
      title in ParentMap(pages) && (ProblemOf(ParentMap(pages), title) == Some(e.problem) <==> IsFaulty(pages, e))
  {
    LastWins(pages, e.page);
    if pages[e.page].parent.Some? {
      TitlesAreThePages(pages, pages[e.page].parent.value);
    }
  }

  // ----- the order of the report -----

  /** No earlier page has the title of this one. */
  ghost predicate IsFirst(pages: seq<Page>, i: nat) {
    && i < |pages| && pages[i].Titled?
    && forall j | 0 <= j < i :: !(pages[j].Titled? && pages[j].title == pages[i].title)
  }

  /** The titles stand in the order of their first pages, each once. */
  lemma {:induction false} OrderIsFirstAppearance(pages: seq<Page>, k: nat, l: nat, a: nat, b: nat)
    requires k < l < |Order(pages)| && IsFirst(pages, a) && IsFirst(pages, b)
    requires pages[a].title == Order(pages)[k] && pages[b].title == Order(pages)[l]
    ensures a < b
  {
    var before, p := pages[..|pages| - 1], pages[|pages| - 1];
    assert Order(before)[k] == Order(pages)[k];
    TitlesAreThePages(before, Order(pages)[k]);
    var q :| q in before && q.Titled? && q.title == pages[a].title;
    assert a < |before|;
    if l < |Order(before)| {
      TitlesAreThePages(before, Order(pages)[l]);
      var r :| r in before && r.Titled? && r.title == pages[b].title;
      assert b < |before|;
      assert IsFirst(before, a) && IsFirst(before, b);
      OrderIsFirstAppearance(before, k, l, a, b);
    } else {
      TitlesAreThePages(before, p.title);
      forall x: nat | x < |before| ensures !(pages[x].Titled? && pages[x].title == p.title) {
        assert pages[x] == before[x] && before[x] in before;
      }
    }
  }

  /** The errors come from different titles, in the order of the titles. */
  lemma {:induction false} ReportFollows(titles: seq<string>, parents: Parents, index: map<string, nat>, i: nat, j: nat)
    returns (k: nat, l: nat)
    requires forall t | t in titles :: t in parents && t in index
    requires i <= j < |Report(titles, parents, index)|
    ensures k <= l < |titles| && (i < j ==> k < l)
    ensures Report(titles, parents, index)[i].page == index[titles[k]]
    ensures Report(titles, parents, index)[j].page == index[titles[l]]
  {
    var before := titles[..|titles| - 1];
    var fewer := Report(before, parents, index);
    if j < |fewer| {
      k, l := ReportFollows(before, parents, index, i, j);
    } else {
      l := |titles| - 1;
      k := l;
      if i < j {
        var m;
        k, m := ReportFollows(before, parents, index, i, i);
      }
    }
  }

  /** There is at most one error per title, and the errors stand in the order in which their titles first
      appear. */
  lemma ReportIsOrdered(pages: seq<Page>, i: nat, j: nat, a: nat, b: nat)
    requires i < j < |Report(Order(pages), ParentMap(pages), IndexMap(pages))|
    requires IsFirst(pages, a) && IsFirst(pages, b)
    ensures
      var errors := Report(Order(pages), ParentMap(pages), IndexMap(pages));
      && IsLast(pages, errors[i].page) && IsLast(pages, errors[j].page)
      && (pages[a].title == pages[errors[i].page].title && pages[b].title == pages[errors[j].page].title ==> a < b)
  {
    var errors := Report(Order(pages), ParentMap(pages), IndexMap(pages));
    var k, l := ReportFollows(Order(pages), ParentMap(pages), IndexMap(pages), i, j);
    TitleAtIndex(pages, Order(pages)[k]);
    TitleAtIndex(pages, Order(pages)[l]);
    if pages[a].title == pages[errors[i].page].title && pages[b].title == pages[errors[j].page].title {
      OrderIsFirstAppearance(pages, k, l, a, b);
    }
  }

  lemma TitleAtIndex(pages: seq<Page>, title: string)
    requires title in Order(pages)
    ensures IsLast(pages, IndexMap(pages)[title]) && pages[IndexMap(pages)[title]].title == title
  {
    TitlesAreThePages(pages, title);
    var i: nat :| IsLast(pages, i) && pages[i].title == title;
    LastWins(pages, i);
  }

  /** A chain that reaches a root passes only existing pages and ends. */
  lemma RootMeansNoProblem(parents: Parents, title: string, n: nat)
    requires title in parents && IsRootAt(parents, title, n)
    ensures ProblemOf(parents, title).None?
  {
    EndlessIsCycle(parents, title);
    assert Ancestor(parents, title, n + 1).None?;
    if n > 0 {
      assert Ancestor(parents, title, 1) == parents[title];
      if parents[title].None? {
        EndedStaysEnded(parents, title, 1, n);
      }
      AncestorFrom(parents, title, 1, n - 1);
      var parent := parents[title].value;
      if parent !in parents && n > 1 {
        assert Ancestor(parents, parent, 1).None?;
        EndedStaysEnded(parents, parent, 1, n - 1);
      }
    }
  }

  /** Where no page has a problem, every chain ends at a root. */
  lemma {:induction false} NoProblemMeansRoot(parents: Parents, title: string, n: nat)
    requires forall t | t in parents :: ProblemOf(parents, t).None?
    requires title in parents && Ancestor(parents, title, n).None?
    ensures ReachesRoot(parents, title)
    decreases n
  {
    if parents[title].None? {
      assert IsRootAt(parents, title, 0);
    } else {
      var parent := parents[title].value;
      assert Ancestor(parents, title, 1) == Some(parent);
      AncestorFrom(parents, title, 1, n - 1);
      NoProblemMeansRoot(parents, parent, n - 1);
      var k: nat :| IsRootAt(parents, parent, k);
      AncestorFrom(parents, title, 1, k);
      assert IsRootAt(parents, title, 1 + k);
    }
  }

  /** The check is silent exactly when every page's chain reaches a parentless page through existing pages. */
  lemma SilentMeansRooted(pages: seq<Page>)
    ensures Report(Order(pages), ParentMap(pages), IndexMap(pages)) == []
       <==> forall t | t in ParentMap(pages) :: ReachesRoot(ParentMap(pages), t)
  {
    var parents := ParentMap(pages);
    ReportIsEmpty(Order(pages), parents, IndexMap(pages));
    forall t | t in parents && ReachesRoot(parents, t) ensures ProblemOf(parents, t).None? {
      var n: nat :| IsRootAt(parents, t, n);
      RootMeansNoProblem(parents, t, n);
    }
    if forall t | t in parents :: ProblemOf(parents, t).None? {
      forall t | t in parents ensures ReachesRoot(parents, t) {
        EndlessIsCycle(parents, t);
        if parents[t].Some? {
          var n: nat :| Ancestor(parents, t, n).None?;
          NoProblemMeansRoot(parents, t, n);
        } else {
          assert IsRootAt(parents, t, 0);
        }
      }
    }
  }
}
