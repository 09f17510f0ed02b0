/**
  What the budget guard's store means: a plain ledger of accepted charges. Over every run with
  a clock that does not go back, the lazily rolled spend of a user is the sum of that user's
  accepted charges of the day, since the last eviction.
 */
module BudgetLedger {
  import opened Wrappers
  import opened BudgetGuard

  // ----- the ledger -----

  datatype Event = Accepted(user: string, day: int, amount: real, cap: real) | Evicted(user: string)

  /** The newest event is the last one. */
  type Ledger = seq<Event>

  ghost function SumOn(l: Ledger, user: string, day: int): real {
    if l == [] then 0.0
    else
      var rest, e := l[..|l| - 1], l[|l| - 1];
      match e
      case Evicted(u) => if u == user then 0.0 else SumOn(rest, user, day)
      case Accepted(u, d, amount, _) => SumOn(rest, user, day) + if u == user && d == day then amount else 0.0
  }

  /** Right after each accepted charge, the user's sum of the day was within the cap in force. */
  ghost predicate CapsWereKept(l: Ledger) {
    forall i | 0 <= i < |l| && l[i].Accepted? :: SumOn(l[..i + 1], l[i].user, l[i].day) <= l[i].cap
  }

  // ----- runs -----

  datatype Op =
    | Charge(user: string, cost: Cost)
    | Preview(user: string, cost: Cost)
    | Estimate(user: string)
    | Spent(user: string)
    | Evict(user: string)

  datatype Call = Call(op: Op, answers: Answers)

  ghost function Next(s: Store, perCallMax: real, c: Call): Store {
    match c.op
    case Charge(user, cost) => Charged(s, perCallMax, user, cost, c.answers).0
    case Preview(user, cost) => Previewed(s, perCallMax, user, cost, c.answers).0
    case Estimate(user) => Loaded(s, user, c.answers).0
    case Spent(user) => Read(s, user, c.answers).0
    case Evict(user) => s - {user}
  }

  ghost predicate IsAccepted(s: Store, perCallMax: real, c: Call) {
    c.op.Charge? && Charged(s, perCallMax, c.op.user, c.op.cost, c.answers).1.Ok?
  }

  ghost function Logged(s: Store, perCallMax: real, c: Call): Ledger {
    if IsAccepted(s, perCallMax, c) then
      [Accepted(c.op.user, c.answers.rollDay, c.op.cost.amount, Next(s, perCallMax, c)[c.op.user].cap)]
    else if c.op.Evict? then [Evicted(c.op.user)]
    else []
  }

  ghost function StoreAfter(perCallMax: real, run: seq<Call>): Store {
    if run == [] then map[]
    else Next(StoreAfter(perCallMax, run[..|run| - 1]), perCallMax, run[|run| - 1])
  }

  ghost function LedgerAfter(perCallMax: real, run: seq<Call>): Ledger {
    if run == [] then []
    else
      var before := run[..|run| - 1];
      LedgerAfter(perCallMax, before) + Logged(StoreAfter(perCallMax, before), perCallMax, run[|run| - 1])
  }

  /** The day the clock last showed; `start` before the first call. */
  ghost function Now(run: seq<Call>, start: int): int {
    if run == [] then start else run[|run| - 1].answers.rollDay
  }

  /** The clock never goes back, within a call or between calls. */
  ghost predicate ClockIsMonotone(run: seq<Call>, start: int) {
    run == [] ||
    var before, a := run[..|run| - 1], run[|run| - 1].answers;
    ClockIsMonotone(before, start) && Now(before, start) <= a.loadDay <= a.rollDay
  }

  // ----- the abstract spend -----

  /** What the store says a user has spent on a day: nothing, if the entry is of another day. */
  function SpendOn(s: Store, user: string, day: int): real {
    if user in s && s[user].day == day then s[user].spent else 0.0
  }

  /** No entry is of a later day than the clock shows. */
  ghost predicate NotAhead(s: Store, now: int) {
    forall u | u in s :: s[u].day <= now
  }

  /** What one call does to the abstract spend: an accepted charge adds its cost to its user's
      current day, an eviction clears its user, and nothing else changes anything for anyone. */
  lemma CallEffect(s: Store, perCallMax: real, c: Call, now: int, user: string, day: int)
    requires NotAhead(s, now) && now <= c.answers.loadDay <= c.answers.rollDay <= day
    ensures NotAhead(Next(s, perCallMax, c), c.answers.rollDay)
    ensures SpendOn(Next(s, perCallMax, c), user, day) ==
              if c.op.Evict? && c.op.user == user then 0.0
              else SpendOn(s, user, day)
                   + if IsAccepted(s, perCallMax, c) && c.op.user == user && day == c.answers.rollDay
                     then c.op.cost.amount else 0.0
  {
  }

  /** An accepted charge fits under the cap the store then holds. */
  lemma AcceptedFits(s: Store, perCallMax: real, c: Call)
    requires IsAccepted(s, perCallMax, c)
    ensures
      var s' := Next(s, perCallMax, c);
      && c.op.user in s'
      && SpendOn(s', c.op.user, c.answers.rollDay) <= s'[c.op.user].cap
      && 0.0 <= c.op.cost.amount <= perCallMax
  {
  }

  /** A call about one user leaves every other user's entry exactly as it was. */
  lemma OthersUntouched(s: Store, perCallMax: real, c: Call, other: string)
    requires other != c.op.user
    ensures other in Next(s, perCallMax, c) <==> other in s
    ensures other in s ==> Next(s, perCallMax, c)[other] == s[other]
  {
  }

  /** Loading succeeds exactly when the entry is stamped with the current version or later, or the row is a
      cap above zero. The cap in force is the cached one in the first case and the row's in the second; a new
      entry has spent nothing. */
  lemma LoadIsExact(s: Store, user: string, a: Answers)
    ensures
      var (s', error) := Loaded(s, user, a);
      var isCached := user in s && s[user].version >= a.version;
      && (error.None? <==> isCached || (a.row.Cap? && a.row.usd > 0.0))
      && (error == Some(UnknownUser) <==> !isCached && a.row.NoRow?)
      && (error == Some(BadRow) <==> !isCached && !a.row.NoRow? && !(a.row.Cap? && a.row.usd > 0.0))
      && (error.Some? || isCached ==> s' == s)
      && (error.None? && !isCached ==>
            s' == s[user := Entry(a.row.usd, a.version, if user in s then s[user].day else a.loadDay,
                                  if user in s then s[user].spent else 0.0)])
  {
  }

  /** A call changes caps and stamps only by loading: a charge, a preview or a query leaves the user's entry
      with the cap and the stamp that loading gives it. Whatever looked at the spend left the entry of today. */
  lemma OnlyLoadingSetsCaps(s: Store, perCallMax: real, c: Call)
    requires !c.op.Evict?
    ensures
      var s', loaded := Next(s, perCallMax, c), Loaded(s, c.op.user, c.answers).0;
      var isRefused := (c.op.Charge? || c.op.Preview?) && !CostIsValid(c.op.cost);
      && (isRefused ==> s' == s)
      && (!isRefused ==>
            && s'.Keys == loaded.Keys
            && (c.op.user in s' ==>
                  s'[c.op.user].cap == loaded[c.op.user].cap && s'[c.op.user].version == loaded[c.op.user].version))
      && (!isRefused && Loaded(s, c.op.user, c.answers).1.None? && !c.op.Estimate?
          && (c.op.Spent? || c.op.cost.amount <= perCallMax) ==>
            c.op.user in s' && s'[c.op.user].day == c.answers.rollDay)
  {
  }

  /** Refreshing the cached cap keeps the running spend and its day. */
  lemma RefreshKeepsSpend(s: Store, user: string, a: Answers)
    requires user in s
    ensures user in Loaded(s, user, a).0
    ensures Loaded(s, user, a).0[user].spent == s[user].spent
    ensures Loaded(s, user, a).0[user].day == s[user].day
  {
  }

  /** A call that fails for its cost, its user or its row changes nothing at all. */
  lemma FailureLeavesNoTrace(s: Store, perCallMax: real, c: Call)
    requires c.op.Charge?
    ensures
      var (s', r) := Charged(s, perCallMax, c.op.user, c.op.cost, c.answers);
      && (r == Err(BadCost) || r == Err(UnknownUser) || r == Err(BadRow) ==> s' == s)
      && (s'.Keys != s.Keys ==> CostIsValid(c.op.cost) && c.answers.row.Cap? && c.answers.row.usd > 0.0)
  {
  }

  /** From the same state and answers, the preview says exactly what the charge will do. */
  lemma PreviewAgrees(s: Store, perCallMax: real, user: string, cost: Cost, a: Answers)
    ensures
      var preview := Previewed(s, perCallMax, user, cost, a).1;
      var charge := Charged(s, perCallMax, user, cost, a).1;
      && (preview == Ok(false) <==> charge.Ok?)
      && (preview == Ok(true) <==> charge.Err? && (charge.error.PerCallCapExceeded? || charge.error.DailyCapExceeded?))
      && (preview.Err? ==> charge == Err(preview.error))
  {
  }

  // ----- the refinement -----

  ghost predicate Refines(s: Store, l: Ledger, now: int) {
    forall user, day | now <= day :: SpendOn(s, user, day) == SumOn(l, user, day)
  }

  lemma SumOnLogged(l: Ledger, s: Store, perCallMax: real, c: Call, user: string, day: int)
    ensures SumOn(l + Logged(s, perCallMax, c), user, day) ==
              if c.op.Evict? && c.op.user == user then 0.0
              else SumOn(l, user, day)
                   + if IsAccepted(s, perCallMax, c) && c.op.user == user && day == c.answers.rollDay
                     then c.op.cost.amount else 0.0
  {
    var logged := Logged(s, perCallMax, c);
    if logged == [] {
      assert l + logged == l;
    } else {
      assert (l + logged)[..|l + logged| - 1] == l;
    }
  }

  /** Over every run, the store is the ledger of accepted charges, and every cap was kept. */
  lemma {:induction false} StoreRefinesLedger(perCallMax: real, run: seq<Call>, start: int)
    requires ClockIsMonotone(run, start)
    ensures NotAhead(StoreAfter(perCallMax, run), Now(run, start))
    ensures Refines(StoreAfter(perCallMax, run), LedgerAfter(perCallMax, run), Now(run, start))
    ensures CapsWereKept(LedgerAfter(perCallMax, run))
  {
    if run != [] {
      var before, c := run[..|run| - 1], run[|run| - 1];
      StoreRefinesLedger(perCallMax, before, start);
      var s, l := StoreAfter(perCallMax, before), LedgerAfter(perCallMax, before);
      StepRefines(s, l, perCallMax, c, Now(before, start));
    }
  }

  lemma StepRefines(s: Store, l: Ledger, perCallMax: real, c: Call, now: int)
    requires NotAhead(s, now) && Refines(s, l, now) && CapsWereKept(l)
    requires now <= c.answers.loadDay <= c.answers.rollDay
    ensures NotAhead(Next(s, perCallMax, c), c.answers.rollDay)
    ensures Refines(Next(s, perCallMax, c), l + Logged(s, perCallMax, c), c.answers.rollDay)
    ensures CapsWereKept(l + Logged(s, perCallMax, c))
  {
    CallEffect(s, perCallMax, c, now, "", c.answers.rollDay);
    forall user, day | c.answers.rollDay <= day
      ensures SpendOn(Next(s, perCallMax, c), user, day) == SumOn(l + Logged(s, perCallMax, c), user, day)
    {
      CallEffect(s, perCallMax, c, now, user, day);
      SumOnLogged(l, s, perCallMax, c, user, day);
    }
    var l' := l + Logged(s, perCallMax, c);
    forall i | 0 <= i < |l'| && l'[i].Accepted? ensures SumOn(l'[..i + 1], l'[i].user, l'[i].day) <= l'[i].cap {
      if i < |l| {
        assert l'[..i + 1] == l[..i + 1];
      } else {
        assert l'[..i + 1] == l';
        AcceptedFits(s, perCallMax, c);
      }
    }
  }

  /** Asking for today's spend, at any point of any run, answers the sum of today's accepted charges. */
  lemma SpentTodayIsTheSum(perCallMax: real, run: seq<Call>, start: int, user: string, a: Answers)
    requires ClockIsMonotone(run, start) && Now(run, start) <= a.loadDay <= a.rollDay
    ensures
      var s := StoreAfter(perCallMax, run);
      var r := Read(s, user, a).1;
      && (r.Ok? <==> (user in s && s[user].version >= a.version) || (a.row.Cap? && a.row.usd > 0.0))
      && (r.Ok? ==> r.value == SumOn(LedgerAfter(perCallMax, run), user, a.rollDay))
  {
    StoreRefinesLedger(perCallMax, run, start);
  }

  /** At any point of any run a charge is accepted exactly when its cost is a number not below zero, it is
      within the per-call cap, and today's accepted charges plus this one are within the cap in force: the
      cached one if it is stamped with the current version, otherwise the row's, which must be above zero.
      Each refusal has its own exact reason, and one for the daily cap reports that sum and that cap. */
  lemma AcceptedExactlyWhenItFits(perCallMax: real, run: seq<Call>, start: int, user: string, cost: Cost, a: Answers)
    requires ClockIsMonotone(run, start) && Now(run, start) <= a.loadDay <= a.rollDay
    ensures
      var s, sum := StoreAfter(perCallMax, run), SumOn(LedgerAfter(perCallMax, run), user, a.rollDay);
      var r := Charged(s, perCallMax, user, cost, a).1;
      var isNumber := cost.Usd? && cost.amount >= 0.0;
      var isCached := user in s && s[user].version >= a.version;
      var isKnown := isCached || (a.row.Cap? && a.row.usd > 0.0);
      && (r.Ok? <==> isNumber && isKnown && cost.amount <= perCallMax
                     && sum + cost.amount <= if isCached then s[user].cap else a.row.usd)
      && (r == Err(BadCost) <==> !isNumber)
      && (r == Err(UnknownUser) <==> isNumber && !isCached && a.row.NoRow?)
      && (r == Err(BadRow) <==> isNumber && !isKnown && !a.row.NoRow?)
      && (r == Err(PerCallCapExceeded) <==> isNumber && isKnown && cost.amount > perCallMax)
      && (r.Err? && r.error.DailyCapExceeded? ==>
            r.error == DailyCapExceeded(sum, if isCached then s[user].cap else a.row.usd))
  {
    StoreRefinesLedger(perCallMax, run, start);
    var s := StoreAfter(perCallMax, run);
    assert SpendOn(s, user, a.rollDay) == SumOn(LedgerAfter(perCallMax, run), user, a.rollDay);
    LoadIsExact(s, user, a);
  }

  lemma {:induction false} SumIsNotNegative(perCallMax: real, run: seq<Call>, user: string, day: int)
    ensures SumOn(LedgerAfter(perCallMax, run), user, day) >= 0.0
  {
    if run != [] {
      var before, c := run[..|run| - 1], run[|run| - 1];
      var s := StoreAfter(perCallMax, before);
      SumIsNotNegative(perCallMax, before, user, day);
      SumOnLogged(LedgerAfter(perCallMax, before), s, perCallMax, c, user, day);
      if IsAccepted(s, perCallMax, c) {
        AcceptedFits(s, perCallMax, c);
      }
    }
  }

  /** The clock assumption is needed: after any run and any accepted charge that costs something, a look at
      the spend on any other day forgets it, so that when the first day comes back its spend reads as
      nothing. */
  lemma ClockMustNotGoBack(perCallMax: real, run: seq<Call>, charge: Call, other: Answers, back: Answers)
    requires IsAccepted(StoreAfter(perCallMax, run), perCallMax, charge) && charge.op.cost.amount > 0.0
    requires other.rollDay != charge.answers.rollDay == back.rollDay
    requires Read(StoreAfter(perCallMax, run + [charge]), charge.op.user, other).1.Ok?
    ensures
      var user := charge.op.user;
      var longer := run + [charge] + [Call(Spent(user), other)];
      var r := Read(StoreAfter(perCallMax, longer), user, back).1;
      && (r.Ok? ==> r.value == 0.0)
      && SumOn(LedgerAfter(perCallMax, longer), user, back.rollDay) >= charge.op.cost.amount
  {
    var user, day := charge.op.user, back.rollDay;
    var look := Call(Spent(user), other);
    OneMoreCall(perCallMax, run, charge);
    OneMoreCall(perCallMax, run + [charge], look);
    SumIsNotNegative(perCallMax, run, user, day);
    SumOnLogged(LedgerAfter(perCallMax, run), StoreAfter(perCallMax, run), perCallMax, charge, user, day);
    var s, l := StoreAfter(perCallMax, run + [charge]), LedgerAfter(perCallMax, run + [charge]);
    SumOnLogged(l, s, perCallMax, look, user, day);
    LookForgets(s, user, other, back);
  }

  lemma LookForgets(s: Store, user: string, other: Answers, back: Answers)
    requires Read(s, user, other).1.Ok? && other.rollDay != back.rollDay
    ensures Read(Read(s, user, other).0, user, back).1.Ok? ==> Read(Read(s, user, other).0, user, back).1.value == 0.0
  {
  }

  lemma OneMoreCall(perCallMax: real, run: seq<Call>, c: Call)
    ensures StoreAfter(perCallMax, run + [c]) == Next(StoreAfter(perCallMax, run), perCallMax, c)
    ensures LedgerAfter(perCallMax, run + [c])
         == LedgerAfter(perCallMax, run) + Logged(StoreAfter(perCallMax, run), perCallMax, c)
  {
    assert (run + [c])[..|run + [c]| - 1] == run;
  }
}
