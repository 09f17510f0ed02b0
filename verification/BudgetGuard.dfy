/**
  The per-user budget guard: a store of mutable per-user entries with lazy day roll-over and
  a version-stamped cache of each user's daily cap. Money is `real`; a cost or a cap that is
  not a finite number is a separate constructor.
 */
module BudgetGuard {
  import opened Wrappers

  datatype Cost = NotFinite | Usd(amount: real)

  /** What the user loader answers. */
  datatype Row = NoRow | NotNumeric | NonFinite | Cap(usd: real)

  datatype Error =
    | BadCost
    | UnknownUser
    | BadRow
    | PerCallCapExceeded
    | DailyCapExceeded(spent: real, cap: real)

  datatype Result<+T> = Ok(value: T) | Err(error: Error)

  /** What the world answers during one call: the version counter, the loader, and the UTC day
      when an entry is created and when it is rolled. */
  datatype Answers = Answers(version: nat, row: Row, loadDay: int, rollDay: int)

  // ----- the guard on values -----

  datatype Entry = Entry(cap: real, version: nat, day: int, spent: real)

  type Store = map<string, Entry>

  predicate CostIsValid(cost: Cost) {
    cost.Usd? && cost.amount >= 0.0
  }

  function Loaded(s: Store, user: string, a: Answers): (Store, Option<Error>) {
    if user in s && s[user].version >= a.version then (s, None)
    else
      match a.row
      case NoRow => (s, Some(UnknownUser))
      case NotNumeric => (s, Some(BadRow))
      case NonFinite => (s, Some(BadRow))
      case Cap(usd) =>
        if usd <= 0.0 then (s, Some(BadRow))
        else if user in s then (s[user := s[user].(cap := usd, version := a.version)], None)
        else (s[user := Entry(usd, a.version, a.loadDay, 0.0)], None)
  }

  function Rolled(e: Entry, today: int): Entry {
    if today != e.day then e.(day := today, spent := 0.0) else e
  }

  function Charged(s: Store, perCallMax: real, user: string, cost: Cost, a: Answers): (Store, Result<()>) {
    if !CostIsValid(cost) then (s, Err(BadCost))
    else
      var (s1, error) := Loaded(s, user, a);
      if error.Some? then (s1, Err(error.value))
      else if cost.amount > perCallMax then (s1, Err(PerCallCapExceeded))
      else RollAndCharge(s1, user, cost.amount, a.rollDay)
  }

  function RollAndCharge(s: Store, user: string, amount: real, today: int): (Store, Result<()>)
    requires user in s
  {
    var e := Rolled(s[user], today);
    var rolled := s[user := e];
    if e.spent + amount > e.cap then (rolled, Err(DailyCapExceeded(e.spent, e.cap)))
    else (rolled[user := e.(spent := e.spent + amount)], Ok(()))
  }

  function Previewed(s: Store, perCallMax: real, user: string, cost: Cost, a: Answers): (Store, Result<bool>) {
    if !CostIsValid(cost) then (s, Err(BadCost))
    else
      var (s1, error) := Loaded(s, user, a);
      if error.Some? then (s1, Err(error.value))
      else if cost.amount > perCallMax then (s1, Ok(true))
      else
        var e := Rolled(s1[user], a.rollDay);
        (s1[user := e], Ok(e.spent + cost.amount > e.cap))
  }

  function Read(s: Store, user: string, a: Answers): (Store, Result<real>) {
    var (s1, error) := Loaded(s, user, a);
    if error.Some? then (s1, Err(error.value))
    else
      var e := Rolled(s1[user], a.rollDay);
      (s1[user := e], Ok(e.spent))
  }

  // ----- the guard in place -----

  class UserBudget {
    var dailyUsd: real
    var version: nat
    var day: int
    var spent: real

    constructor (dailyUsd: real, version: nat, day: int)
      ensures this.dailyUsd == dailyUsd && this.version == version && this.day == day && spent == 0.0
    {
      this.dailyUsd, this.version, this.day, this.spent := dailyUsd, version, day, 0.0;
    }

    ghost function View(): Entry
      reads this
    {
      Entry(dailyUsd, version, day, spent)
    }
  }

  class Guard {
    const perCallMax: real
    var budgets: map<string, UserBudget>

    /** No entry object is shared between two users. */
    ghost predicate Valid()
      reads this
    {
      forall u, v | u in budgets && v in budgets && u != v :: budgets[u] != budgets[v]
    }

    ghost function View(): Store
      reads this, budgets.Values
    {
      map u | u in budgets :: budgets[u].View()
    }

    /** A per-call cap that is not finite or is negative is refused. */
    static method Create(perCallMax: Cost) returns (guard: Guard?)
      ensures guard == null <==> !CostIsValid(perCallMax)
      ensures guard != null ==> fresh(guard) && guard.Valid() && guard.View() == map[] && guard.perCallMax == perCallMax.amount
    {
      if perCallMax.NotFinite? || perCallMax.amount < 0.0 {
        return null;
      }
      guard := new Guard(perCallMax.amount);
    }

    constructor (perCallMax: real)
      ensures Valid() && View() == map[] && this.perCallMax == perCallMax
    {
      this.perCallMax := perCallMax;
      budgets := map[];
    }

    method LoadOrGetUser(user: string, a: Answers) returns (entry: UserBudget?, error: Option<Error>)
      requires Valid()
      modifies this, budgets.Values
      ensures Valid() && fresh(budgets.Values - old(budgets.Values))
      ensures View() == Loaded(old(View()), user, a).0
      ensures error == Loaded(old(View()), user, a).1
      ensures error.None? ==> entry != null && user in budgets && entry == budgets[user]
    {
      entry := if user in budgets then budgets[user] else null;
      if entry != null && entry.version >= a.version {
        return entry, None;
      }
      match a.row
      case NoRow => error := Some(UnknownUser);
      case NotNumeric => error := Some(BadRow);
      case NonFinite => error := Some(BadRow);
      case Cap(usd) =>
        if usd <= 0.0 {
          return entry, Some(BadRow);
        }
        error := None;
        if entry == null {
          entry := new UserBudget(usd, a.version, a.loadDay);
          budgets := budgets[user := entry];
          assert View() == old(View())[user := Entry(usd, a.version, a.loadDay, 0.0)];
        } else {
          RefreshCap(user, entry, usd, a.version);
        }
    }

    method RefreshCap(user: string, entry: UserBudget, usd: real, version: nat)
      requires Valid() && user in budgets && entry == budgets[user]
      modifies entry
      ensures View() == old(View())[user := old(View())[user].(cap := usd, version := version)]
    {
      entry.dailyUsd := usd;
      entry.version := version;
      OnlyEntryChanged(user);
    }

    method RollDayIfNeeded(user: string, entry: UserBudget, today: int)
      requires Valid() && user in budgets && entry == budgets[user]
      modifies entry
      ensures View() == old(View())[user := Rolled(old(View())[user], today)]
    {
      if today != entry.day {
        entry.day := today;
        entry.spent := 0.0;
      }
      OnlyEntryChanged(user);
    }

    method AddSpend(user: string, entry: UserBudget, amount: real)
      requires Valid() && user in budgets && entry == budgets[user]
      modifies entry
      ensures View() == old(View())[user := old(View())[user].(spent := old(View())[user].spent + amount)]
    {
      entry.spent := entry.spent + amount;
      OnlyEntryChanged(user);
    }

    /** Entries are not shared, so a change to one is a change to one row. */
    twostate lemma OnlyEntryChanged(user: string)
      requires old(Valid()) && budgets == old(budgets) && user in budgets
      requires forall e | e in budgets.Values && e != budgets[user] :: e.View() == old(e.View())
      ensures View() == old(View())[user := budgets[user].View()]
    {
      assert forall v | v in budgets && v != user :: budgets[v] in budgets.Values && budgets[v] != budgets[user];
    }

    method CheckAndCharge(user: string, cost: Cost, a: Answers) returns (r: Result<()>)
      requires Valid()
      modifies this, budgets.Values
      ensures Valid() && fresh(budgets.Values - old(budgets.Values))
      ensures View() == Charged(old(View()), perCallMax, user, cost, a).0
      ensures r == Charged(old(View()), perCallMax, user, cost, a).1
    {
      if !CostIsValid(cost) {
        return Err(BadCost);
      }
      var entry, error := LoadOrGetUser(user, a);
      if error.Some? {
        return Err(error.value);
      }
      if cost.amount > perCallMax {
        return Err(PerCallCapExceeded);
      }
      r := ChargeEntry(user, entry, cost.amount, a.rollDay);
    }

    method ChargeEntry(user: string, entry: UserBudget, amount: real, today: int) returns (r: Result<()>)
      requires Valid() && user in budgets && entry == budgets[user]
      modifies entry
      ensures View() == RollAndCharge(old(View()), user, amount, today).0
      ensures r == RollAndCharge(old(View()), user, amount, today).1
    {
      RollDayIfNeeded(user, entry, today);
      assert entry.View() == View()[user] == Rolled(old(View())[user], today);
      if entry.spent + amount > entry.dailyUsd {
        return Err(DailyCapExceeded(entry.spent, entry.dailyUsd));
      }
      AddSpend(user, entry, amount);
      r := Ok(());
    }

    method WouldExceed(user: string, cost: Cost, a: Answers) returns (r: Result<bool>)
      requires Valid()
      modifies this, budgets.Values
      ensures Valid() && fresh(budgets.Values - old(budgets.Values))
      ensures View() == Previewed(old(View()), perCallMax, user, cost, a).0
      ensures r == Previewed(old(View()), perCallMax, user, cost, a).1
    {
      if !CostIsValid(cost) {
        return Err(BadCost);
      }
      var entry, error := LoadOrGetUser(user, a);
      if error.Some? {
        return Err(error.value);
      }
      if cost.amount > perCallMax {
        return Ok(true);
      }
      RollDayIfNeeded(user, entry, a.rollDay);
      r := Ok(entry.spent + cost.amount > entry.dailyUsd);
    }

    method EstimateFor(user: string, a: Answers) returns (r: Result<real>)
      requires Valid()
      modifies this, budgets.Values
      ensures Valid() && fresh(budgets.Values - old(budgets.Values))
      ensures View() == Loaded(old(View()), user, a).0
      ensures r == match Loaded(old(View()), user, a).1 case Some(e) => Err(e) case None => Ok(perCallMax)
    {
      var _, error := LoadOrGetUser(user, a);
      r := if error.Some? then Err(error.value) else Ok(perCallMax);
    }

    method SpentToday(user: string, a: Answers) returns (r: Result<real>)
      requires Valid()
      modifies this, budgets.Values
      ensures Valid() && fresh(budgets.Values - old(budgets.Values))
      ensures View() == Read(old(View()), user, a).0
      ensures r == Read(old(View()), user, a).1
    {
      var entry, error := LoadOrGetUser(user, a);
      if error.Some? {
        return Err(error.value);
      }
      RollDayIfNeeded(user, entry, a.rollDay);
      r := Ok(entry.spent);
    }

    method Evict(user: string)
      requires Valid()
      modifies this
      ensures Valid() && budgets.Values <= old(budgets.Values)
      ensures View() == old(View()) - {user}
    {
      budgets := budgets - {user};
    }
  }
}
