/**
  Cap cache coherence under interleaving. Identity changes, in other threads or processes, write
  a user's row and then bump the version counter; guard calls run one at a time, but row writes and
  bumps may fall anywhere inside them. A step system over one user.
 */
module CapCoherence {
  import opened Wrappers
  import opened BudgetGuard

  /** Where the guard is in one call. `start` is the counter value the call read. */
  datatype Phase =
    | Idle
    | VersionRead(start: nat)
    | RowRead(start: nat, row: int)
    | UsingCap(start: nat, row: int)

  /**
    `rows` holds every value the user's row has had, the current one last, so that a larger index
    is a newer row. `rowAt[v]` is the row that was current when the counter became `v`, and
    `announced[v]` the row whose write that bump announced, if it was about this user. `unannounced`
    are rows written but not yet bumped. `cached` is the row the cached cap came from.
   */
  datatype State = State(
    rows: seq<Row>,
    unannounced: set<int>,
    counter: nat,
    rowAt: seq<int>,
    announced: seq<Option<int>>,
    store: Store,
    cached: int,
    phase: Phase)

  ghost predicate Init(s: State) {
    && |s.rows| == 1 && s.unannounced == {}
    && s.counter == 0 && s.rowAt == [0] && s.announced == [None]
    && s.store == map[] && s.cached == 0 && s.phase == Idle
  }

  /** An identity change writes the row ... */
  ghost predicate WriteRow(s: State, s': State, row: Row) {
    s' == s.(rows := s.rows + [row], unannounced := s.unannounced + {|s.rows|})
  }

  /** ... and only then bumps the counter. */
  ghost predicate BumpFor(s: State, s': State, written: int) {
    && written in s.unannounced
    && s' == s.(unannounced := s.unannounced - {written}, counter := s.counter + 1,
                rowAt := s.rowAt + [|s.rows| - 1], announced := s.announced + [Some(written)])
  }

  /** A change to some other user bumps the same counter. */
  ghost predicate BumpElsewhere(s: State, s': State) {
    s' == s.(counter := s.counter + 1, rowAt := s.rowAt + [|s.rows| - 1], announced := s.announced + [None])
  }

  /** A guard call starts: it reads the counter and, if the entry is stamped at least as high, uses it. */
  ghost predicate Begin(s: State, s': State, user: string) {
    && s.phase == Idle
    && s' == s.(phase := if user in s.store && s.store[user].version >= s.counter
                         then UsingCap(s.counter, s.cached) else VersionRead(s.counter))
  }

  ghost predicate Load(s: State, s': State) {
    s.phase.VersionRead? && s' == s.(phase := RowRead(s.phase.start, |s.rows| - 1))
  }

  /** The loaded row refreshes the entry, or is refused and the call raises. */
  ghost predicate Stamp(s: State, s': State, user: string, day: int) {
    && s.phase.RowRead? && 0 <= s.phase.row < |s.rows|
    && var (store, error) := Loaded(s.store, user, Answers(s.phase.start, s.rows[s.phase.row], day, day));
       s' == if error.Some? then s.(phase := Idle)
             else s.(store := store, cached := s.phase.row, phase := UsingCap(s.phase.start, s.phase.row))
  }

  ghost predicate Finish(s: State, s': State) {
    s.phase.UsingCap? && s' == s.(phase := Idle)
  }

  ghost predicate EvictUser(s: State, s': State, user: string) {
    s.phase == Idle && s' == s.(store := s.store - {user})
  }

  ghost predicate Next(s: State, s': State, user: string) {
    || (exists row :: WriteRow(s, s', row))
    || (exists written :: BumpFor(s, s', written))
    || BumpElsewhere(s, s')
    || Begin(s, s', user)
    || Load(s, s')
    || (exists day :: Stamp(s, s', user, day))
    || Finish(s, s')
    || EvictUser(s, s', user)
  }

  ghost predicate IsRun(run: seq<State>, user: string) {
    && |run| > 0 && Init(run[0])
    && forall i | 0 <= i < |run| - 1 :: Next(run[i], run[i + 1], user)
  }

  // ----- the invariant -----

  /** Row `row` is at least as new as the row that was current when the counter became `v`. */
  ghost predicate AsNewAs(s: State, row: int, v: nat) {
    0 <= row < |s.rows| && v < |s.rowAt| && s.rowAt[v] <= row
  }

  ghost predicate History(s: State) {
    && |s.rows| > 0
    && |s.rowAt| == |s.announced| == s.counter + 1
    && (forall w | w in s.unannounced :: 0 <= w < |s.rows|)
    && (forall v | 0 <= v < |s.rowAt| :: 0 <= s.rowAt[v] < |s.rows|)
    && (forall v, v' | 0 <= v <= v' < |s.rowAt| :: s.rowAt[v] <= s.rowAt[v'])
    && (forall v | 0 <= v < |s.announced| && s.announced[v].Some? :: s.announced[v].value <= s.rowAt[v])
  }

  ghost predicate CacheIsSound(s: State, user: string) {
    user in s.store ==>
      && AsNewAs(s, s.cached, s.store[user].version)
      && s.rows[s.cached] == Cap(s.store[user].cap)
  }

  ghost predicate PhaseIsSound(s: State, user: string) {
    match s.phase
    case Idle => true
    case VersionRead(start) => start < |s.rowAt| && (user in s.store ==> s.store[user].version < start)
    case RowRead(start, row) => AsNewAs(s, row, start) && (user in s.store ==> s.store[user].version < start)
    case UsingCap(start, row) => AsNewAs(s, row, start) && user in s.store && row == s.cached
  }

  ghost predicate Inv(s: State, user: string) {
    History(s) && CacheIsSound(s, user) && PhaseIsSound(s, user)
  }

  lemma WriteKeepsInv(s: State, s': State, user: string, row: Row)
    requires Inv(s, user) && WriteRow(s, s', row)
    ensures Inv(s', user)
  {
  }

  lemma BumpKeepsInv(s: State, s': State, user: string)
    requires Inv(s, user) && (BumpElsewhere(s, s') || exists written :: BumpFor(s, s', written))
    ensures Inv(s', user)
  {
    if !BumpElsewhere(s, s') {
      var written :| BumpFor(s, s', written);
      assert s'.announced[..|s.announced|] == s.announced;
    }
    assert s'.rowAt[..|s.rowAt|] == s.rowAt;
    assert forall v | 0 <= v < |s.rowAt| :: s'.rowAt[v] == s.rowAt[v] && s'.announced[v] == s.announced[v];
  }

  lemma StampKeepsInv(s: State, s': State, user: string, day: int)
    requires Inv(s, user) && Stamp(s, s', user, day)
    ensures Inv(s', user)
  {
  }

  lemma NextKeepsInv(s: State, s': State, user: string)
    requires Inv(s, user) && Next(s, s', user)
    ensures Inv(s', user)
  {
    if row :| WriteRow(s, s', row) {
      WriteKeepsInv(s, s', user, row);
    } else if BumpElsewhere(s, s') || exists written :: BumpFor(s, s', written) {
      BumpKeepsInv(s, s', user);
    } else if day :| Stamp(s, s', user, day) {
      StampKeepsInv(s, s', user, day);
    }
  }

  lemma {:induction false} RunKeepsInv(run: seq<State>, user: string, i: nat)
    requires IsRun(run, user) && i < |run|
    ensures Inv(run[i], user)
  {
    if i > 0 {
      RunKeepsInv(run, user, i - 1);
      NextKeepsInv(run[i - 1], run[i - 1 + 1], user);
    }
  }

  /** In every run: a call that saw the counter at `start` uses the cap of one definite row, and that
      row is at least as new as every write announced by a bump up to `start`. */
  lemma CapIsFresh(run: seq<State>, user: string, i: nat, v: nat)
    requires IsRun(run, user) && i < |run|
    requires run[i].phase.UsingCap? && v <= run[i].phase.start
    ensures
      var s := run[i];
      && user in s.store && 0 <= s.phase.row < |s.rows| && s.rows[s.phase.row] == Cap(s.store[user].cap)
      && v < |s.rowAt| == |s.announced|
      && s.rowAt[v] <= s.phase.row
      && (s.announced[v].Some? ==> s.announced[v].value <= s.phase.row)
  {
    RunKeepsInv(run, user, i);
  }

  /** A guard call with no other step inside it is a load on values: it reads the counter and, unless the
      entry is stamped at least as high, the newest row. */
  lemma UndisturbedCallIsLoaded(s: State, user: string, day: int) returns (s1: State, s2: State, s3: State)
    requires Inv(s, user) && s.phase == Idle
    ensures
      var (store, error) := Loaded(s.store, user, Answers(s.counter, s.rows[|s.rows| - 1], day, day));
      && Begin(s, s1, user)
      && (if s1.phase.UsingCap? then s3 == s1 else Load(s1, s2) && Stamp(s2, s3, user, day))
      && s3.store == store
      && (if error.None? then s3.phase.UsingCap? else s3.phase == Idle)
  {
    s1 := s.(phase := if user in s.store && s.store[user].version >= s.counter
                      then UsingCap(s.counter, s.cached) else VersionRead(s.counter));
    s2 := if s1.phase.UsingCap? then s1 else s1.(phase := RowRead(s1.phase.start, |s1.rows| - 1));
    s3 := s2;
    if !s1.phase.UsingCap? {
      var (store, error) := Loaded(s2.store, user, Answers(s2.phase.start, s2.rows[s2.phase.row], day, day));
      s3 := if error.Some? then s2.(phase := Idle)
            else s2.(store := store, cached := s2.phase.row, phase := UsingCap(s2.phase.start, s2.phase.row));
    }
  }

  /** After any run, a change that is written and announced before a call is the cap the call uses. */
  lemma ChangeIsUsed(run: seq<State>, user: string, cap: real, day: int,
                     s1: State, s2: State, t1: State, t2: State, t3: State)
    requires IsRun(run, user) && run[|run| - 1].phase == Idle && cap > 0.0
    requires WriteRow(run[|run| - 1], s1, Cap(cap)) && BumpFor(s1, s2, |run[|run| - 1].rows|)
    requires Begin(s2, t1, user) && (t1.phase.VersionRead? ==> Load(t1, t2) && Stamp(t2, t3, user, day))
    ensures t1.phase.VersionRead? && t3.phase.UsingCap? && user in t3.store && t3.store[user].cap == cap
  {
    RunKeepsInv(run, user, |run| - 1);
  }

  /** A stamp is honest: the cached cap is never older than the row as of the counter it is stamped with. */
  lemma StampIsHonest(run: seq<State>, user: string, i: nat)
    requires IsRun(run, user) && i < |run| && user in run[i].store
    ensures
      var s := run[i];
      && s.store[user].version <= s.counter
      && 0 <= s.cached < |s.rows| && s.rows[s.cached] == Cap(s.store[user].cap)
      && s.store[user].version < |s.rowAt| && s.rowAt[s.store[user].version] <= s.cached
  {
    RunKeepsInv(run, user, i);
  }
}
