/**
  The crash-safe replacement of a file: temporary sibling, write, fsync, rename, directory fsync.
  The file system keeps a cached and a durable directory and knows which file contents have reached
  the disk. Every call may fail, an interrupt may arrive anywhere, and the machine may lose power after
  any step.
 */
module AtomicWrite {
  import opened Wrappers

  datatype Name = Target | Temp

  /** The file that was there, if any, and the one being written. */
  datatype Inode = OldFile | NewFile

  datatype File = File(content: string, synced: bool)

  datatype Progress =
    | Starting
    | Created            // the temporary file exists, the cleanup does not guard it yet
    | Writing            // inside the guarded block, the temporary file is open
    | Closed             // its contents are on disk
    | Replaced           // the rename has happened
    | Cleaning           // an exception is on its way out
    | Returned(durable: bool)
    | Raised

  /** `original` is the target's content when the call started. */
  datatype State = State(
    original: Option<string>,
    content: string,
    progress: Progress,
    files: map<Inode, File>,
    dir: map<Name, Inode>,
    disk: map<Name, Inode>)

  datatype DirSync = Synced | Suppressed | Failed

  datatype Step =
    | MakeTemp(ok: bool)
    | EnterGuard
    | WriteSome(length: nat)      // the buffer is written out piece by piece
    | FlushAndSync(ok: bool)
    | Replace(ok: bool)
    | SyncDirectory(outcome: DirSync)
    | Interrupt
    | Unlink(ok: bool)
    | WriteBack(name: Name)       // the system writes a directory entry to disk when it likes

  function Start(original: Option<string>, content: string): State {
    var entries := if original.Some? then map[Target := OldFile] else map[];
    var files := if original.Some? then map[OldFile := File(original.value, true)] else map[];
    State(original, content, Starting, files, entries, entries)
  }

  function WrittenBack(s: State, name: Name): map<Name, Inode> {
    if name in s.dir then s.disk[name := s.dir[name]] else s.disk - {name}
  }

  /** An error from the directory fsync is ignored, anything else is not. */
  function DirectorySynced(s: State, outcome: DirSync): State {
    match outcome
    case Synced => s.(progress := Returned(true), disk := s.dir)
    case Suppressed => s.(progress := Returned(false))
    case Failed => s.(progress := Cleaning)
  }

  /** An interrupt inside the guarded block starts the cleanup; before the block, or in the cleanup itself,
      it ends the call. */
  function Interrupted(progress: Progress): Progress {
    match progress
    case Writing => Cleaning
    case Closed => Cleaning
    case Replaced => Cleaning
    case Returned(_) => progress
    case _ => Raised
  }

  function Apply(s: State, step: Step): State {
    match step
    case MakeTemp(ok) =>
      if !s.progress.Starting? then s
      else if !ok then s.(progress := Raised)
      else s.(progress := Created, dir := s.dir[Temp := NewFile], files := s.files[NewFile := File("", false)])
    case EnterGuard =>
      if s.progress.Created? then s.(progress := Writing) else s
    case WriteSome(length) =>
      if s.progress.Writing? && length <= |s.content|
      then s.(files := s.files[NewFile := File(s.content[..length], false)]) else s
    case FlushAndSync(ok) =>
      if !s.progress.Writing? then s
      else if !ok then s.(progress := Cleaning)
      else s.(progress := Closed, files := s.files[NewFile := File(s.content, true)])
    case Replace(ok) =>
      if !s.progress.Closed? then s
      else if !ok then s.(progress := Cleaning)
      else s.(progress := Replaced, dir := s.dir[Target := NewFile] - {Temp})
    case SyncDirectory(outcome) =>
      if !s.progress.Replaced? then s else DirectorySynced(s, outcome)
    case Interrupt => s.(progress := Interrupted(s.progress))
    case Unlink(ok) =>
      if !s.progress.Cleaning? then s
      else if Temp in s.dir && !ok then s.(progress := Raised)
      else s.(progress := Raised, dir := s.dir - {Temp})
    case WriteBack(name) => s.(disk := WrittenBack(s, name))
  }

  function After(original: Option<string>, content: string, run: seq<Step>): State {
    if run == [] then Start(original, content)
    else Apply(After(original, content, run[..|run| - 1]), run[|run| - 1])
  }

  // ----- what is seen -----

  /** A file that is not there, one with definite content, or one whose content did not reach the disk. */
  datatype Sight = Absent | Whole(content: string) | Unknown

  /** What a reader sees now. */
  function Seen(s: State, name: Name): Sight {
    if name in s.dir && s.dir[name] in s.files then Whole(s.files[s.dir[name]].content) else Absent
  }

  /** What is there after the power comes back. */
  function Surviving(s: State, name: Name): Sight {
    if name !in s.disk then Absent
    else if s.disk[name] in s.files && s.files[s.disk[name]].synced then Whole(s.files[s.disk[name]].content)
    else Unknown
  }

  function OldSight(s: State): Sight {
    match s.original case Some(content) => Whole(content) case None => Absent
  }

  // ----- the invariant -----

  predicate IsOld(s: State, entries: map<Name, Inode>) {
    if s.original.Some? then Target in entries && entries[Target] == OldFile else Target !in entries
  }

  predicate IsNew(entries: map<Name, Inode>) {
    Target in entries && entries[Target] == NewFile
  }

  /** The rename has happened. */
  predicate HasReplaced(s: State) { IsNew(s.dir) }

  ghost predicate Inv(s: State) {
    && (s.original.Some? ==> OldFile in s.files && s.files[OldFile] == File(s.original.value, true))
    && (HasReplaced(s) || IsOld(s, s.dir))
    && (IsOld(s, s.disk) || (HasReplaced(s) && IsNew(s.disk)))
    && (HasReplaced(s) || s.progress.Closed? ==> NewFile in s.files && s.files[NewFile] == File(s.content, true))
    && (Temp in s.dir ==> !HasReplaced(s) && NewFile in s.files && s.dir[Temp] == NewFile)
    && match s.progress
       case Starting => !HasReplaced(s) && Temp !in s.dir
       case Created => Temp in s.dir
       case Writing => Temp in s.dir
       case Closed => Temp in s.dir
       case Replaced => HasReplaced(s)
       case Cleaning => HasReplaced(s) || Temp in s.dir
       case Returned(durable) => HasReplaced(s) && (durable ==> IsNew(s.disk))
       case Raised => true
  }

  lemma WriteBackKeepsInv(s: State, name: Name)
    requires Inv(s)
    ensures Inv(s.(disk := WrittenBack(s, name)))
  {
  }

  lemma WritingKeepsInv(s: State, step: Step)
    requires Inv(s) && (step.MakeTemp? || step.EnterGuard? || step.WriteSome? || step.FlushAndSync?)
    ensures Inv(Apply(s, step))
  {
  }

  lemma RenamingKeepsInv(s: State, step: Step)
    requires Inv(s) && (step.Replace? || step.SyncDirectory?)
    ensures Inv(Apply(s, step))
  {
  }

  lemma ApplyKeepsInv(s: State, step: Step)
    requires Inv(s)
    ensures Inv(Apply(s, step)) && Apply(s, step).original == s.original && Apply(s, step).content == s.content
  {
    if step.WriteBack? {
      WriteBackKeepsInv(s, step.name);
    } else if step.Replace? || step.SyncDirectory? {
      RenamingKeepsInv(s, step);
    } else if !step.Interrupt? && !step.Unlink? {
      WritingKeepsInv(s, step);
    }
  }

  lemma {:induction false} RunKeepsInv(original: Option<string>, content: string, run: seq<Step>)
    ensures Inv(After(original, content, run))
    ensures After(original, content, run).original == original && After(original, content, run).content == content
  {
    if run != [] {
      RunKeepsInv(original, content, run[..|run| - 1]);
      ApplyKeepsInv(After(original, content, run[..|run| - 1]), run[|run| - 1]);
    }
  }

  // ----- the temporary file -----

  /** The steps after which nothing will remove the temporary file. */
  predicate Abandons(s: State, step: Step) {
    || (s.progress.Created? && step.Interrupt?)
    || (s.progress.Cleaning? && !HasReplaced(s) && (step.Interrupt? || step == Unlink(false)))
  }

  ghost predicate AbandonsAt(original: Option<string>, content: string, run: seq<Step>, i: int) {
    0 <= i < |run| && Abandons(After(original, content, run[..i]), run[i])
  }

  ghost predicate IsAbandoned(original: Option<string>, content: string, run: seq<Step>) {
    exists i :: AbandonsAt(original, content, run, i)
  }

  lemma AbandonsAtPrefix(original: Option<string>, content: string, run: seq<Step>, i: int)
    requires 0 <= i < |run| - 1
    ensures AbandonsAt(original, content, run, i) <==> AbandonsAt(original, content, run[..|run| - 1], i)
  {
    assert run[..|run| - 1][..i] == run[..i];
  }

  lemma AbandonedByOneMore(original: Option<string>, content: string, run: seq<Step>)
    requires run != []
    ensures IsAbandoned(original, content, run)
       <==> (IsAbandoned(original, content, run[..|run| - 1]) || AbandonsAt(original, content, run, |run| - 1))
  {
    var shorter := run[..|run| - 1];
    if i :| AbandonsAt(original, content, run, i) && i < |run| - 1 {
      AbandonsAtPrefix(original, content, run, i);
      assert AbandonsAt(original, content, shorter, i);
    }
    if i :| AbandonsAt(original, content, shorter, i) {
      AbandonsAtPrefix(original, content, run, i);
      assert AbandonsAt(original, content, run, i);
    }
  }

  lemma LeavesTempByOneMore(s: State, step: Step)
    requires Inv(s)
    ensures Apply(s, step).progress.Raised? && Temp in Apply(s, step).dir
       <==> ((s.progress.Raised? && Temp in s.dir) || Abandons(s, step))
  {
  }

  lemma {:induction false} LeavesTemp(original: Option<string>, content: string, run: seq<Step>)
    ensures
      var s := After(original, content, run);
      s.progress.Raised? && Temp in s.dir <==> IsAbandoned(original, content, run)
  {
    if run != [] {
      LeavesTemp(original, content, run[..|run| - 1]);
      RunKeepsInv(original, content, run[..|run| - 1]);
      LeavesTempByOneMore(After(original, content, run[..|run| - 1]), run[|run| - 1]);
      AbandonedByOneMore(original, content, run);
    }
  }

  // ----- the theorem -----

  /** After every step of every run: readers see, and a power loss leaves, the whole old file or the whole
      new one. A normal return means readers see the new one, and no temporary file is left; if the
      directory fsync succeeded the new file also survives. An exception leaves a temporary file exactly
      when an interrupt fell between its creation and the guarded block, or, before the rename, the
      cleanup's unlink failed or was interrupted. */
  lemma OldOrNew(original: Option<string>, content: string, run: seq<Step>)
    ensures
      var s := After(original, content, run);
      && (Seen(s, Target) == OldSight(s) || Seen(s, Target) == Whole(content))
      && (Surviving(s, Target) == OldSight(s) || Surviving(s, Target) == Whole(content))
      && (s.progress.Returned? ==> Seen(s, Target) == Whole(content) && Temp !in s.dir)
      && (s.progress == Returned(true) ==> Surviving(s, Target) == Whole(content))
      && (s.progress.Raised? ==>
            (Temp in s.dir <==> exists i :: AbandonsAt(original, content, run, i)))
  {
    RunKeepsInv(original, content, run);
    LeavesTemp(original, content, run);
  }

  predicate Succeeds(step: Step) {
    match step
    case MakeTemp(ok) => ok
    case FlushAndSync(ok) => ok
    case Replace(ok) => ok
    case SyncDirectory(outcome) => outcome.Synced?
    case Interrupt => false
    case _ => true
  }

  /** No exception is on its way, and no return without the directory fsync. */
  predicate IsGoingWell(progress: Progress) {
    !progress.Cleaning? && !progress.Raised? && progress != Returned(false)
  }

  /** How far the call has got, if nothing went wrong. */
  function Stage(progress: Progress): nat {
    match progress
    case Starting => 0
    case Created => 1
    case Writing => 2
    case Closed => 3
    case Replaced => 4
    case _ => 5
  }

  /** The system call that takes a call from one stage to the next. */
  predicate IsNextCall(stage: nat, step: Step) {
    match stage
    case 0 => step.MakeTemp?
    case 1 => step.EnterGuard?
    case 2 => step.FlushAndSync?
    case 3 => step.Replace?
    case 4 => step.SyncDirectory?
    case _ => false
  }

  /** Where every call succeeds, nothing is raised or cleaned up, each call takes the next stage, and the end
      is a durable return of the new content. */
  lemma {:induction false} SuccessReturns(original: Option<string>, content: string, run: seq<Step>)
    requires forall step | step in run :: Succeeds(step)
    ensures
      var s := After(original, content, run);
      && IsGoingWell(s.progress)
      && (s.progress.Returned? ==> s.progress == Returned(true) && Surviving(s, Target) == Whole(content))
      && forall step | Succeeds(step) ::
           Stage(Apply(s, step).progress) == Stage(s.progress) + if IsNextCall(Stage(s.progress), step) then 1 else 0
  {
    OldOrNew(original, content, run);
    if run != [] {
      assert run[|run| - 1] in run;
      SuccessReturns(original, content, run[..|run| - 1]);
      SuccessAdvances(After(original, content, run[..|run| - 1]), run[|run| - 1]);
    }
    var s := After(original, content, run);
    forall step | Succeeds(step)
      ensures Stage(Apply(s, step).progress)
           == Stage(s.progress) + if IsNextCall(Stage(s.progress), step) then 1 else 0
    {
      SuccessAdvances(s, step);
    }
  }

  lemma SuccessAdvances(s: State, step: Step)
    requires Succeeds(step) && IsGoingWell(s.progress)
    ensures IsGoingWell(Apply(s, step).progress)
    ensures Stage(Apply(s, step).progress) == Stage(s.progress) + if IsNextCall(Stage(s.progress), step) then 1 else 0
  {
  }

  /** A call that fails inside the guarded block starts the cleanup, without touching any file or name, and
      the cleanup ends in an exception; if its unlink succeeds the temporary file is gone. */
  lemma FailureRaises(s: State, step: Step, ok: bool)
    requires Inv(s) && 2 <= Stage(s.progress) <= 4
    requires || step.Interrupt?
             || (IsNextCall(Stage(s.progress), step) && !Succeeds(step) && step != SyncDirectory(Suppressed))
    ensures
      var failed := Apply(s, step);
      var raised := Apply(failed, Unlink(ok));
      && failed.progress.Cleaning? && failed.files == s.files && failed.dir == s.dir && failed.disk == s.disk
      && raised.progress.Raised? && raised.files == s.files && raised.disk == s.disk
      && (forall name :: name != Temp ==> Seen(raised, name) == Seen(s, name))
      && (ok ==> Temp !in raised.dir)
  {
  }

  /** The directory fsync is what makes a return durable: without it a power loss can bring the old file back. */
  lemma SuppressedSyncMayLose(original: Option<string>, content: string)
    ensures
      var s := After(original, content, UnsyncedRun());
      s.progress == Returned(false) && Surviving(s, Target) == OldSight(s)
  {
    var run := UnsyncedRun();
    assert run[..4][..3] == run[..3] && run[..3][..2] == run[..2] && run[..2][..1] == run[..1] && run[..1][..0] == [];
    var s1 := Apply(Start(original, content), run[0]);
    assert After(original, content, run[..1]) == s1;
    assert After(original, content, run[..2]) == Apply(s1, run[1]);
    assert After(original, content, run[..3]) == Apply(Apply(s1, run[1]), run[2]);
    assert After(original, content, run[..4]) == Apply(Apply(Apply(s1, run[1]), run[2]), run[3]);
  }

  function UnsyncedRun(): seq<Step> {
    [MakeTemp(true), EnterGuard, FlushAndSync(true), Replace(true), SyncDirectory(Suppressed)]
  }
}
