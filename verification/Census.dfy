/**
  The gate's run over the collected paths: scan every path, count distinct files, decide
  the exit code. Resolving a path to the file it names and scanning it are inputs.
 */
module Census {

  const MIN_SCANNED_FILES: nat := 250

  /** A scan that ran to completion, one that could not read the file, or a fault of the gate itself. */
  datatype Scan = Completed(violations: seq<string>) | Incomplete(violations: seq<string>) | GateFault

  /** The identity of a file on disk. */
  type File = nat

  /** One collected path: the file it resolves to and what happens when the gate looks at it.
      Several paths may resolve to one file and fare differently. */
  datatype PathEntry = PathEntry(identity: File, exempt: bool, scan: Scan)

  datatype Tally = Tally(distinct: nat, scanned: nat, unscannable: nat, exempt: nat)

  // ----- what the run means, over the bag of collected paths -----

  type Bag = multiset<PathEntry>

  predicate IsScanned(e: PathEntry) { !e.exempt && e.scan.Completed? }

  predicate IsUnread(e: PathEntry) { !e.exempt && e.scan.Incomplete? }

  predicate IsFault(e: PathEntry) { !e.exempt && e.scan.GateFault? }

  predicate HasFinding(e: PathEntry) { !e.exempt && !e.scan.GateFault? && e.scan.violations != [] }

  /** The files the directory scan contributed. */
  ghost function Files(bag: Bag, explicit: set<File>): set<File> {
    set e | e in bag && e.identity !in explicit :: e.identity
  }

  ghost function ScannedFiles(bag: Bag, explicit: set<File>): set<File> {
    set e | e in bag && e.identity !in explicit && IsScanned(e) :: e.identity
  }

  ghost function UnreadFiles(bag: Bag, explicit: set<File>): set<File> {
    set e | e in bag && e.identity !in explicit && IsUnread(e) :: e.identity
  }

  ghost function ExemptFiles(bag: Bag, explicit: set<File>): set<File> {
    set e | e in bag && e.identity !in explicit && e.exempt :: e.identity
  }

  /** The gate refuses to report: collection failed, too little was collected or scanned, or it faulted. */
  ghost predicate Refuses(bag: Bag, isDirectoryRun: bool, explicit: set<File>) {
    || (exists e | e in bag :: IsFault(e))
    || (isDirectoryRun && (|bag| < MIN_SCANNED_FILES || |ScannedFiles(bag, explicit)| < MIN_SCANNED_FILES))
  }

  ghost function ExitCode(bag: Bag, isDirectoryRun: bool, explicit: set<File>): nat {
    if Refuses(bag, isDirectoryRun, explicit) then 2
    else if exists e | e in bag :: HasFinding(e) then 1
    else 0
  }

  lemma CountsPartition(exempt: set<File>, scanned: set<File>, unread: set<File>)
    ensures |scanned| + |unread - scanned| + |exempt - scanned - unread| == |exempt + scanned + unread|
  {
    var a, b, c := scanned, unread - scanned, exempt - scanned - unread;
    assert exempt + scanned + unread == a + b + c;
    assert |a + b| == |a| + |b|;
    assert |a + b + c| == |a + b| + |c|;
  }

  /** `collected` is absent when the scan roots could not be collected at all. */
  datatype Collected = RootError | Paths(paths: seq<PathEntry>)

  /** Exit 2 if collection failed, a path that is not exempt makes the gate fault, or a directory run scanned
      fewer than 250 distinct files of the directory to the end; else 1 if a path that is not exempt has a
      violation; else 0. Each file the directory scan contributed is counted once: as scanned if any of its
      spellings was, else as unreadable if any was, else as exempt. */
  method Run(collected: Collected, isDirectoryRun: bool, explicit: set<File>)
    returns (code: nat, tally: Tally, completed: bool)
    ensures collected.RootError? ==> code == 2 && !completed
    ensures collected.Paths? ==> code == ExitCode(multiset(collected.paths), isDirectoryRun, explicit)
    ensures collected.Paths? ==>
              var scanned := set e | e in collected.paths && e.identity !in explicit
                                     && !e.exempt && e.scan.Completed? :: e.identity;
              && (code == 2 <==> || (exists e | e in collected.paths :: !e.exempt && e.scan.GateFault?)
                                 || (isDirectoryRun && |scanned| < 250))
              && (code == 1 <==> && code != 2
                                 && exists e | e in collected.paths ::
                                      !e.exempt && !e.scan.GateFault? && e.scan.violations != [])
              && code <= 2
    ensures collected.Paths? ==>
              (completed <==> && !(isDirectoryRun && |collected.paths| < 250)
                              && forall e | e in collected.paths :: e.exempt || !e.scan.GateFault?)
    ensures completed ==> collected.Paths?
    ensures completed ==>
              var scanned := set e | e in collected.paths && e.identity !in explicit
                                     && !e.exempt && e.scan.Completed? :: e.identity;
              var unread := set e | e in collected.paths && e.identity !in explicit
                                    && !e.exempt && e.scan.Incomplete? :: e.identity;
              var exempt := set e | e in collected.paths && e.identity !in explicit && e.exempt :: e.identity;
              var all := set e | e in collected.paths && e.identity !in explicit :: e.identity;
              && tally == Tally(|all|, |scanned|, |unread - scanned|, |exempt - scanned - unread|)
              && tally.scanned + tally.unscannable + tally.exempt == tally.distinct
  {
    tally, completed := Tally(0, 0, 0, 0), false;
    if collected.RootError? {
      return 2, tally, false;
    }
    var paths := collected.paths;
    BagOfPaths(paths, explicit);
    FilesFewerThanPaths(multiset(paths), explicit);
    if isDirectoryRun && |paths| < MIN_SCANNED_FILES {
      return 2, tally, false;
    }
    var seen, fault := ScanAll(paths, explicit);
    if fault {
      return 2, tally, false;
    }
    tally := Tally(|seen.exempt + seen.scanned + seen.failed|, |seen.scanned|,
                   |seen.failed - seen.scanned|, |seen.exempt - seen.scanned - seen.failed|);
    CountsPartition(seen.exempt, seen.scanned, seen.failed);
    FilesSplit(multiset(paths), explicit);
    completed := true;
    if isDirectoryRun && |seen.scanned| < MIN_SCANNED_FILES {
      code := 2;
    } else {
      code := if seen.findings then 1 else 0;
    }
  }

  /** What is said about the bag is said about the paths. */
  lemma BagOfPaths(paths: seq<PathEntry>, explicit: set<File>)
    ensures
      var bag := multiset(paths);
      && |bag| == |paths| && (forall e :: e in bag <==> e in paths)
      && Files(bag, explicit) == (set e | e in paths && e.identity !in explicit :: e.identity)
      && ScannedFiles(bag, explicit)
         == (set e | e in paths && e.identity !in explicit && !e.exempt && e.scan.Completed? :: e.identity)
      && UnreadFiles(bag, explicit)
         == (set e | e in paths && e.identity !in explicit && !e.exempt && e.scan.Incomplete? :: e.identity)
      && ExemptFiles(bag, explicit) == (set e | e in paths && e.identity !in explicit && e.exempt :: e.identity)
  {
    assert forall e :: e in multiset(paths) <==> e in paths;
  }

  lemma FilesSplit(bag: Bag, explicit: set<File>)
    requires forall e | e in bag :: !IsFault(e)
    ensures Files(bag, explicit)
         == ExemptFiles(bag, explicit) + ScannedFiles(bag, explicit) + UnreadFiles(bag, explicit)
  {
    forall e | e in bag && e.identity !in explicit
      ensures e.identity in ExemptFiles(bag, explicit) + ScannedFiles(bag, explicit) + UnreadFiles(bag, explicit)
    {
      assert e.exempt || IsScanned(e) || IsUnread(e);
    }
  }

  datatype Seen = Seen(findings: bool, exempt: set<File>, scanned: set<File>, failed: set<File>)

  ghost predicate IsSeen(s: Seen, bag: Bag, explicit: set<File>) {
    && s.exempt == ExemptFiles(bag, explicit)
    && s.scanned == ScannedFiles(bag, explicit)
    && s.failed == UnreadFiles(bag, explicit)
    && (s.findings <==> exists e | e in bag :: HasFinding(e))
  }

  function Own(e: PathEntry, explicit: set<File>): set<File> {
    if e.identity in explicit then {} else {e.identity}
  }

  lemma OneMoreExempt(bag: Bag, e: PathEntry, explicit: set<File>)
    ensures ExemptFiles(bag + multiset{e}, explicit)
         == if e.exempt then ExemptFiles(bag, explicit) + Own(e, explicit) else ExemptFiles(bag, explicit)
  {
  }

  lemma OneMoreScanned(bag: Bag, e: PathEntry, explicit: set<File>)
    ensures ScannedFiles(bag + multiset{e}, explicit)
         == if IsScanned(e) then ScannedFiles(bag, explicit) + Own(e, explicit) else ScannedFiles(bag, explicit)
  {
  }

  lemma OneMoreUnread(bag: Bag, e: PathEntry, explicit: set<File>)
    ensures UnreadFiles(bag + multiset{e}, explicit)
         == if IsUnread(e) then UnreadFiles(bag, explicit) + Own(e, explicit) else UnreadFiles(bag, explicit)
  {
  }

  /** What looking at one more path adds. Findings count from everywhere; files named explicitly on
      the command line are left out of the counting only. */
  function Saw(seen: Seen, e: PathEntry, explicit: set<File>): Seen
    requires !IsFault(e)
  {
    var own := Own(e, explicit);
    if e.exempt then seen.(exempt := seen.exempt + own)
    else
      var found := seen.(findings := seen.findings || e.scan.violations != []);
      if e.scan.Completed? then found.(scanned := seen.scanned + own) else found.(failed := seen.failed + own)
  }

  lemma SawOne(seen: Seen, bag: Bag, e: PathEntry, explicit: set<File>)
    requires IsSeen(seen, bag, explicit) && !IsFault(e)
    ensures IsSeen(Saw(seen, e, explicit), bag + multiset{e}, explicit)
  {
    OneMoreExempt(bag, e, explicit);
    OneMoreScanned(bag, e, explicit);
    OneMoreUnread(bag, e, explicit);
    assert (exists x | x in bag + multiset{e} :: HasFinding(x))
      <==> HasFinding(e) || exists x | x in bag :: HasFinding(x);
  }

  /** Every path that is not exempt is scanned, until the gate faults. */
  method ScanAll(paths: seq<PathEntry>, explicit: set<File>) returns (seen: Seen, fault: bool)
    ensures fault <==> exists e | e in multiset(paths) :: IsFault(e)
    ensures !fault ==> IsSeen(seen, multiset(paths), explicit)
  {
    seen, fault := Seen(false, {}, {}, {}), false;
    ghost var bag: Bag := multiset{};
    for i := 0 to |paths|
      invariant bag == multiset(paths[..i])
      invariant IsSeen(seen, bag, explicit)
      invariant forall e | e in bag :: !IsFault(e)
    {
      assert paths[..i + 1] == paths[..i] + [paths[i]];
      if IsFault(paths[i]) {
        assert paths[i] in multiset(paths);
        return seen, true;
      }
      SawOne(seen, bag, paths[i], explicit);
      bag := bag + multiset{paths[i]};
      seen := Saw(seen, paths[i], explicit);
    }
    assert paths[..|paths|] == paths;
  }

  /** A directory run exits 0 exactly when at least 250 distinct files of the directory were completely
      scanned, nothing faulted and no path gave a finding. */
  lemma CleanDirectoryRun(bag: Bag, explicit: set<File>)
    ensures ExitCode(bag, true, explicit) == 0
       <==> && |ScannedFiles(bag, explicit)| >= MIN_SCANNED_FILES
            && forall e | e in bag :: !IsFault(e) && !HasFinding(e)
  {
    FilesFewerThanPaths(bag, explicit);
  }

  /** Distinct scanned files never outnumber the collected paths, so the first floor is implied by the second. */
  lemma {:induction false} FilesFewerThanPaths(bag: Bag, explicit: set<File>)
    ensures |ScannedFiles(bag, explicit)| <= |bag|
  {
    if bag != multiset{} {
      var e :| e in bag;
      FilesFewerThanPaths(bag - multiset{e}, explicit);
      var fewer := ScannedFiles(bag - multiset{e}, explicit);
      assert ScannedFiles(bag, explicit) <= fewer + {e.identity};
      SubsetSize(ScannedFiles(bag, explicit), fewer + {e.identity});
    }
  }

  lemma {:induction false} SubsetSize(a: set<File>, b: set<File>)
    requires a <= b
    ensures |a| <= |b|
  {
    assert b == a + (b - a);
    assert |a + (b - a)| == |a| + |b - a|;
  }
}
