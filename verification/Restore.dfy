/**
 Staging a backup and putting it in place at start-up: sequences of file
 operations with a crash possible after each one (`stage_restore`,
 `cancel_restore` and `apply_pending_restore`).
 */
module Restore {
  import opened Addresses

  datatype Suffix = Wal | Shm | Journal

  /** The files around one database path. */
  datatype Path =
    | Database
    | Beside(suffix: Suffix)
    | Staged
    | Partial
    | Rejected
    | Aside(second: nat)
    | AsideBeside(second: nat, suffix: Suffix)

  /** Server data, a complete backup, or a copy cut short. */
  datatype Content = Data(n: nat) | Backup(n: nat) | Torn
  type Files = map<Path, Content>

  /** Renaming replaces the target. */
  function Rename(fs: Files, from: Path, to: Path): Files
    requires from in fs
  {
    (fs - {from})[to := fs[from]]
  }

  function MoveIfThere(fs: Files, from: Path, to: Path): Files {
    if from in fs then Rename(fs, from, to) else fs
  }

  const SUFFIXES: seq<Suffix> := [Wal, Shm, Journal]

  /** Journals `n..` moved aside, one state per file. */
  function MoveJournals(fs: Files, now: nat, n: nat): (trace: seq<Files>)
    requires n <= 3
    ensures |trace| == 4 - n && trace[0] == fs
    decreases 3 - n
  {
    if n == 3 then [fs]
    else [fs] + MoveJournals(MoveIfThere(fs, Beside(SUFFIXES[n]), AsideBeside(now, SUFFIXES[n])), now, n + 1)
  }

  /**
   The file system after each step of a start-up at second `now`; `ok` is
   whether the staged file checks out. A crash leaves one of these states.
   */
  function StartTrace(fs: Files, now: nat, ok: bool): (trace: seq<Files>)
    ensures |trace| >= 1 && trace[0] == fs
  {
    if Staged !in fs then [fs]
    else if !ok then [fs, Rename(fs, Staged, Rejected)]
    else
      var moved := MoveJournals(MoveIfThere(fs, Database, Aside(now)), now, 0);
      StagedStays(MoveIfThere(fs, Database, Aside(now)), now, 0);
      [fs] + moved + [Rename(moved[3], Staged, Database)]
  }

  lemma {:induction false} StagedStays(fs: Files, now: nat, n: nat)
    requires n <= 3 && Staged in fs
    ensures forall t | t in MoveJournals(fs, now, n) :: Staged in t && t[Staged] == fs[Staged]
    decreases 3 - n
  {
    if n < 3 {
      StagedStays(MoveIfThere(fs, Beside(SUFFIXES[n]), AsideBeside(now, SUFFIXES[n])), now, n + 1);
    }
  }

  /** The same file, or none, at `p` in both. */
  predicate SameFile(a: Files, b: Files, p: Path) {
    (p in a <==> p in b) && (p in a && p in b ==> a[p] == b[p])
  }

  /** The staged file that failed its check is kept under its other name, and nothing else changed. */
  ghost predicate SetRejected(a: Files, b: Files) {
    && Staged in a && Staged !in b && Rejected in b && b[Rejected] == a[Staged]
    && forall p | p != Staged && p != Rejected :: SameFile(a, b, p)
  }

  /** What is at `to` afterwards was at `from` before, or was at `to` if nothing was at `from`. */
  predicate Moved(a: Files, b: Files, from: Path, to: Path) {
    if from in a then to in b && b[to] == a[from] else SameFile(a, b, to)
  }

  /**
   The staged file is the database; the old database and its journals are set aside under
   this second, and nothing else changed.
   */
  ghost predicate PutInPlace(a: Files, b: Files, now: nat) {
    && Staged in a && Staged !in b && Database in b && b[Database] == a[Staged]
    && Moved(a, b, Database, Aside(now))
    && (forall s :: Beside(s) !in b && Moved(a, b, Beside(s), AsideBeside(now, s)))
    && SameFile(a, b, Partial) && SameFile(a, b, Rejected)
    && (forall p | IsAside(p) && p.second != now :: SameFile(a, b, p))
  }

  datatype Outcome = Nothing | RejectedRestore | Restored(aside: nat)

  class Disk {
    var files: Files

    /** Copy the checked backup next to the database, then rename it into place. */
    method StageRestore(backup: nat) returns (ghost trace: seq<Files>)
      modifies this
      ensures files == (old(files) - {Partial})[Staged := Backup(backup)]
      ensures forall t | t in trace :: t == files
                || (t - {Partial} == old(files) - {Partial} && Partial in t)
    {
      trace := [];
      files := files[Partial := Torn];
      trace := trace + [files];
      files := files[Partial := Backup(backup)];
      trace := trace + [files];
      files := Rename(files, Partial, Staged);
      trace := trace + [files];
    }

    method CancelRestore() returns (was: bool)
      modifies this
      ensures was <==> Staged in old(files)
      ensures files == old(files) - {Staged}
    {
      was := Staged in files;
      files := files - {Staged};
    }

    /** The steps as the code takes them; `trace` is what a crash could leave behind. */
    method ApplyPendingRestore(now: nat, ok: bool) returns (outcome: Outcome, ghost trace: seq<Files>)
      modifies this
      ensures trace == StartTrace(old(files), now, ok)
      ensures files == trace[|trace| - 1]
      ensures Staged !in old(files) ==> files == old(files) && trace == [old(files)]
      ensures Staged in old(files) && !ok ==> SetRejected(old(files), files) && trace == [old(files), files]
      ensures Staged in old(files) && ok ==> PutInPlace(old(files), files, now)
      ensures outcome == if Staged !in old(files) then Nothing else if !ok then RejectedRestore else Restored(now)
    {
      trace := [files];
      if Staged !in files {
        return Nothing, trace;
      }
      if !ok {
        files := Rename(files, Staged, Rejected);
        return RejectedRestore, trace + [files];
      }
      if Database in files {
        files := Rename(files, Database, Aside(now));
      }
      ghost var start := files;
      StagedStays(start, now, 0);
      ghost var moved := MoveJournals(start, now, 0);
      for n := 0 to 3
        invariant Staged in files
        invariant files == moved[n]
        invariant moved[n..] == MoveJournals(files, now, n)
      {
        if Beside(SUFFIXES[n]) in files {
          files := Rename(files, Beside(SUFFIXES[n]), AsideBeside(now, SUFFIXES[n]));
        }
        assert moved[n + 1..] == moved[n..][1..];
      }
      trace := trace + moved;
      files := Rename(files, Staged, Database);
      EndsInPlace(old(files), now);
      return Restored(now), trace + [files];
    }
  }

  // ---- One start-up, cut off anywhere ------------------------------------------

  predicate IsAside(p: Path) {
    p.Aside? || p.AsideBeside?
  }

  predicate SecondUnused(fs: Files, now: nat) {
    Aside(now) !in fs && forall s :: AsideBeside(now, s) !in fs
  }

  predicate AsidesKept(fs: Files, fs': Files) {
    forall p | p in fs && IsAside(p) :: p in fs' && fs'[p] == fs[p]
  }

  /** The states written out. */
  lemma FiveStates(fs: Files, now: nat)
    requires Staged in fs
    ensures var t := StartTrace(fs, now, true);
            var t1 := MoveIfThere(fs, Database, Aside(now));
            var t2 := MoveIfThere(t1, Beside(Wal), AsideBeside(now, Wal));
            var t3 := MoveIfThere(t2, Beside(Shm), AsideBeside(now, Shm));
            var t4 := MoveIfThere(t3, Beside(Journal), AsideBeside(now, Journal));
            && Staged in t4
            && t == [fs, t1, t2, t3, t4, Rename(t4, Staged, Database)]
  {
    var t1 := MoveIfThere(fs, Database, Aside(now));
    var t2 := MoveIfThere(t1, Beside(Wal), AsideBeside(now, Wal));
    var t3 := MoveIfThere(t2, Beside(Shm), AsideBeside(now, Shm));
    var t4 := MoveIfThere(t3, Beside(Journal), AsideBeside(now, Journal));
    assert MoveJournals(t4, now, 3) == [t4];
    assert MoveJournals(t3, now, 2) == [t3, t4];
    assert MoveJournals(t2, now, 1) == [t2, t3, t4];
    assert MoveJournals(t1, now, 0) == [t1, t2, t3, t4];
  }

  lemma JournalPlaced(fs: Files, now: nat, s: Suffix)
    requires Staged in fs
    ensures |StartTrace(fs, now, true)| == 6
    ensures var t := StartTrace(fs, now, true)[5]; Beside(s) !in t && Moved(fs, t, Beside(s), AsideBeside(now, s))
  {
    FiveStates(fs, now);
    match s
    case Wal =>
    case Shm =>
    case Journal =>
  }

  /** A start-up with a good staged file that runs to its end. */
  lemma EndsInPlace(fs: Files, now: nat)
    requires Staged in fs
    ensures |StartTrace(fs, now, true)| == 6 && PutInPlace(fs, StartTrace(fs, now, true)[5], now)
  {
    FiveStates(fs, now);
    var t := StartTrace(fs, now, true);
    forall s
      ensures Beside(s) !in t[5] && Moved(fs, t[5], Beside(s), AsideBeside(now, s))
    {
      JournalPlaced(fs, now, s);
    }
  }

  /** `t`, reached from `fs` by moving files aside at `now`, has lost nothing set aside nor the database. */
  predicate CarriedOver(fs: Files, t: Files, now: nat) {
    && AsidesKept(fs, t)
    && (forall p | p in t && p !in fs && IsAside(p) :: p.second == now)
    && (Database in fs ==>
          || (Database in t && t[Database] == fs[Database])
          || (Aside(now) in t && t[Aside(now)] == fs[Database]))
  }

  lemma MovedDatabase(fs: Files, now: nat)
    requires SecondUnused(fs, now)
    ensures var t := MoveIfThere(fs, Database, Aside(now));
            CarriedOver(fs, t, now) && Database !in t && forall s :: AsideBeside(now, s) !in t
  {
  }

  lemma MovedJournal(fs: Files, t: Files, now: nat, s: Suffix)
    requires SecondUnused(fs, now) && CarriedOver(fs, t, now) && Database !in t
    ensures var t' := MoveIfThere(t, Beside(s), AsideBeside(now, s));
            && CarriedOver(fs, t', now) && Database !in t' && Beside(s) !in t'
            && (forall r | r != s :: Beside(r) in t' <==> Beside(r) in t)
  {
  }

  lemma MovedStaged(fs: Files, t: Files, now: nat)
    requires CarriedOver(fs, t, now) && Database !in t && Staged in t
    ensures CarriedOver(fs, Rename(t, Staged, Database), now)
  {
  }

  lemma StatesCarryOver(fs: Files, now: nat)
    requires SecondUnused(fs, now) && Staged in fs
    ensures forall t | t in StartTrace(fs, now, true) :: CarriedOver(fs, t, now)
    ensures forall s :: Beside(s) !in StartTrace(fs, now, true)[4]
  {
    FiveStates(fs, now);
    var t := StartTrace(fs, now, true);
    MovedDatabase(fs, now);
    MovedJournal(fs, t[1], now, Wal);
    MovedJournal(fs, t[2], now, Shm);
    MovedJournal(fs, t[3], now, Journal);
    MovedStaged(fs, t[4], now);
  }

  /**
   Wherever a start-up is cut off, what was set aside before stays, nothing
   else appears aside but under this second, and the old database is at its
   path or set aside.
   */
  lemma StartUpCutOff(fs: Files, now: nat, ok: bool, n: nat)
    requires SecondUnused(fs, now) && n < |StartTrace(fs, now, ok)|
    ensures CarriedOver(fs, StartTrace(fs, now, ok)[n], now)
  {
    if Staged in fs && ok {
      StatesCarryOver(fs, now);
      assert StartTrace(fs, now, ok)[n] in StartTrace(fs, now, ok);
    }
  }

  /**
   The staged backup stays staged through every step but the last; that one
   puts it at the database path, with no journal left beside it.
   */
  lemma RestoreArrivesClean(fs: Files, now: nat, n: nat)
    requires Staged in fs && n < |StartTrace(fs, now, true)|
    ensures |StartTrace(fs, now, true)| == 6
    ensures var t := StartTrace(fs, now, true)[n];
            if n < 5 then Staged in t && t[Staged] == fs[Staged]
            else Staged !in t && Database in t && t[Database] == fs[Staged] && forall s :: Beside(s) !in t
  {
    FiveStates(fs, now);
    var t1 := MoveIfThere(fs, Database, Aside(now));
    StagedStays(t1, now, 0);
    var trace := StartTrace(fs, now, true);
    assert trace == [fs] + MoveJournals(t1, now, 0) + [trace[5]];
    if 1 <= n < 5 {
      assert trace[n] in MoveJournals(t1, now, 0);
    }
    assert trace[4] in MoveJournals(t1, now, 0);
    EndsInPlace(fs, now);
  }

  // ---- Start-ups, crashes and a running server ------------------------------------

  /** `clock` is the second of the last start-up; `copying` the backup being staged. */
  datatype State = State(files: Files, clock: nat, running: bool, copying: set<nat>)

  datatype Step =
    // A start-up at a later second that gets through `done` of its steps; then it
    // crashes, or the server runs, also after a step that failed.
    | StartUp(now: nat, ok: bool, done: nat, runs: bool)
    // The running server writes its database, or makes or drops a journal.
    | Write(n: nat)
    | WriteBeside(suffix: Suffix, n: nat)
    | DropBeside(suffix: Suffix)
    // Staging a backup that checked out: copy begun, copy done, renamed.
    | CopyBegins(n: nat)
    | CopyDone(n: nat)
    | Stage(n: nat)
    | Cancel
    // The server stops or crashes.
    | Stop

  ghost predicate Next(s: State, step: Step, s': State) {
    match step
    case StartUp(now, ok, done, runs) =>
      var trace := StartTrace(s.files, now, ok);
      !s.running && s.clock < now && done < |trace| && s' == State(trace[done], now, runs, {})
    case Write(n) => s.running && s' == s.(files := s.files[Database := Data(n)])
    case WriteBeside(suffix, n) => s.running && s' == s.(files := s.files[Beside(suffix) := Data(n)])
    case DropBeside(suffix) => s.running && s' == s.(files := s.files - {Beside(suffix)})
    case CopyBegins(n) =>
      s.running && s.copying == {} && s' == s.(files := s.files[Partial := Torn], copying := {n})
    case CopyDone(n) =>
      s.running && s.copying == {n} && s' == s.(files := s.files[Partial := Backup(n)])
    case Stage(n) =>
      && s.running && s.copying == {n} && Partial in s.files && s.files[Partial] == Backup(n)
      && s' == s.(files := Rename(s.files, Partial, Staged), copying := {})
    case Cancel => s.running && s' == s.(files := s.files - {Staged})
    case Stop => s.running && s' == s.(running := false, copying := {})
  }

  ghost predicate IsRun(run: seq<State>, steps: seq<Step>) {
    && |run| == |steps| + 1
    && (forall p | p in run[0].files :: !IsAside(p) && p != Staged)
    && forall i | 0 <= i < |steps| :: Next(run[i], steps[i], run[i + 1])
  }

  ghost predicate Inv(s: State) {
    && (forall p | p in s.files && IsAside(p) :: p.second <= s.clock)
    && (Staged in s.files ==> s.files[Staged].Backup?)
  }

  lemma StepKeepsInv(s: State, step: Step, s': State)
    requires Inv(s) && Next(s, step, s')
    ensures Inv(s') && AsidesKept(s.files, s'.files)
  {
    if step.StartUp? {
      StartUpCutOff(s.files, step.now, step.ok, step.done);
      if Staged in s.files && step.ok {
        RestoreArrivesClean(s.files, step.now, step.done);
      }
    }
  }

  lemma {:induction false} RunKeepsInv(run: seq<State>, steps: seq<Step>, n: nat)
    requires IsRun(run, steps) && n < |run|
    ensures Inv(run[n])
    decreases n
  {
    if n > 0 {
      RunKeepsInv(run, steps, n - 1);
      StepKeepsInv(run[n - 1], steps[n - 1], run[n]);
    }
  }

  /** The staged path only ever holds a fully copied, checked backup. */
  lemma StagedIsComplete(run: seq<State>, steps: seq<Step>, n: nat)
    requires IsRun(run, steps) && n < |run| && Staged in run[n].files
    ensures run[n].files[Staged].Backup?
  {
    RunKeepsInv(run, steps, n);
  }

  /** Whatever was set aside once stays there, untouched, for the rest of the run. */
  lemma {:induction false} SetAsideForEver(run: seq<State>, steps: seq<Step>, i: nat, j: nat, p: Path)
    requires IsRun(run, steps) && i <= j < |run| && IsAside(p) && p in run[i].files
    ensures p in run[j].files && run[j].files[p] == run[i].files[p]
    decreases j
  {
    if i < j {
      SetAsideForEver(run, steps, i, j - 1, p);
      RunKeepsInv(run, steps, j - 1);
      StepKeepsInv(run[j - 1], steps[j - 1], run[j]);
    }
  }

  /** From `a` to `b` only the file at `p` changed: it holds `c`, or is gone. */
  ghost predicate OnlyAt(a: Files, b: Files, p: Path, c: Option<Content>) {
    && (if c.Some? then p in b && b[p] == c.value else p !in b)
    && forall q | q != p :: SameFile(a, b, q)
  }

  /** What a running server's steps do to the files; a stopped one does nothing to them. */
  lemma StepWrites(run: seq<State>, steps: seq<Step>, n: nat)
    requires IsRun(run, steps) && n < |steps|
    ensures var a, b := run[n].files, run[n + 1].files;
      match steps[n]
      case StartUp(_, _, _, runs) => !run[n].running && run[n + 1].running == runs
      case Write(c) => run[n].running && OnlyAt(a, b, Database, Some(Data(c)))
      case WriteBeside(suffix, c) => run[n].running && OnlyAt(a, b, Beside(suffix), Some(Data(c)))
      case DropBeside(suffix) => run[n].running && OnlyAt(a, b, Beside(suffix), None)
      case CopyBegins(_) => run[n].running && OnlyAt(a, b, Partial, Some(Torn))
      case CopyDone(c) => run[n].running && OnlyAt(a, b, Partial, Some(Backup(c)))
      case Stage(c) =>
        && run[n].running && Staged in b && b[Staged] == Backup(c) && Partial !in b
        && forall p | p != Staged && p != Partial :: SameFile(a, b, p)
      case Cancel => run[n].running && OnlyAt(a, b, Staged, None)
      case Stop => run[n].running && !run[n + 1].running && b == a
  {
    assert Next(run[n], steps[n], run[n + 1]);
  }

  /** Neither staged anew nor cancelled, nor tried by a start-up that ran to its end or found it bad. */
  predicate LeavesStaged(step: Step) {
    match step
    case StartUp(_, ok, done, _) => ok && done < 5
    case Stage(_) => false
    case Cancel => false
    case _ => true
  }

  lemma {:induction false} StaysStaged(run: seq<State>, steps: seq<Step>, i: nat, j: nat, n: nat)
    requires IsRun(run, steps) && i < j < |run| && steps[i] == Stage(n)
    requires forall k | i < k < j :: LeavesStaged(steps[k])
    ensures Staged in run[j].files && run[j].files[Staged] == Backup(n)
    decreases j
  {
    var before := j - 1;
    assert Next(run[before], steps[before], run[j]);
    if i < before {
      StaysStaged(run, steps, i, before, n);
      if steps[before].StartUp? {
        RestoreArrivesClean(run[before].files, steps[before].now, steps[before].done);
      }
    }
  }

  /**
   A backup that was staged is the database after the first start-up that finds it good
   and gets through all its steps, whatever happened to files and start-ups in between.
   */
  lemma StagedArrives(run: seq<State>, steps: seq<Step>, i: nat, j: nat, n: nat)
    requires IsRun(run, steps) && i < j < |steps| && steps[i] == Stage(n)
    requires forall k | i < k < j :: LeavesStaged(steps[k])
    requires steps[j].StartUp? && steps[j].ok && steps[j].done == 5
    ensures Database in run[j + 1].files && run[j + 1].files[Database] == Backup(n)
  {
    StaysStaged(run, steps, i, j, n);
    RestoredDatabaseIsClean(run, steps, j);
  }

  lemma {:induction false} StaysUnstaged(run: seq<State>, steps: seq<Step>, i: nat, j: nat)
    requires IsRun(run, steps) && i < j < |run| && steps[i] == Cancel
    requires forall k | i < k < j :: !steps[k].Stage?
    ensures Staged !in run[j].files
    decreases j
  {
    var before := j - 1;
    assert Next(run[before], steps[before], run[j]);
    if i < before {
      StaysUnstaged(run, steps, i, before);
    }
  }

  /** After a cancelled restore, and until another is staged, start-ups leave every file as it is. */
  lemma CancelledStaysAway(run: seq<State>, steps: seq<Step>, i: nat, j: nat)
    requires IsRun(run, steps) && i < j < |steps| && steps[i] == Cancel && steps[j].StartUp?
    requires forall k | i < k < j :: !steps[k].Stage?
    ensures run[j + 1].files == run[j].files
  {
    StaysUnstaged(run, steps, i, j);
    assert Next(run[j], steps[j], run[j + 1]);
  }

  ghost predicate SetAside(fs: Files, c: Content) {
    exists n :: Aside(n) in fs && fs[Aside(n)] == c
  }

  /**
   The database a stopped server left behind survives any number of start-ups,
   each cut off anywhere: it is at the database path or set aside, until the
   server runs again and writes to it, and for ever once it is set aside.
   */
  lemma {:induction false} OldDatabaseSurvives(run: seq<State>, steps: seq<Step>, i: nat, j: nat)
    requires IsRun(run, steps) && i <= j < |run| && Database in run[i].files
    requires forall k | i <= k < j :: !steps[k].Write?
    ensures var c := run[i].files[Database];
            (Database in run[j].files && run[j].files[Database] == c) || SetAside(run[j].files, c)
    decreases j
  {
    var c := run[i].files[Database];
    if i < j {
      OldDatabaseSurvives(run, steps, i, j - 1);
      var s, step, s' := run[j - 1], steps[j - 1], run[j];
      RunKeepsInv(run, steps, j - 1);
      StepKeepsInv(s, step, s');
      if SetAside(s.files, c) {
        var n :| Aside(n) in s.files && s.files[Aside(n)] == c;
        assert Aside(n) in s'.files;
      } else if step.StartUp? {
        StartUpCutOff(s.files, step.now, step.ok, step.done);
      }
    }
  }

  /**
   A start-up takes the staged file away exactly when it gets through all its steps: then
   the backup is the database and no journal is beside it. Otherwise, whether the server
   then runs or not, the backup stays staged for the next start-up.
   */
  lemma RestoredDatabaseIsClean(run: seq<State>, steps: seq<Step>, n: nat)
    requires IsRun(run, steps) && n < |steps| && steps[n].StartUp?
    requires Staged in run[n].files && steps[n].ok
    ensures Staged !in run[n + 1].files <==> steps[n].done == 5
    ensures Staged !in run[n + 1].files ==>
              && Database in run[n + 1].files && run[n + 1].files[Database] == run[n].files[Staged]
              && forall s :: Beside(s) !in run[n + 1].files
    ensures Staged in run[n + 1].files ==> run[n + 1].files[Staged] == run[n].files[Staged]
  {
    assert Next(run[n], steps[n], run[n + 1]);
    RestoreArrivesClean(run[n].files, steps[n].now, steps[n].done);
  }

  /** After which step a journal has been moved. */
  function Place(s: Suffix): nat {
    match s case Wal => 2 case Shm => 3 case Journal => 4
  }

  /**
   A start-up cut short leaves an old journal where the database is gone, and where a
   server that runs on creates a new one, exactly between the rename of the database
   and that of the journal.
   */
  lemma StrandedJournal(fs: Files, now: nat, n: nat, s: Suffix)
    requires Staged in fs && n < 5
    ensures |StartTrace(fs, now, true)| == 6
    ensures var t := StartTrace(fs, now, true)[n];
            Database !in t && Beside(s) in t <==> Beside(s) in fs && n < Place(s) && (n >= 1 || Database !in fs)
  {
    FiveStates(fs, now);
  }

  // ---- Where the journals end up ----------------------------------------------------

  lemma JournalMoves(fs: Files, now: nat, s: Suffix)
    requires Staged in fs && Beside(s) in fs
    ensures |StartTrace(fs, now, true)| == 6
    ensures var t := StartTrace(fs, now, true)[5];
            AsideBeside(now, s) in t && t[AsideBeside(now, s)] == fs[Beside(s)]
  {
    JournalPlaced(fs, now, s);
  }

  /**
   A journal moved aside sits beside the database it belongs to if and only if
   that database was still at its path when the start-up began: after a crash
   between the two renames it ends up under another second's name.
   */
  lemma JournalFollowsDatabase(fs: Files, now: nat, s: Suffix)
    requires SecondUnused(fs, now) && Staged in fs && Beside(s) in fs
    ensures var t := StartTrace(fs, now, true)[5];
            && t[AsideBeside(now, s)] == fs[Beside(s)]
            && (Aside(now) in t <==> Database in fs)
            && (Database in fs ==> t[Aside(now)] == fs[Database])
  {
    JournalMoves(fs, now, s);
    StatesCarryOver(fs, now);
    var t := StartTrace(fs, now, true);
    FiveStates(fs, now);
    assert t[4] in t && Database !in t[4] by {
      MovedDatabase(fs, now);
      MovedJournal(fs, t[1], now, Wal);
      MovedJournal(fs, t[2], now, Shm);
      MovedJournal(fs, t[3], now, Journal);
    }
  }

  /** A crash after the first rename separates a database from its write-ahead log. */
  lemma CrashSeparatesJournal(fs: Files, first: nat, second: nat)
    requires fs.Keys == {Database, Beside(Wal), Staged} && first < second
    ensures var crashed := StartTrace(fs, first, true)[1];
            var done := StartTrace(crashed, second, true)[5];
            && done[Aside(first)] == fs[Database] && AsideBeside(first, Wal) !in done
            && done[AsideBeside(second, Wal)] == fs[Beside(Wal)] && Aside(second) !in done
  {
    FiveStates(fs, first);
    FiveStates(StartTrace(fs, first, true)[1], second);
  }

  // ---- Why the seconds have to differ --------------------------------------------------

  /**
   A completed restore keeps everything set aside before if and only if no
   file it moves lands on a name already taken by something else.
   */
  lemma AsidesKeptExactly(fs: Files, now: nat)
    requires Staged in fs
    ensures AsidesKept(fs, StartTrace(fs, now, true)[5]) <==>
              && (Database in fs && Aside(now) in fs ==> fs[Aside(now)] == fs[Database])
              && (forall s | Beside(s) in fs && AsideBeside(now, s) in fs :: fs[AsideBeside(now, s)] == fs[Beside(s)])
  {
    FiveStates(fs, now);
    var t := StartTrace(fs, now, true);
    forall s | Beside(s) in fs
      ensures AsideBeside(now, s) in t[5] && t[5][AsideBeside(now, s)] == fs[Beside(s)]
    {
      JournalMoves(fs, now, s);
    }
    assert Database in fs ==> Aside(now) in t[5] && t[5][Aside(now)] == fs[Database];
  }
}
