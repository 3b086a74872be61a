/**
 Which primary zones are reported as changed (`AuthorityCatalog::reload`,
 `take_changed_zones` and the task that sends the NOTIFYs): reloads one at a
 time under their lock, takes at any moment, and a stored wake-up.
 */
module SerialReports {

  type Serials = map<string, nat>

  /** The zones of `built` that are new or have another serial than in `was`. */
  function Differing(was: Serials, built: Serials): set<string> {
    set z | z in built && (z !in was || was[z] != built[z])
  }

  class Reports {
    /** The serials of the catalog being served, and those the bookkeeping holds. */
    var served: Serials
    var serials: Serials
    var changed: set<string>
    var wake: bool

    /** A reload that built a catalog with the serials `built`; `rest` is whether what follows the swap of the catalog works. */
    method Reload(built: Serials, rest: bool) returns (ok: bool)
      modifies this
      ensures served == built && ok == rest
      ensures serials == if rest then built else old(serials)
      ensures changed == old(changed) + if rest then Differing(old(serials), built) else {}
      ensures wake == (old(wake) || (rest && Differing(old(serials), built) != {}))
      ensures forall z | rest && z in built && (z !in old(serials) || old(serials)[z] != built[z]) :: z in changed && wake
      ensures forall z | z in changed && z !in old(changed) ::
                rest && z in built && (z !in old(serials) || old(serials)[z] != built[z])
      ensures wake && !old(wake) ==>
                rest && exists z :: z in built && (z !in old(serials) || old(serials)[z] != built[z])
    {
      served := built;
      if !rest {
        return false;
      }
      var differing := set z | z in built && (z !in serials || serials[z] != built[z]);
      assert forall z | z in built && (z !in serials || serials[z] != built[z]) :: z in differing;
      serials := built;
      if differing != {} {
        changed := changed + differing;
        wake := true;
      }
      return true;
    }

    method TakeChangedZones() returns (zones: set<string>)
      modifies this
      ensures zones == old(changed) && changed == {}
      ensures served == old(served) && serials == old(serials) && wake == old(wake)
    {
      zones := changed;
      changed := {};
    }
  }

  // ---- The interleaved protocol ----------------------------------------------------

  /**
   A reload holds the reload lock from building to the end: the catalog is stored, the
   serials swapped, then the changed zones added, then the wake-up sent.
   */
  datatype Reloading =
    | Idle
    | Built(built: Serials)
    | Stored(built: Serials)
    | Swapped(differing: set<string>)
    | Added

  /** The task that sends NOTIFYs: asleep, or woken and about to take. */
  datatype Taker = Asleep | Woken

  /** A reload completed with these serials, one gave up with these served, or a take returned these zones. */
  datatype Event = Completed(serials: Serials) | GaveUp(serials: Serials) | Took(zones: set<string>)

  datatype State = State(served: Serials, serials: Serials, changed: set<string>, wake: bool,
                         reloading: Reloading, taker: Taker, log: seq<Event>)

  datatype Step =
    | Build(built: Serials)
    | BuildFails
    | Store
    | GiveUp
    | Swap
    | Add
    | Finish
    | Wake
    | Take

  ghost predicate Next(s: State, step: Step, s': State) {
    match step
    // Whatever the store holds now, signed or not.
    case Build(built) => s.reloading.Idle? && s' == s.(reloading := Built(built))
    case BuildFails => s.reloading.Idle? && s' == s
    case Store => s.reloading.Built? && s' == s.(served := s.reloading.built, reloading := Stored(s.reloading.built))
    // An error after the catalog was stored: it is served, and the bookkeeping left as it was.
    case GiveUp => s.reloading.Stored? && s' == s.(reloading := Idle, log := s.log + [GaveUp(s.served)])
    case Swap =>
      && s.reloading.Stored?
      && s' == s.(serials := s.reloading.built, reloading := Swapped(Differing(s.serials, s.reloading.built)))
    case Add =>
      && s.reloading.Swapped?
      && s' == s.(changed := s.changed + s.reloading.differing,
                  reloading := if s.reloading.differing == {} then Idle else Added,
                  log := s.log + [Completed(s.serials)])
    case Finish => s.reloading.Added? && s' == s.(wake := true, reloading := Idle)
    case Wake => s.taker.Asleep? && s.wake && s' == s.(wake := false, taker := Woken)
    case Take =>
      && s.taker.Woken?
      && s' == s.(changed := {}, taker := Asleep, log := s.log + [Took(s.changed)])
  }

  predicate Init(s: State) {
    s.served == s.serials && s.changed == {} && !s.wake && s.reloading.Idle? && s.taker.Asleep? && s.log == []
  }

  ghost predicate IsRun(run: seq<State>, steps: seq<Step>) {
    && |run| == |steps| + 1
    && Init(run[0])
    && forall i | 0 <= i < |steps| :: Next(run[i], steps[i], run[i + 1])
  }

  // ---- Reading the log ---------------------------------------------------------------

  /** The serials of the last reload completed in `log`, `first` if none. */
  function LastCompleted(log: seq<Event>, first: Serials): Serials {
    if log == [] then first
    else
      match log[|log| - 1]
      case Completed(serials) => serials
      case GaveUp(_) => LastCompleted(log[..|log| - 1], first)
      case Took(_) => LastCompleted(log[..|log| - 1], first)
  }

  /** The serials of the last catalog stored in `log`, whether its reload completed or not. */
  function LastStored(log: seq<Event>, first: Serials): Serials {
    if log == [] then first
    else
      match log[|log| - 1]
      case Completed(serials) => serials
      case GaveUp(serials) => serials
      case Took(_) => LastStored(log[..|log| - 1], first)
  }

  /** `log` up to and including its last take, empty if there is none. */
  function UpToTake(log: seq<Event>): (prefix: seq<Event>)
    ensures prefix <= log
  {
    if log == [] then []
    else if log[|log| - 1].Took? then log
    else UpToTake(log[..|log| - 1])
  }

  /** Some reload after `from` completed with `z` new or changed since the one before it. */
  predicate SeenDiffering(log: seq<Event>, first: Serials, from: nat, z: string) {
    exists i :: from <= i < |log| && log[i].Completed? && z in log[i].serials
             && (z !in LastCompleted(log[..i], first) || LastCompleted(log[..i], first)[z] != log[i].serials[z])
  }

  // ---- The invariant -------------------------------------------------------------------

  ghost predicate ReportInv(first: Serials, s: State) {
    var last := LastCompleted(s.log, first);
    var base := LastCompleted(UpToTake(s.log), first);
    && (s.reloading.Swapped? ==> s.reloading.differing == Differing(last, s.serials))
    && (!s.reloading.Swapped? ==> s.serials == last)
    && Differing(base, last) <= s.changed
    && (forall z | z in s.changed :: SeenDiffering(s.log, first, |UpToTake(s.log)|, z))
    && (s.changed != {} ==> s.wake || s.taker.Woken? || s.reloading.Added?)
  }

  ghost predicate ServedInv(first: Serials, s: State) {
    match s.reloading
    case Stored(built) => s.served == built
    case Swapped(_) => s.served == s.serials
    case _ => s.served == LastStored(s.log, first)
  }

  ghost predicate Inv(first: Serials, s: State) {
    ReportInv(first, s) && ServedInv(first, s)
  }

  lemma SeenInLonger(log: seq<Event>, e: Event, first: Serials, from: nat, z: string)
    requires SeenDiffering(log, first, from, z)
    ensures SeenDiffering(log + [e], first, from, z)
  {
    var i :| from <= i < |log| && log[i].Completed? && z in log[i].serials
          && (z !in LastCompleted(log[..i], first) || LastCompleted(log[..i], first)[z] != log[i].serials[z]);
    assert (log + [e])[..i] == log[..i] && (log + [e])[i] == log[i];
  }

  /** What one more event does to the readings of the log. */
  lemma OneMoreEvent(log: seq<Event>, e: Event, first: Serials)
    ensures LastCompleted(log + [e], first) == if e.Completed? then e.serials else LastCompleted(log, first)
    ensures LastStored(log + [e], first) == if e.Took? then LastStored(log, first) else e.serials
    ensures UpToTake(log + [e]) == if e.Took? then log + [e] else UpToTake(log)
  {
    assert (log + [e])[..|log|] == log;
  }

  lemma SeenAtLast(log: seq<Event>, first: Serials, from: nat, serials: Serials, z: string)
    requires from <= |log| && z in Differing(LastCompleted(log, first), serials)
    ensures SeenDiffering(log + [Completed(serials)], first, from, z)
  {
    var longer := log + [Completed(serials)];
    assert longer[..|log|] == log && longer[|log|].Completed?;
  }

  lemma AddKeepsInv(first: Serials, s: State, s': State)
    requires Inv(first, s) && Next(s, Add, s')
    ensures Inv(first, s')
  {
    var last, base, from := LastCompleted(s.log, first), LastCompleted(UpToTake(s.log), first), |UpToTake(s.log)|;
    OneMoreEvent(s.log, Completed(s.serials), first);
    DifferingThen(base, last, s.serials);
    forall z | z in s'.changed
      ensures SeenDiffering(s'.log, first, from, z)
    {
      if z in s.changed {
        SeenInLonger(s.log, Completed(s.serials), first, from, z);
      } else {
        SeenAtLast(s.log, first, from, s.serials, z);
      }
    }
  }

  lemma DifferingThen(a: Serials, b: Serials, c: Serials)
    ensures Differing(a, c) <= Differing(a, b) + Differing(b, c)
  {
  }

  lemma GiveUpKeepsInv(first: Serials, s: State, s': State)
    requires Inv(first, s) && Next(s, GiveUp, s')
    ensures Inv(first, s')
  {
    OneMoreEvent(s.log, GaveUp(s.served), first);
    forall z | z in s'.changed
      ensures SeenDiffering(s'.log, first, |UpToTake(s.log)|, z)
    {
      SeenInLonger(s.log, GaveUp(s.served), first, |UpToTake(s.log)|, z);
    }
  }

  lemma TakeKeepsInv(first: Serials, s: State, s': State)
    requires Inv(first, s) && Next(s, Take, s')
    ensures Inv(first, s')
  {
    OneMoreEvent(s.log, Took(s.changed), first);
    NothingDiffers(LastCompleted(s'.log, first));
  }

  lemma NothingDiffers(a: Serials)
    ensures Differing(a, a) == {}
  {
  }

  lemma StepKeepsInv(first: Serials, s: State, step: Step, s': State)
    requires Inv(first, s) && Next(s, step, s')
    ensures Inv(first, s')
  {
    match step
    case Add => AddKeepsInv(first, s, s');
    case GiveUp => GiveUpKeepsInv(first, s, s');
    case Take => TakeKeepsInv(first, s, s');
    case _ =>
  }

  lemma {:induction false} RunKeepsInv(run: seq<State>, steps: seq<Step>, n: nat)
    requires IsRun(run, steps) && n < |run|
    ensures Inv(run[0].serials, run[n])
    decreases n
  {
    if n > 0 {
      RunKeepsInv(run, steps, n - 1);
      StepKeepsInv(run[0].serials, run[n - 1], steps[n - 1], run[n]);
    }
  }

  // ---- What every interleaving guarantees ------------------------------------------------

  /**
   A take returns every zone that the last reload completed before it has, and the last
   one completed before the previous take has not or has under another serial; and only
   zones that some reload in between saw as new or changed.
   */
  lemma TakeReportsChanges(run: seq<State>, steps: seq<Step>, n: nat)
    requires IsRun(run, steps) && n < |steps| && steps[n] == Take
    ensures var first, log := run[0].serials, run[n].log;
            var zones, was, last := run[n].changed, LastCompleted(UpToTake(log), first), LastCompleted(log, first);
            && run[n + 1].log == log + [Took(zones)]
            && (forall z | z in last && (z !in was || was[z] != last[z]) :: z in zones)
            && (forall z | z in zones :: SeenDiffering(log, first, |UpToTake(log)|, z))
  {
    RunKeepsInv(run, steps, n);
    assert Next(run[n], steps[n], run[n + 1]);
  }

  /** No take from `i` to `n`. */
  predicate NoTake(steps: seq<Step>, i: nat, n: nat)
    requires n <= |steps|
  {
    forall k | i <= k < n :: steps[k] != Take
  }

  lemma {:induction false} SinceTake(run: seq<State>, steps: seq<Step>, m: nat, n: nat)
    requires IsRun(run, steps) && m < n <= |steps| && steps[m] == Take && NoTake(steps, m + 1, n)
    ensures UpToTake(run[n].log) == run[m].log + [Took(run[m].changed)]
    decreases n
  {
    var before := n - 1;
    assert Next(run[before], steps[before], run[n]);
    OneMoreEvent(run[before].log, Took(run[before].changed), run[0].serials);
    OneMoreEvent(run[before].log, Completed(run[before].serials), run[0].serials);
    OneMoreEvent(run[before].log, GaveUp(run[before].served), run[0].serials);
    if m < before {
      SinceTake(run, steps, m, before);
    }
  }

  /**
   The same on the bookkeeping itself: of two takes with none in between, the later one
   returns every zone whose serial in the bookkeeping was absent or another at the
   earlier one (neither of them between a reload's swap and its noting of what changed).
   */
  lemma SecondTakeReports(run: seq<State>, steps: seq<Step>, m: nat, n: nat, z: string)
    requires IsRun(run, steps) && m < n < |steps| && steps[m] == Take && steps[n] == Take && NoTake(steps, m + 1, n)
    requires !run[m].reloading.Swapped? && !run[n].reloading.Swapped?
    requires z in run[n].serials && (z !in run[m].serials || run[m].serials[z] != run[n].serials[z])
    ensures z in run[n].changed
  {
    RunKeepsInv(run, steps, m);
    RunKeepsInv(run, steps, n);
    SinceTake(run, steps, m, n);
    OneMoreEvent(run[m].log, Took(run[m].changed), run[0].serials);
    TakeReportsChanges(run, steps, n);
  }

  /** No change waits unnoticed: a wake-up is stored, on its way, or the taker is about to take. */
  lemma NoLostWakeUp(run: seq<State>, steps: seq<Step>, n: nat)
    requires IsRun(run, steps) && n < |run| && run[n].changed != {}
    ensures run[n].wake || run[n].taker.Woken? || run[n].reloading.Added?
  {
    RunKeepsInv(run, steps, n);
  }

  /**
   Between reloads, what is served differs from what the bookkeeping holds, so that a
   zone is served under a serial no take reports, if and only if the last reload that
   stored a catalog gave up and its serials differ from the last completed reload's.
   */
  lemma ServedAsRecordedExactly(run: seq<State>, steps: seq<Step>, n: nat)
    requires IsRun(run, steps) && n < |run| && run[n].reloading.Idle?
    ensures var first, log := run[0].serials, run[n].log;
            run[n].served != run[n].serials <==> LastStored(log, first) != LastCompleted(log, first)
    ensures run[n].served != run[n].serials ==> LastReloadGaveUp(run[n].log)
  {
    RunKeepsInv(run, steps, n);
    StoredIsCompleted(run[n].log, run[0].serials);
  }

  /** The last reload in `log` that stored a catalog gave up. */
  predicate LastReloadGaveUp(log: seq<Event>) {
    exists i | 0 <= i < |log| :: log[i].GaveUp? && forall j | i < j < |log| :: log[j].Took?
  }

  lemma GaveUpStays(log: seq<Event>)
    requires log != [] && log[|log| - 1].Took? && LastReloadGaveUp(log[..|log| - 1])
    ensures LastReloadGaveUp(log)
  {
    var n := |log| - 1;
    var i :| 0 <= i < n && log[..n][i].GaveUp? && forall j | i < j < n :: log[..n][j].Took?;
    assert log[i].GaveUp? && forall j | i < j < n :: log[j] == log[..n][j];
  }

  lemma {:induction false} StoredIsCompleted(log: seq<Event>, first: Serials)
    ensures !LastReloadGaveUp(log) ==> LastStored(log, first) == LastCompleted(log, first)
    decreases |log|
  {
    if log != [] {
      var n := |log| - 1;
      if log[n].Took? {
        StoredIsCompleted(log[..n], first);
        if LastReloadGaveUp(log[..n]) {
          GaveUpStays(log);
        }
      } else if log[n].GaveUp? {
        assert log[n].GaveUp?;
      }
    }
  }

  // ---- What wake-ups stand for -------------------------------------------------------------

  /** A stored wake-up was sent, and not used yet. */
  lemma {:induction false} WakeWasSent(run: seq<State>, steps: seq<Step>, n: nat) returns (m: nat)
    requires IsRun(run, steps) && n < |run| && run[n].wake
    ensures m < n && steps[m] == Finish && forall k | m < k < n :: steps[k] != Wake
    decreases n
  {
    var before := n - 1;
    assert Next(run[before], steps[before], run[n]);
    if steps[before] == Finish {
      m := before;
    } else {
      m := WakeWasSent(run, steps, before);
    }
  }

  /** A taker about to take was woken, and has not taken since. */
  lemma {:induction false} WokenByWake(run: seq<State>, steps: seq<Step>, n: nat) returns (m: nat)
    requires IsRun(run, steps) && n < |run| && run[n].taker.Woken?
    ensures m < n && steps[m] == Wake && forall k | m < k < n :: steps[k] != Take
    decreases n
  {
    var before := n - 1;
    assert Next(run[before], steps[before], run[n]);
    if steps[before] == Wake {
      m := before;
    } else {
      m := WokenByWake(run, steps, before);
    }
  }

  lemma {:induction false} AddedByAdd(run: seq<State>, steps: seq<Step>, n: nat) returns (m: nat)
    requires IsRun(run, steps) && n < |run| && run[n].reloading.Added?
    ensures m < n && steps[m] == Add && run[m].reloading.Swapped? && run[m].reloading.differing != {}
    ensures run[m + 1].changed == run[m].changed + run[m].reloading.differing
    ensures forall k | m < k < n :: !steps[k].Build?
    decreases n
  {
    var before := n - 1;
    assert Next(run[before], steps[before], run[n]);
    if steps[before] == Add {
      m := before;
    } else {
      m := AddedByAdd(run, steps, before);
    }
  }

  /**
   Every take follows a wake-up of its own, every wake-up was sent by a reload of its
   own, and that reload had just noted zones as changed.
   */
  lemma TakesAreAskedFor(run: seq<State>, steps: seq<Step>, n: nat)
    requires IsRun(run, steps) && n < |steps|
    ensures steps[n] == Take ==>
              exists m :: 0 <= m < n && steps[m] == Wake && forall k | m < k < n :: steps[k] != Take
    ensures steps[n] == Wake ==>
              exists m :: 0 <= m < n && steps[m] == Finish && forall k | m < k < n :: steps[k] != Wake
    ensures steps[n] == Finish ==> run[n + 1].wake && run[n + 1].reloading.Idle?
    ensures steps[n] == Finish ==>
              exists m :: 0 <= m < n && steps[m] == Add && run[m].reloading.Swapped? && run[m].reloading.differing != {}
                       && forall k | m < k < n :: !steps[k].Build?
  {
    assert Next(run[n], steps[n], run[n + 1]);
    if steps[n] == Take {
      var m := WokenByWake(run, steps, n);
    } else if steps[n] == Wake {
      var m := WakeWasSent(run, steps, n);
    } else if steps[n] == Finish {
      var m := AddedByAdd(run, steps, n);
    }
  }

  /** A reload that gives up after storing its catalog: served, and not to be reported. */
  lemma GivenUpIsUnreported(first: Serials, built: Serials) returns (run: seq<State>, steps: seq<Step>)
    requires built != first
    ensures IsRun(run, steps) && run[0].serials == first
    ensures run[|steps|].reloading.Idle? && run[|steps|].served == built
    ensures run[|steps|].serials == first && run[|steps|].changed == {} && !run[|steps|].wake
  {
    var s0 := State(first, first, {}, false, Idle, Asleep, []);
    var s1 := s0.(reloading := Built(built));
    var s2 := s1.(served := built, reloading := Stored(built));
    var s3 := s2.(reloading := Idle, log := [GaveUp(built)]);
    run, steps := [s0, s1, s2, s3], [Build(built), Store, GiveUp];
    assert s2.log + [GaveUp(s2.served)] == s3.log;
    assert IsRun(run, steps);
  }
}
