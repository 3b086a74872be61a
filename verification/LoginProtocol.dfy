/**
 `auth_login` as a protocol between any number of concurrent attempts: check
 the throttle, wait for one of the password permits, check again, verify, and
 record the outcome while the permit is still held. Every step is one that
 other attempts can come between.
 */
module LoginProtocol {
  import opened Addresses
  import opened LoginThrottle

  const PERMITS: nat := 4

  /** Failures one window can ever hold. */
  const BURST: nat := MAX_FAILURES - 1 + PERMITS

  /**
   Queued: past the first check, waiting for a permit. Rechecking: permit just
   granted. Verifying: past the second check. Settled: outcome recorded,
   permit not yet returned.
   */
  datatype Phase = Queued | Rechecking | Verifying | Settled

  /** An attempt without a client address is never throttled or counted. */
  datatype Attempt = Attempt(ip: Option<IpAddr>, phase: Phase)

  /** What happened to an address's window, in order. */
  datatype Event = Failed(ip: IpAddr, at: nat) | Forgotten(ip: IpAddr)

  datatype State = State(table: Table, now: nat, attempts: map<nat, Attempt>, log: seq<Event>)

  datatype Step =
    | Tick(now: nat)
    | Arrive(id: nat, ip: Option<IpAddr>)
    | Acquire(id: nat)
    | Recheck(id: nat)
    | Fail(id: nat)
    | Succeed(id: nat)
    | Leave(id: nat)

  predicate In(s: State, id: nat, phase: Phase) {
    id in s.attempts && s.attempts[id].phase == phase
  }

  function Holders(s: State): set<nat> {
    set id | id in s.attempts && s.attempts[id].phase != Queued
  }

  function VerifyingFor(s: State, ip: IpAddr): set<nat> {
    set id | id in s.attempts && s.attempts[id] == Attempt(Some(ip), Verifying)
  }

  predicate Refused(s: State, ip: Option<IpAddr>) {
    ip.Some? && Throttled(s.table, ip.value, s.now)
  }

  function Enter(s: State, id: nat, a: Attempt): State {
    s.(attempts := s.attempts[id := a])
  }

  function Move(s: State, id: nat, phase: Phase): State
    requires id in s.attempts
  {
    Enter(s, id, s.attempts[id].(phase := phase))
  }

  function Gone(s: State, id: nat): State {
    s.(attempts := s.attempts - {id})
  }

  /** A failure from `ip` is recorded: the contract of `Throttle.RecordFailure`. */
  ghost predicate Records(s: State, ip: IpAddr, evicted: Option<IpAddr>, s': State) {
    && s'.now == s.now
    && WithinBounds(s'.table, s.now)
    && FailureCounted(Visible(s.table, s.now), ip, s.now, evicted, Visible(s'.table, s.now))
    && s'.log == s.log + Evictions(evicted) + [Failed(ip, s.now)]
  }

  function Evictions(evicted: Option<IpAddr>): seq<Event> {
    if evicted.Some? then [Forgotten(evicted.value)] else []
  }

  ghost predicate Next(s: State, step: Step, s': State) {
    match step
    case Tick(now) => s.now <= now && s' == s.(now := now)
    case Arrive(id, ip) => id !in s.attempts && !Refused(s, ip) && s' == Enter(s, id, Attempt(ip, Queued))
    case Acquire(id) => In(s, id, Queued) && |Holders(s)| < PERMITS && s' == Move(s, id, Rechecking)
    case Recheck(id) =>
      && In(s, id, Rechecking)
      && s' == (if Refused(s, s.attempts[id].ip) then Gone(s, id) else Move(s, id, Verifying))
    case Fail(id) =>
      && In(s, id, Verifying)
      && s'.attempts == Move(s, id, Settled).attempts
      && (match s.attempts[id].ip
          case None => s' == Move(s, id, Settled)
          case Some(ip) => exists evicted :: Records(s, ip, evicted, s'))
    case Succeed(id) =>
      && In(s, id, Verifying)
      && (match s.attempts[id].ip
          case None => s' == Move(s, id, Settled)
          case Some(ip) =>
            s' == Move(s, id, Settled).(table := s.table - {ip}, log := s.log + [Forgotten(ip)]))
    // The response is sent, an error ends the attempt, or the client went away.
    case Leave(id) => id in s.attempts && s' == Gone(s, id)
  }

  predicate Init(s: State) {
    s.table == map[] && s.attempts == map[] && s.log == []
  }

  ghost predicate IsRun(run: seq<State>, steps: seq<Step>) {
    && |run| == |steps| + 1
    && Init(run[0])
    && forall i | 0 <= i < |steps| :: Next(run[i], steps[i], run[i + 1])
  }

  // ---- The window as the log tells it -------------------------------------

  /** `ip`'s current window, replayed from the log without any table. */
  function Replay(log: seq<Event>, ip: IpAddr): (w: Option<Entry>)
  {
    if log == [] then None
    else
      var w := Replay(log[..|log| - 1], ip);
      match log[|log| - 1]
      case Forgotten(q) => if q == ip then None else w
      case Failed(q, at) =>
        if q != ip then w
        else if w.Some? && Live(w.value, at) then Some(Entry(w.value.count + 1, w.value.since))
        else Some(Entry(1, at))
  }

  function LiveWindow(w: Option<Entry>, now: nat): Option<Entry> {
    if w.Some? && Live(w.value, now) then w else None
  }

  function Lookup(t: Table, ip: IpAddr): Option<Entry> {
    if ip in t then Some(t[ip]) else None
  }

  /** Failures from `ip` logged at a time in `[from, to)`. */
  function FailuresIn(log: seq<Event>, ip: IpAddr, from: nat, to: nat): nat {
    if log == [] then 0
    else
      var e := log[|log| - 1];
      FailuresIn(log[..|log| - 1], ip, from, to)
      + if e.Failed? && e.ip == ip && from <= e.at < to then 1 else 0
  }

  // ---- The invariant -------------------------------------------------------

  ghost predicate BurstInv(s: State) {
    forall ip {:trigger VerifyingFor(s, ip)} :: LiveCount(s.table, ip, s.now) + |VerifyingFor(s, ip)| <= BURST
  }

  ghost predicate LogInv(s: State) {
    && (forall e | e in s.log && e.Failed? :: e.at <= s.now)
    && forall ip {:trigger Replay(s.log, ip)} :: LiveWindow(Replay(s.log, ip), s.now) == Lookup(Visible(s.table, s.now), ip)
  }

  ghost predicate Inv(s: State) {
    && |Holders(s)| <= PERMITS
    && WithinBounds(s.table, s.now)
    && BurstInv(s)
    && LogInv(s)
  }

  // ---- Permits -------------------------------------------------------------

  lemma HoldersStep(s: State, step: Step, s': State)
    requires |Holders(s)| <= PERMITS && Next(s, step, s')
    ensures |Holders(s')| <= PERMITS
  {
    match step
    case Acquire(id) =>
      assert Holders(s') == Holders(s) + {id};
    case _ =>
      assert Holders(s') <= Holders(s);
      SubsetSize(Holders(s'), Holders(s));
  }

  lemma VerifyingHold(s: State, ip: IpAddr)
    ensures |VerifyingFor(s, ip)| <= |Holders(s)|
  {
    SubsetSize(VerifyingFor(s, ip), Holders(s));
  }

  // ---- Each step keeps the burst bound ---------------------------------------

  lemma BurstStep(s: State, step: Step, s': State)
    requires Inv(s) && Next(s, step, s')
    ensures BurstInv(s')
  {
    HoldersStep(s, step, s');
    forall ip
      ensures LiveCount(s'.table, ip, s'.now) + |VerifyingFor(s', ip)| <= BURST
    {
      BurstStepFor(s, step, s', ip);
    }
  }

  lemma BurstStepFor(s: State, step: Step, s': State, ip: IpAddr)
    requires Inv(s) && Next(s, step, s') && |Holders(s')| <= PERMITS
    ensures LiveCount(s'.table, ip, s'.now) + |VerifyingFor(s', ip)| <= BURST
  {
    var before := VerifyingFor(s, ip);
    assert LiveCount(s.table, ip, s.now) + |before| <= BURST;
    match step
    case Recheck(id) => BurstRecheck(s, id, s', ip);
    case Fail(id) => BurstFail(s, id, s', ip);
    case _ => BurstOther(s, step, s', ip);
  }

  lemma BurstRecheck(s: State, id: nat, s': State, ip: IpAddr)
    requires Next(s, Recheck(id), s') && |Holders(s')| <= PERMITS
    requires LiveCount(s.table, ip, s.now) + |VerifyingFor(s, ip)| <= BURST
    ensures LiveCount(s'.table, ip, s'.now) + |VerifyingFor(s', ip)| <= BURST
  {
    if s.attempts[id].ip == Some(ip) && !Throttled(s.table, ip, s.now) {
      VerifyingHold(s', ip);
    } else {
      var before, after := VerifyingFor(s, ip), VerifyingFor(s', ip);
      assert after <= before;
      SubsetSize(after, before);
    }
  }

  lemma BurstFail(s: State, id: nat, s': State, ip: IpAddr)
    requires Next(s, Fail(id), s')
    requires LiveCount(s.table, ip, s.now) + |VerifyingFor(s, ip)| <= BURST
    ensures LiveCount(s'.table, ip, s'.now) + |VerifyingFor(s', ip)| <= BURST
  {
    VerifyingAfterFail(s, id, s', ip);
    if s.attempts[id].ip.Some? {
      FailureAddsOne(s, s.attempts[id].ip.value, ip, s');
    }
  }

  lemma VerifyingAfterFail(s: State, id: nat, s': State, ip: IpAddr)
    requires In(s, id, Verifying) && s'.attempts == Move(s, id, Settled).attempts
    ensures |VerifyingFor(s', ip)| == |VerifyingFor(s, ip)| - if s.attempts[id].ip == Some(ip) then 1 else 0
  {
    var before, after := VerifyingFor(s, ip), VerifyingFor(s', ip);
    if s.attempts[id].ip == Some(ip) {
      assert before == after + {id} && id !in after;
    } else {
      assert after == before;
    }
  }

  lemma BurstOther(s: State, step: Step, s': State, ip: IpAddr)
    requires Next(s, step, s') && !step.Recheck? && !step.Fail?
    requires LiveCount(s.table, ip, s.now) + |VerifyingFor(s, ip)| <= BURST
    ensures LiveCount(s'.table, ip, s'.now) + |VerifyingFor(s', ip)| <= BURST
  {
    var before, after := VerifyingFor(s, ip), VerifyingFor(s', ip);
    assert after <= before;
    SubsetSize(after, before);
  }

  lemma FailureAddsOne(s: State, failed: IpAddr, ip: IpAddr, s': State)
    requires exists evicted :: Records(s, failed, evicted, s')
    ensures LiveCount(s'.table, ip, s'.now) <= LiveCount(s.table, ip, s.now) + if ip == failed then 1 else 0
  {
    var evicted :| Records(s, failed, evicted, s');
    var v, v' := Visible(s.table, s.now), Visible(s'.table, s.now);
    assert ip in v' <==> ip in s'.table && Live(s'.table[ip], s.now);
    assert ip in v <==> ip in s.table && Live(s.table[ip], s.now);
  }

  // ---- Each step keeps the log in agreement with the table ---------------------

  lemma LogStep(s: State, step: Step, s': State)
    requires Inv(s) && Next(s, step, s')
    ensures WithinBounds(s'.table, s'.now) && LogInv(s')
  {
    match step
    case Tick(_) => LogLater(s, s');
    case Fail(id) =>
      if s.attempts[id].ip.Some? {
        LogFail(s, s.attempts[id].ip.value, s');
      } else {
        LogLater(s, s');
      }
    case Succeed(id) =>
      if s.attempts[id].ip.Some? {
        LogSucceed(s, s.attempts[id].ip.value, s');
      } else {
        LogLater(s, s');
      }
    case _ => LogLater(s, s');
  }

  /** Time passing alone leaves log and table in agreement. */
  lemma LogLater(s: State, s': State)
    requires WithinBounds(s.table, s.now) && LogInv(s)
    requires s'.table == s.table && s'.log == s.log && s.now <= s'.now
    ensures WithinBounds(s'.table, s'.now) && LogInv(s')
  {
    forall q
      ensures LiveWindow(Replay(s'.log, q), s'.now) == Lookup(Visible(s'.table, s'.now), q)
    {
      assert LiveWindow(Replay(s.log, q), s.now) == Lookup(Visible(s.table, s.now), q);
    }
  }

  lemma LogSucceed(s: State, ip: IpAddr, s': State)
    requires WithinBounds(s.table, s.now) && LogInv(s)
    requires s'.table == s.table - {ip} && s'.log == s.log + [Forgotten(ip)] && s'.now == s.now
    ensures WithinBounds(s'.table, s'.now) && LogInv(s')
  {
    SubsetSize(s'.table.Keys, s.table.Keys);
    forall q
      ensures LiveWindow(Replay(s'.log, q), s'.now) == Lookup(Visible(s'.table, s'.now), q)
    {
      assert LiveWindow(Replay(s.log, q), s.now) == Lookup(Visible(s.table, s.now), q);
      ForgottenReplay(s.log, ip, q);
      ForgottenLookup(s.table, ip, s.now, q);
    }
  }

  lemma ForgottenLookup(t: Table, ip: IpAddr, now: nat, q: IpAddr)
    ensures Lookup(Visible(t - {ip}, now), q) == if q == ip then None else Lookup(Visible(t, now), q)
  {
  }

  lemma ForgottenReplay(log: seq<Event>, ip: IpAddr, q: IpAddr)
    ensures Replay(log + [Forgotten(ip)], q) == if q == ip then None else Replay(log, q)
  {
    assert (log + [Forgotten(ip)])[..|log|] == log;
  }

  lemma LogFail(s: State, ip: IpAddr, s': State)
    requires WithinBounds(s.table, s.now) && LogInv(s) && exists evicted :: Records(s, ip, evicted, s')
    ensures WithinBounds(s'.table, s'.now) && LogInv(s')
  {
    var evicted :| Records(s, ip, evicted, s');
    forall q
      ensures LiveWindow(Replay(s'.log, q), s'.now) == Lookup(Visible(s'.table, s'.now), q)
    {
      assert LiveWindow(Replay(s.log, q), s.now) == Lookup(Visible(s.table, s.now), q);
      FailedReplay(s.log, ip, s.now, evicted, q);
      FailedLookup(Visible(s.table, s.now), ip, s.now, evicted, Visible(s'.table, s.now), q);
    }
  }

  /** The live window a failure of an address continues or opens. */
  function Counted(w: Option<Entry>, now: nat): Option<Entry> {
    if w.Some? then Some(Entry(w.value.count + 1, w.value.since)) else Some(Entry(1, now))
  }

  lemma FailedReplay(log: seq<Event>, ip: IpAddr, now: nat, evicted: Option<IpAddr>, q: IpAddr)
    ensures LiveWindow(Replay(log + Evictions(evicted) + [Failed(ip, now)], q), now) ==
              var w := if evicted == Some(q) then None else LiveWindow(Replay(log, q), now);
              if q == ip then Counted(w, now) else w
  {
    var mid := log + Evictions(evicted);
    assert (mid + [Failed(ip, now)])[..|mid|] == mid;
    if evicted.Some? {
      ForgottenReplay(log, evicted.value, q);
    } else {
      assert mid == log;
    }
  }

  lemma FailedLookup(v: Table, ip: IpAddr, now: nat, evicted: Option<IpAddr>, v': Table, q: IpAddr)
    requires FailureCounted(v, ip, now, evicted, v')
    ensures Lookup(v', q) ==
              var w := if evicted == Some(q) then None else Lookup(v, q);
              if q == ip then Counted(w, now) else w
  {
  }

  lemma StepKeepsInv(s: State, step: Step, s': State)
    requires Inv(s) && Next(s, step, s')
    ensures Inv(s')
  {
    HoldersStep(s, step, s');
    BurstStep(s, step, s');
    LogStep(s, step, s');
  }

  lemma {:induction false} RunKeepsInv(run: seq<State>, steps: seq<Step>, n: nat)
    requires IsRun(run, steps) && n < |run|
    ensures Inv(run[n])
    decreases n
  {
    if n == 0 {
      var s := run[0];
      assert Holders(s) == {};
      forall ip
        ensures VerifyingFor(s, ip) == {}
      {
      }
    } else {
      RunKeepsInv(run, steps, n - 1);
      StepKeepsInv(run[n - 1], steps[n - 1], run[n]);
    }
  }

  // ---- What every run guarantees ---------------------------------------------

  /**
   In every interleaving, one address never has more than 13 failures counted
   in one window, no more than four attempts hold a permit, and the table
   stays within its bound.
   */
  lemma BurstBound(run: seq<State>, steps: seq<Step>, n: nat, ip: IpAddr)
    requires IsRun(run, steps) && n < |run|
    ensures LiveCount(run[n].table, ip, run[n].now) <= BURST == 13
    ensures |Holders(run[n])| <= PERMITS
    ensures |run[n].table| <= MAX_TRACKED
  {
    RunKeepsInv(run, steps, n);
    assert |VerifyingFor(run[n], ip)| >= 0;
  }

  /**
   What an outcome does to the counts: a success leaves its address with none and no
   other address's changed; a failure adds one to its address's; an attempt without an
   address changes nothing.
   */
  lemma OutcomeCounted(run: seq<State>, steps: seq<Step>, n: nat, id: nat)
    requires IsRun(run, steps) && n < |steps| && (steps[n] == Succeed(id) || steps[n] == Fail(id))
    ensures id in run[n].attempts
    ensures run[n].attempts[id].ip.None? ==> run[n + 1].table == run[n].table && run[n + 1].log == run[n].log
    ensures run[n].attempts[id].ip.Some? && steps[n].Succeed? ==>
              var ip, now := run[n].attempts[id].ip.value, run[n].now;
              && LiveCount(run[n + 1].table, ip, now) == 0
              && forall q | q != ip :: LiveCount(run[n + 1].table, q, now) == LiveCount(run[n].table, q, now)
    ensures run[n].attempts[id].ip.Some? && steps[n].Fail? ==>
              var ip, now := run[n].attempts[id].ip.value, run[n].now;
              LiveCount(run[n + 1].table, ip, now) == LiveCount(run[n].table, ip, now) + 1
  {
    assert Next(run[n], steps[n], run[n + 1]);
    if run[n].attempts[id].ip.Some? && steps[n].Fail? {
      var evicted :| Records(run[n], run[n].attempts[id].ip.value, evicted, run[n + 1]);
      var v, v' := Visible(run[n].table, run[n].now), Visible(run[n + 1].table, run[n].now);
      var ip := run[n].attempts[id].ip.value;
      assert ip in v' <==> ip in run[n + 1].table && Live(run[n + 1].table[ip], run[n].now);
      assert ip in v <==> ip in run[n].table && Live(run[n].table[ip], run[n].now);
    }
  }

  /**
   No attempt gets past either check with ten failures of its address counted, a permit
   is only handed out while fewer than four are out, and no password is checked without.
   */
  lemma ChecksHold(run: seq<State>, steps: seq<Step>, n: nat, id: nat, ip: IpAddr)
    requires IsRun(run, steps) && n < |steps| && LiveCount(run[n].table, ip, run[n].now) >= 10
    ensures steps[n] != Arrive(id, Some(ip))
    ensures steps[n] == Recheck(id) && id in run[n].attempts && run[n].attempts[id].ip == Some(ip) ==>
              id !in run[n + 1].attempts
    ensures id in run[n].attempts && run[n].attempts[id] == Attempt(Some(ip), Verifying) && id in run[n + 1].attempts ==>
              run[n + 1].attempts[id].phase in {Verifying, Settled}
    ensures id in run[n + 1].attempts && run[n + 1].attempts[id] == Attempt(Some(ip), Verifying) ==>
              id in run[n].attempts && run[n].attempts[id] == Attempt(Some(ip), Verifying)
  {
    assert Next(run[n], steps[n], run[n + 1]);
  }

  /** A password that was checked can be right, and without an address wrong; either way the attempt is settled. */
  lemma OutcomesPossible(s: State, id: nat)
    requires In(s, id, Verifying)
    ensures exists s' :: Next(s, Succeed(id), s') && In(s', id, Settled)
    ensures s.attempts[id].ip.None? ==> exists s' :: Next(s, Fail(id), s') && In(s', id, Settled)
  {
    var moved := Move(s, id, Settled);
    assert In(moved, id, Settled);
    match s.attempts[id].ip
    case None => assert Next(s, Succeed(id), moved) && Next(s, Fail(id), moved);
    case Some(ip) =>
      var cleared := moved.(table := s.table - {ip}, log := s.log + [Forgotten(ip)]);
      assert Next(s, Succeed(id), cleared) && In(cleared, id, Settled);
  }

  /** An attempt goes through its phases in order, each by its own step. */
  lemma PhasesInOrder(run: seq<State>, steps: seq<Step>, n: nat, id: nat)
    requires IsRun(run, steps) && n < |steps| && id in run[n + 1].attempts
    ensures
      || (id in run[n].attempts && run[n + 1].attempts[id] == run[n].attempts[id])
      || (match run[n + 1].attempts[id].phase
          case Queued => id !in run[n].attempts && steps[n] == Arrive(id, run[n + 1].attempts[id].ip)
          case Rechecking => steps[n] == Acquire(id) && In(run[n], id, Queued) && |Holders(run[n])| < 4
          case Verifying => steps[n] == Recheck(id) && In(run[n], id, Rechecking)
          case Settled => (steps[n] == Fail(id) || steps[n] == Succeed(id)) && In(run[n], id, Verifying))
    ensures id in run[n].attempts ==> run[n].attempts[id].ip == run[n + 1].attempts[id].ip
  {
    assert Next(run[n], steps[n], run[n + 1]);
  }

  /** `ip` kept its entry: no sign-in from it succeeded and it was not evicted. */
  predicate Remembered(log: seq<Event>, ip: IpAddr) {
    Forgotten(ip) !in log
  }

  /** How `ip`'s logged failures sit in windows, seen from the interval `[a, a + WINDOW)`. */
  ghost predicate Tallied(log: seq<Event>, ip: IpAddr, a: nat) {
    var w := Replay(log, ip);
    var seen := FailuresIn(log, ip, a, a + WINDOW);
    if w.None? then forall e | e in log :: !(e.Failed? && e.ip == ip)
    else
      && w.value.count <= BURST
      && Failed(ip, w.value.since) in log
      && (forall e | e in log && e.Failed? && e.ip == ip :: e.at < w.value.since + WINDOW)
      && FailuresIn(log, ip, w.value.since, w.value.since + WINDOW) == w.value.count
      && seen <= (if w.value.since < a then w.value.count - 1
                  else if w.value.since < a + WINDOW then BURST - 1 + w.value.count
                  else 2 * BURST - 1)
  }

  lemma {:induction false} NoneIn(log: seq<Event>, ip: IpAddr, from: nat, to: nat)
    requires forall e | e in log && e.Failed? && e.ip == ip :: e.at < from
    ensures FailuresIn(log, ip, from, to) == 0
    decreases |log|
  {
    if log != [] {
      NoneIn(log[..|log| - 1], ip, from, to);
      assert log[|log| - 1] in log;
    }
  }

  /** Appending anything but a failure of `ip` (or its eviction) changes nothing. */
  lemma TalliedOther(log: seq<Event>, e: Event, ip: IpAddr, a: nat)
    requires Tallied(log, ip, a) && e.ip != ip
    ensures Tallied(log + [e], ip, a)
  {
    assert (log + [e])[..|log|] == log;
  }

  lemma TalliedFailure(log: seq<Event>, at: nat, ip: IpAddr, a: nat)
    requires Tallied(log, ip, a)
    requires forall e | e in log && e.Failed? :: e.at <= at
    requires Replay(log + [Failed(ip, at)], ip).value.count <= BURST
    ensures Tallied(log + [Failed(ip, at)], ip, a)
  {
    var longer := log + [Failed(ip, at)];
    assert longer[..|log|] == log;
    var w := Replay(log, ip);
    if w.None? || !Live(w.value, at) {
      NoneIn(log, ip, at, at + WINDOW);
      if at < a {
        NoneIn(log, ip, a, a + WINDOW);
      } else if w.None? {
        NoneIn(log, ip, a, a + WINDOW);
      }
    }
  }

  lemma {:induction false} RunTallied(run: seq<State>, steps: seq<Step>, n: nat, ip: IpAddr, a: nat)
    requires IsRun(run, steps) && n < |run| && Remembered(run[n].log, ip)
    ensures Tallied(run[n].log, ip, a)
    decreases n
  {
    if n > 0 {
      RunKeepsInv(run, steps, n - 1);
      RunKeepsInv(run, steps, n);
      LogOnlyGrows(run[n - 1], steps[n - 1], run[n]);
      assert Remembered(run[n - 1].log, ip);
      RunTallied(run, steps, n - 1, ip, a);
      StepTallied(run[n - 1], steps[n - 1], run[n], ip, a);
    }
  }

  lemma LogOnlyGrows(s: State, step: Step, s': State)
    requires Next(s, step, s')
    ensures s.log <= s'.log
  {
  }

  lemma StepTallied(s: State, step: Step, s': State, ip: IpAddr, a: nat)
    requires Inv(s) && Inv(s') && Next(s, step, s') && Tallied(s.log, ip, a) && Remembered(s'.log, ip)
    ensures Tallied(s'.log, ip, a)
  {
    if step.Fail? && s.attempts[step.id].ip.Some? {
      TalliedFail(s, s.attempts[step.id].ip.value, s', ip, a);
    } else if step.Succeed? && s.attempts[step.id].ip.Some? {
      var e := Forgotten(s.attempts[step.id].ip.value);
      assert s'.log == s.log + [e] && e in s'.log;
      TalliedOther(s.log, e, ip, a);
    } else {
      assert s'.log == s.log;
    }
  }

  lemma LoggedCountBound(s: State, ip: IpAddr)
    requires Inv(s)
    ensures var w := LiveWindow(Replay(s.log, ip), s.now); w.Some? ==> w.value.count <= BURST
  {
    assert LiveWindow(Replay(s.log, ip), s.now) == Lookup(Visible(s.table, s.now), ip);
    assert LiveCount(s.table, ip, s.now) + |VerifyingFor(s, ip)| <= BURST;
  }

  lemma TalliedFail(s: State, failed: IpAddr, s': State, ip: IpAddr, a: nat)
    requires Inv(s) && Inv(s') && Tallied(s.log, ip, a) && Remembered(s'.log, ip)
    requires exists evicted :: Records(s, failed, evicted, s')
    ensures Tallied(s'.log, ip, a)
  {
    LoggedCountBound(s', ip);
    var evicted :| Records(s, failed, evicted, s');
    TalliedEviction(s.log, evicted, failed, s.now, ip, a);
    EvictionKeepsTimes(s.log, evicted, s.now);
    TalliedLast(s.log + Evictions(evicted), failed, s.now, ip, a);
  }

  lemma EvictionKeepsTimes(log: seq<Event>, evicted: Option<IpAddr>, now: nat)
    requires forall e | e in log && e.Failed? :: e.at <= now
    ensures forall e | e in log + Evictions(evicted) && e.Failed? :: e.at <= now
  {
  }

  lemma TalliedLast(log: seq<Event>, failed: IpAddr, now: nat, ip: IpAddr, a: nat)
    requires Tallied(log, ip, a) && forall e | e in log && e.Failed? :: e.at <= now
    requires var w := LiveWindow(Replay(log + [Failed(failed, now)], ip), now); w.Some? ==> w.value.count <= BURST
    ensures Tallied(log + [Failed(failed, now)], ip, a)
  {
    assert (log + [Failed(failed, now)])[..|log|] == log;
    if failed == ip {
      TalliedFailure(log, now, ip, a);
    } else {
      TalliedOther(log, Failed(failed, now), ip, a);
    }
  }

  lemma TalliedEviction(log: seq<Event>, evicted: Option<IpAddr>, failed: IpAddr, at: nat, ip: IpAddr, a: nat)
    requires Tallied(log, ip, a) && Remembered(log + Evictions(evicted) + [Failed(failed, at)], ip)
    ensures Tallied(log + Evictions(evicted), ip, a)
  {
    if evicted.Some? {
      var e := Forgotten(evicted.value);
      assert (log + Evictions(evicted) + [Failed(failed, at)])[|log|] == e;
      TalliedOther(log, e, ip, a);
    } else {
      assert log + Evictions(evicted) == log;
    }
  }

  /**
   While `ip` keeps its entry, the table's count is exactly the failures
   logged from it in its window, and no stretch of one window's length, placed
   anywhere, holds more than 25: the failure that opened the earlier window lies before it.
   */
  lemma RollingBound(run: seq<State>, steps: seq<Step>, n: nat, ip: IpAddr, a: nat)
    requires IsRun(run, steps) && n < |run| && Remembered(run[n].log, ip)
    ensures FailuresIn(run[n].log, ip, a, a + WINDOW) <= 2 * BURST - 1 == 25
    ensures var t := run[n].table;
            ip in t && Live(t[ip], run[n].now) ==>
              t[ip].count == FailuresIn(run[n].log, ip, t[ip].since, t[ip].since + WINDOW)
  {
    var s := run[n];
    RunKeepsInv(run, steps, n);
    RunTallied(run, steps, n, ip, a);
    if Replay(s.log, ip).None? {
      NoneIn(s.log, ip, a, a + WINDOW);
    }
    assert LiveWindow(Replay(s.log, ip), s.now) == Lookup(Visible(s.table, s.now), ip);
  }

  // ---- The bounds are attained -----------------------------------------------

  ghost predicate Reachable(s: State) {
    exists run, steps :: IsRun(run, steps) && run[|run| - 1] == s
  }

  lemma Reach(s: State, step: Step, s': State)
    requires Reachable(s) && Next(s, step, s')
    ensures Reachable(s')
  {
    var run, steps :| IsRun(run, steps) && run[|run| - 1] == s;
    assert IsRun(run + [s'], steps + [step]);
    assert (run + [s'])[|run + [s']| - 1] == s';
  }

  /** Only `ip` has ever failed, and nothing of it was forgotten. */
  ghost predicate Alone(s: State, ip: IpAddr) {
    && Reachable(s) && s.table.Keys <= {ip} && WithinBounds(s.table, s.now)
    && forall i | 0 <= i < |s.log| :: s.log[i].Failed? && s.log[i].ip == ip
  }

  /** `n` attempts verifying at once, numbered from 0. */
  function Crowd(ip: IpAddr, n: nat): (crowd: map<nat, Attempt>)
    ensures forall id: nat :: id in crowd <==> id < n
    ensures forall id | id in crowd :: crowd[id] == Attempt(Some(ip), Verifying)
  {
    if n == 0 then map[] else Crowd(ip, n - 1)[n - 1 := Attempt(Some(ip), Verifying)]
  }

  lemma {:induction false} CrowdSize(ip: IpAddr, s: State, n: nat)
    requires s.attempts == Crowd(ip, n)
    ensures |Holders(s)| == n
    decreases n
  {
    if n == 0 {
      assert Holders(s) == {};
    } else {
      var fewer := s.(attempts := Crowd(ip, n - 1));
      CrowdSize(ip, fewer, n - 1);
      OneMoreHolder(fewer, s, n - 1, Attempt(Some(ip), Verifying));
    }
  }

  lemma OneMoreHolder(fewer: State, s: State, id: nat, a: Attempt)
    requires id !in fewer.attempts && s.attempts == fewer.attempts[id := a] && a.phase != Queued
    ensures |Holders(s)| == |Holders(fewer)| + 1
  {
    assert Holders(s) == Holders(fewer) + {id};
  }

  /** An attempt that arrives, gets a permit and passes the second check. */
  lemma StartVerifying(s: State, ip: IpAddr, id: nat)
    requires Reachable(s) && id !in s.attempts && !Throttled(s.table, ip, s.now) && |Holders(s)| < PERMITS
    ensures Reachable(Enter(s, id, Attempt(Some(ip), Verifying)))
  {
    var queued := Enter(s, id, Attempt(Some(ip), Queued));
    assert Holders(queued) == Holders(s);
    Reach(s, Arrive(id, Some(ip)), queued);
    var granted := Move(queued, id, Rechecking);
    Reach(queued, Acquire(id), granted);
    Reach(granted, Recheck(id), Move(granted, id, Verifying));
    assert Move(granted, id, Verifying) == Enter(s, id, Attempt(Some(ip), Verifying));
  }

  /** As many attempts as there are permits can be verifying at once. */
  lemma {:induction false} CrowdVerifies(s: State, ip: IpAddr, n: nat)
    requires Reachable(s) && s.attempts == map[] && !Throttled(s.table, ip, s.now) && n <= PERMITS
    ensures Reachable(s.(attempts := Crowd(ip, n)))
    decreases n
  {
    if n == 0 {
      assert s.(attempts := Crowd(ip, 0)) == s;
    } else {
      CrowdVerifies(s, ip, n - 1);
      var fewer := s.(attempts := Crowd(ip, n - 1));
      CrowdSize(ip, fewer, n - 1);
      StartVerifying(fewer, ip, n - 1);
      assert Enter(fewer, n - 1, Attempt(Some(ip), Verifying)) == s.(attempts := Crowd(ip, n));
    }
  }

  /** One of them fails and leaves. */
  lemma OneFails(s: State, ip: IpAddr, id: nat) returns (s': State)
    requires Alone(s, ip) && id in s.attempts && s.attempts[id] == Attempt(Some(ip), Verifying)
    ensures Alone(s', ip) && s'.attempts == s.attempts - {id} && s'.now == s.now
    ensures s'.log == s.log + [Failed(ip, s.now)] && s'.table == Bumped(s.table, ip, s.now)
  {
    var failed := Move(s, id, Settled).(table := Bumped(s.table, ip, s.now), log := s.log + [Failed(ip, s.now)]);
    assert failed.log == s.log + Evictions(None) + [Failed(ip, s.now)];
    SubsetSize(s.table.Keys, {ip});
    CountedWithRoom(s.table, ip, s.now);
    assert Records(s, ip, None, failed);
    Reach(s, Fail(id), failed);
    s' := Gone(failed, id);
    Reach(failed, Leave(id), s');
    assert s'.attempts == s.attempts - {id};
  }

  function Failures(ip: IpAddr, at: nat, n: nat): (log: seq<Event>)
    ensures |log| == n && forall i | 0 <= i < n :: log[i] == Failed(ip, at)
  {
    seq(n, i => Failed(ip, at))
  }

  function BumpedTimes(t: Table, ip: IpAddr, now: nat, n: nat): Table
    decreases n
  {
    if n == 0 then t else BumpedTimes(Bumped(t, ip, now), ip, now, n - 1)
  }

  /** Where the window a failure is counted in starts. */
  function WindowStart(t: Table, ip: IpAddr, now: nat): nat {
    if ip in t && Live(t[ip], now) then t[ip].since else now
  }

  lemma {:induction false} BumpedTimesIs(t: Table, ip: IpAddr, now: nat, n: nat)
    ensures LiveCount(BumpedTimes(t, ip, now, n), ip, now) == LiveCount(t, ip, now) + n
    ensures n > 0 ==> ip in BumpedTimes(t, ip, now, n) && BumpedTimes(t, ip, now, n)[ip].since == WindowStart(t, ip, now)
    decreases n
  {
    if n > 0 {
      BumpedTimesIs(Bumped(t, ip, now), ip, now, n - 1);
    }
  }

  lemma {:induction false} BumpedTimesThen(t: Table, ip: IpAddr, now: nat, m: nat, n: nat)
    ensures BumpedTimes(BumpedTimes(t, ip, now, m), ip, now, n) == BumpedTimes(t, ip, now, m + n)
    decreases m
  {
    if m > 0 {
      BumpedTimesThen(Bumped(t, ip, now), ip, now, m - 1, n);
    }
  }

  /** From `s` to `s'` there were `n` failures of `ip` at one time, and no attempt is left. */
  ghost predicate FailedTimes(s: State, s': State, ip: IpAddr, n: nat) {
    && s'.attempts == map[] && s'.now == s.now
    && s'.log == s.log + Failures(ip, s.now, n) && s'.table == BumpedTimes(s.table, ip, s.now, n)
  }

  lemma FailedThen(a: State, b: State, d: State, ip: IpAddr, m: nat, n: nat)
    requires FailedTimes(a, b, ip, m) && FailedTimes(b, d, ip, n)
    ensures FailedTimes(a, d, ip, m + n)
  {
    BumpedTimesThen(a.table, ip, a.now, m, n);
    assert a.log + Failures(ip, a.now, m) + Failures(ip, a.now, n) == a.log + Failures(ip, a.now, m + n);
  }

  lemma NoneFailed(s: State, ip: IpAddr)
    requires s.attempts == map[]
    ensures FailedTimes(s, s, ip, 0)
  {
    assert s.log + Failures(ip, s.now, 0) == s.log;
  }

  /** All of them fail, one after the other. */
  lemma {:induction false} CrowdFails(s: State, ip: IpAddr, n: nat) returns (s': State)
    requires Alone(s, ip) && s.attempts == Crowd(ip, n)
    ensures Alone(s', ip) && FailedTimes(s, s', ip, n)
    decreases n
  {
    if n == 0 {
      s' := s;
      NoneFailed(s, ip);
    } else {
      var one := OneFails(s, ip, n - 1);
      CrowdLess(ip, n);
      s' := CrowdFails(one, ip, n - 1);
      OneThenMore(s, one, s', ip, n);
    }
  }

  lemma CrowdLess(ip: IpAddr, n: nat)
    requires n > 0
    ensures Crowd(ip, n) - {n - 1} == Crowd(ip, n - 1)
  {
  }

  lemma OneThenMore(a: State, b: State, d: State, ip: IpAddr, n: nat)
    requires n > 0 && b.now == a.now && b.log == a.log + [Failed(ip, a.now)] && b.table == Bumped(a.table, ip, a.now)
    requires FailedTimes(b, d, ip, n - 1)
    ensures FailedTimes(a, d, ip, n)
  {
    assert a.log + [Failed(ip, a.now)] + Failures(ip, a.now, n - 1) == a.log + Failures(ip, a.now, n);
  }

  /** Up to the limit failures can follow each other. */
  lemma {:induction false} FailOneByOne(s: State, ip: IpAddr, n: nat) returns (s': State)
    requires Alone(s, ip) && s.attempts == map[] && LiveCount(s.table, ip, s.now) + n <= MAX_FAILURES
    ensures Alone(s', ip) && FailedTimes(s, s', ip, n)
    decreases n
  {
    if n == 0 {
      s' := s;
      NoneFailed(s, ip);
    } else {
      var one := FailAtOnce(s, ip, 1);
      BumpedTimesIs(s.table, ip, s.now, 1);
      s' := FailOneByOne(one, ip, n - 1);
      FailedThen(s, one, s', ip, 1, n - 1);
    }
  }

  /** As many as there are permits can fail at once. */
  lemma FailAtOnce(s: State, ip: IpAddr, n: nat) returns (s': State)
    requires Alone(s, ip) && s.attempts == map[] && !Throttled(s.table, ip, s.now) && n <= PERMITS
    ensures Alone(s', ip) && FailedTimes(s, s', ip, n)
  {
    CrowdVerifies(s, ip, n);
    s' := CrowdFails(s.(attempts := Crowd(ip, n)), ip, n);
  }

  /** Up to one below the limit one by one, then as many at once as there are permits. */
  lemma FailInABurst(s: State, ip: IpAddr, n: nat) returns (s': State)
    requires Alone(s, ip) && s.attempts == map[] && LiveCount(s.table, ip, s.now) + n == MAX_FAILURES - 1
    ensures Alone(s', ip) && FailedTimes(s, s', ip, n + PERMITS)
    ensures LiveCount(s'.table, ip, s.now) == BURST
    ensures ip in s'.table && s'.table[ip].since == WindowStart(s.table, ip, s.now)
  {
    var near := FailOneByOne(s, ip, n);
    BumpedTimesIs(s.table, ip, s.now, n);
    s' := FailAtOnce(near, ip, PERMITS);
    FailedThen(s, near, s', ip, n, PERMITS);
    BumpedTimesIs(s.table, ip, s.now, n + PERMITS);
  }

  lemma Beginning(ip: IpAddr) returns (s: State)
    ensures Alone(s, ip) && s.attempts == map[] && s.now == 0 && s.log == [] && s.table == map[]
  {
    s := State(map[], 0, map[], []);
    assert IsRun([s], []);
  }

  lemma Later(s: State, ip: IpAddr, now: nat) returns (s': State)
    requires Alone(s, ip) && s.now <= now
    ensures s' == s.(now := now) && Alone(s', ip)
  {
    s' := s.(now := now);
    Reach(s, Tick(now), s');
  }

  /** Thirteen is reached: nine failures one after another, then four at once. */
  lemma BurstAttained(ip: IpAddr)
    ensures exists s :: Reachable(s) && LiveCount(s.table, ip, s.now) == BURST
  {
    var s := Beginning(ip);
    var full := FailInABurst(s, ip, MAX_FAILURES - 1);
  }

  lemma {:induction false} FailuresCount(log: seq<Event>, ip: IpAddr, at: nat, n: nat, from: nat, to: nat)
    ensures FailuresIn(log + Failures(ip, at, n), ip, from, to) ==
              FailuresIn(log, ip, from, to) + if from <= at < to then n else 0
    decreases n
  {
    if n == 0 {
      assert log + Failures(ip, at, 0) == log;
    } else {
      var fewer := log + Failures(ip, at, n - 1);
      FailuresCount(log, ip, at, n - 1, from, to);
      assert log + Failures(ip, at, n) == fewer + [Failed(ip, at)];
      OneMoreCounted(fewer, ip, at, from, to);
    }
  }

  lemma OneMoreCounted(log: seq<Event>, ip: IpAddr, at: nat, from: nat, to: nat)
    ensures FailuresIn(log + [Failed(ip, at)], ip, from, to) == FailuresIn(log, ip, from, to) + if from <= at < to then 1 else 0
  {
    assert (log + [Failed(ip, at)])[..|log|] == log;
  }

  /** A window opened at 0, filled at 1: twelve of its failures lie in the stretch from 1. */
  lemma FirstWindow(ip: IpAddr) returns (s: State)
    ensures Alone(s, ip) && s.attempts == map[] && s.now == 1 && ip in s.table && s.table[ip].since == 0
    ensures FailuresIn(s.log, ip, 1, 1 + WINDOW) == 12
  {
    var s0 := Beginning(ip);
    var begun := FailOneByOne(s0, ip, 1);
    BumpedTimesIs(s0.table, ip, 0, 1);
    var s1 := Later(begun, ip, 1);
    s := FailInABurst(s1, ip, MAX_FAILURES - 2);
    FailuresCount([], ip, 0, 1, 1, 1 + WINDOW);
    assert [] + Failures(ip, 0, 1) == begun.log;
    FailuresCount(begun.log, ip, 1, 12, 1, 1 + WINDOW);
  }

  /**
   Twenty-five is reached in the stretch that starts just after a window opened: the
   twelve other failures of that window, and the thirteen of one opened as it lapses.
   */
  lemma RollingAttained(ip: IpAddr)
    ensures exists s :: Reachable(s) && Remembered(s.log, ip) && FailuresIn(s.log, ip, 1, 1 + WINDOW) == 25
  {
    var full := FirstWindow(ip);
    var s := Later(full, ip, WINDOW);
    var again := FailInABurst(s, ip, MAX_FAILURES - 1);
    FailuresCount(full.log, ip, WINDOW, 13, 1, 1 + WINDOW);
    assert Remembered(again.log, ip);
  }
}
