/**
 The query exporter: any number of producers, a bounded queue, one worker
 that collects batches and posts them, and counters updated one atomic step at
 a time. Every event offered is accounted for in every interleaving.
 */
module LogExport {

  const QUEUE: nat := 16_384

  type Event = nat

  /** What became of an event the worker took: delivered, dropped, or thrown away unsent. */
  datatype Fate = Sent | Lost | Discarded

  /**
   Where events are: held by producers between the enabled check and the queue
   (`hand`), queued, in the batch; and the history: events offered, accepted
   and refused by the queue, and what the worker did with the ones it took.
   */
  datatype Flow = Flow(
    hand: multiset<Event>, queue: seq<Event>, batch: seq<Event>,
    offered: multiset<Event>, accepted: seq<Event>, refused: seq<Event>, done: seq<(Event, Fate)>)

  /**
   The counters; drops by producers not yet counted (`dropping`) or not yet
   noted as unreported (`noting`); and the drops reported so far.
   */
  datatype Tally = Tally(
    sent: nat, dropped: nat, unreported: nat, dropping: nat, noting: nat, reported: nat)

  /**
   Filling: collecting a batch under the settings read when it was begun (`on`
   is whether they allow exporting). Reporting and Noting: the batch is
   counted as sent or dropped, the drop report is still to be settled.
   */
  datatype Worker =
    | Waiting
    | Filling(on: bool, size: nat)
    | Closed(on: bool, stopping: bool)
    | Reporting(stopping: bool)
    | Noting(count: nat, stopping: bool)
    | Stopped

  datatype State = State(enabled: bool, shutdown: bool, worker: Worker, flow: Flow, tally: Tally)

  function Tagged(events: seq<Event>, fate: Fate): (t: seq<(Event, Fate)>)
    ensures |t| == |events|
  {
    seq(|events|, i requires 0 <= i < |events| => (events[i], fate))
  }

  function Events(done: seq<(Event, Fate)>): (e: seq<Event>)
    ensures |e| == |done|
  {
    seq(|done|, i requires 0 <= i < |done| => done[i].0)
  }

  function Count(done: seq<(Event, Fate)>, fate: Fate): nat {
    if done == [] then 0
    else Count(done[..|done| - 1], fate) + if done[|done| - 1].1 == fate then 1 else 0
  }

  // ---- Moving events ----------------------------------------------------------------

  function Offered(f: Flow, e: Event): Flow {
    f.(hand := f.hand + multiset{e}, offered := f.offered + multiset{e})
  }

  function Accepted(f: Flow, e: Event): Flow {
    f.(hand := f.hand - multiset{e}, queue := f.queue + [e], accepted := f.accepted + [e])
  }

  function Refused(f: Flow, e: Event): Flow {
    f.(hand := f.hand - multiset{e}, refused := f.refused + [e])
  }

  /** The next queued event joins the batch. */
  function Taken(f: Flow): Flow
    requires f.queue != []
  {
    f.(batch := f.batch + [f.queue[0]], queue := f.queue[1..])
  }

  /** The batch is over, with one fate for all of it. */
  function Settled(f: Flow, fate: Fate): Flow {
    f.(batch := [], done := f.done + Tagged(f.batch, fate))
  }

  /** What is still queued is thrown away. */
  function Drained(f: Flow): Flow {
    f.(queue := [], done := f.done + Tagged(f.queue, Discarded))
  }

  /** Every event is somewhere, and events leave in the order the queue took them. */
  ghost predicate FlowInv(f: Flow) {
    && f.offered == f.hand + multiset(f.accepted) + multiset(f.refused)
    && f.accepted == Events(f.done) + f.batch + f.queue
    && |f.queue| <= QUEUE
  }

  lemma EventsAppend(done: seq<(Event, Fate)>, more: seq<Event>, fate: Fate)
    ensures Events(done + Tagged(more, fate)) == Events(done) + more
  {
  }

  lemma {:induction false} CountAppend(done: seq<(Event, Fate)>, more: seq<Event>, fate: Fate, f: Fate)
    ensures Count(done + Tagged(more, fate), f) == Count(done, f) + if f == fate then |more| else 0
    decreases |more|
  {
    var all := done + Tagged(more, fate);
    if more == [] {
      assert all == done;
    } else {
      var n := |more| - 1;
      CountAppend(done, more[..n], fate, f);
      assert all[..|all| - 1] == done + Tagged(more[..n], fate);
    }
  }

  lemma AcceptedKeeps(f: Flow, e: Event)
    requires FlowInv(f) && e in f.hand && |f.queue| < QUEUE
    ensures FlowInv(Accepted(f, e))
  {
    assert Events(f.done) + f.batch + (f.queue + [e]) == f.accepted + [e];
    assert multiset(f.accepted + [e]) == multiset(f.accepted) + multiset{e};
  }

  lemma RefusedKeeps(f: Flow, e: Event)
    requires FlowInv(f) && e in f.hand
    ensures FlowInv(Refused(f, e))
  {
    assert multiset(f.refused + [e]) == multiset(f.refused) + multiset{e};
  }

  lemma TakenKeeps(f: Flow)
    requires FlowInv(f) && f.queue != []
    ensures FlowInv(Taken(f))
  {
    assert f.queue == [f.queue[0]] + f.queue[1..];
  }

  lemma SettledKeeps(f: Flow, fate: Fate)
    requires FlowInv(f)
    ensures FlowInv(Settled(f, fate))
    ensures forall x :: Count(Settled(f, fate).done, x) == Count(f.done, x) + if x == fate then |f.batch| else 0
  {
    EventsAppend(f.done, f.batch, fate);
    forall x
      ensures Count(Settled(f, fate).done, x) == Count(f.done, x) + if x == fate then |f.batch| else 0
    {
      CountAppend(f.done, f.batch, fate, x);
    }
  }

  lemma DrainedKeeps(f: Flow)
    requires FlowInv(f) && f.batch == []
    ensures FlowInv(Drained(f))
    ensures forall x :: Count(Drained(f).done, x) == Count(f.done, x) + if x == Discarded then |f.queue| else 0
  {
    EventsAppend(f.done, f.queue, Discarded);
    assert f.accepted == Events(f.done) + f.queue;
    forall x
      ensures Count(Drained(f).done, x) == Count(f.done, x) + if x == Discarded then |f.queue| else 0
    {
      CountAppend(f.done, f.queue, Discarded, x);
    }
  }

  // ---- The steps ----------------------------------------------------------------------

  datatype Step =
    | Toggle(on: bool)
    | Shutdown
    | Offer(e: Event)
    | Send(e: Event)
    | CountDrop
    | NoteDrop
    | First(usable: bool, size: nat)
    | More
    | Close(stopping: bool)
    | Discard
    | PostOk
    | PostFails
    | Report
    | Note
    | Stop

  /** The worker goes on waiting, or ends: the queue is drained and refuses from now on. */
  function Resume(s: State, stopping: bool): State {
    if stopping then s.(worker := Stopped, flow := Drained(s.flow)) else s.(worker := Waiting)
  }

  ghost predicate Next(s: State, step: Step, s': State) {
    var f, t := s.flow, s.tally;
    match step
    case Toggle(on) => s' == s.(enabled := on)
    case Shutdown => s' == s.(shutdown := true)
    // A producer that found exporting enabled.
    case Offer(e) => s.enabled && s' == s.(flow := Offered(f, e))
    case Send(e) =>
      && e in f.hand
      && s' == if !s.worker.Stopped? && |f.queue| < QUEUE then s.(flow := Accepted(f, e))
               else s.(flow := Refused(f, e), tally := t.(dropping := t.dropping + 1))
    case CountDrop =>
      && t.dropping > 0
      && s' == s.(tally := t.(dropping := t.dropping - 1, dropped := t.dropped + 1, noting := t.noting + 1))
    case NoteDrop =>
      && t.noting > 0
      && s' == s.(tally := t.(noting := t.noting - 1, unreported := t.unreported + 1))
    case First(usable, size) =>
      && s.worker.Waiting? && f.queue != []
      && s' == s.(worker := Filling(s.enabled && usable, size), flow := Taken(f))
    case More =>
      && s.worker.Filling? && f.queue != [] && |f.batch| < s.worker.size
      && s' == s.(flow := Taken(f))
    // The batch is full, its time is up, or the server stops while there is room in it.
    case Close(stopping) =>
      && s.worker.Filling? && (stopping ==> s.shutdown && |f.batch| < s.worker.size)
      && s' == s.(worker := Closed(s.worker.on, stopping))
    case Discard =>
      && s.worker.Closed? && !s.worker.on
      && s' == Resume(s.(flow := Settled(f, Discarded)), s.worker.stopping)
    case PostOk =>
      && s.worker.Closed? && s.worker.on
      && s' == s.(worker := Reporting(s.worker.stopping), flow := Settled(f, Sent),
                  tally := t.(sent := t.sent + |f.batch|))
    case PostFails =>
      && s.worker.Closed? && s.worker.on
      && s' == s.(worker := Noting(|f.batch|, s.worker.stopping), flow := Settled(f, Lost),
                  tally := t.(dropped := t.dropped + |f.batch|))
    case Report =>
      && s.worker.Reporting?
      && s' == Resume(s.(tally := t.(unreported := 0, reported := t.reported + t.unreported)), s.worker.stopping)
    case Note =>
      && s.worker.Noting?
      && s' == Resume(s.(tally := t.(unreported := t.unreported + s.worker.count)), s.worker.stopping)
    // Asked to stop between batches, or never able to start.
    case Stop => s.worker.Waiting? && (s.shutdown || f.done == []) && s' == Resume(s, true)
  }

  predicate Init(s: State) {
    && s.worker.Waiting? && !s.shutdown
    && s.flow == Flow(multiset{}, [], [], multiset{}, [], [], [])
    && s.tally == Tally(0, 0, 0, 0, 0, 0)
  }

  ghost predicate IsRun(run: seq<State>, steps: seq<Step>) {
    && |run| == |steps| + 1
    && Init(run[0])
    && forall i | 0 <= i < |steps| :: Next(run[i], steps[i], run[i + 1])
  }

  // ---- The invariant ----------------------------------------------------------------

  /** A dropped batch counted but not yet noted as unreported. */
  function WorkerNoting(w: Worker): nat {
    if w.Noting? then w.count else 0
  }

  ghost predicate TallyInv(s: State) {
    && s.tally.sent == Count(s.flow.done, Sent)
    && s.tally.dropped + s.tally.dropping == |s.flow.refused| + Count(s.flow.done, Lost)
    && s.tally.dropped == s.tally.reported + s.tally.unreported + s.tally.noting + WorkerNoting(s.worker)
  }

  ghost predicate Inv(s: State) {
    && FlowInv(s.flow)
    && TallyInv(s)
    && (s.worker.Filling? || s.worker.Closed? || s.flow.batch == [])
  }

  lemma ResumeKeepsInv(s: State, stopping: bool)
    requires Inv(s.(worker := Waiting))
    ensures Inv(Resume(s, stopping))
  {
    if stopping {
      DrainedKeeps(s.flow);
    }
  }

  lemma SendKeepsInv(s: State, e: Event, s': State)
    requires Inv(s) && Next(s, Send(e), s')
    ensures Inv(s')
  {
    if !s.worker.Stopped? && |s.flow.queue| < QUEUE {
      AcceptedKeeps(s.flow, e);
    } else {
      RefusedKeeps(s.flow, e);
    }
  }

  lemma DiscardKeepsInv(s: State, s': State)
    requires Inv(s) && Next(s, Discard, s')
    ensures Inv(s')
  {
    SettledKeeps(s.flow, Discarded);
    ResumeKeepsInv(s.(flow := Settled(s.flow, Discarded)), s.worker.stopping);
  }

  lemma PostKeepsInv(s: State, step: Step, s': State)
    requires Inv(s) && Next(s, step, s') && (step.PostOk? || step.PostFails?)
    ensures Inv(s')
  {
    SettledKeeps(s.flow, if step.PostOk? then Sent else Lost);
  }

  lemma ReportKeepsInv(s: State, s': State)
    requires Inv(s) && Next(s, Report, s')
    ensures Inv(s')
  {
    var t := s.tally;
    ResumeKeepsInv(s.(tally := t.(unreported := 0, reported := t.reported + t.unreported)), s.worker.stopping);
  }

  lemma NoteKeepsInv(s: State, s': State)
    requires Inv(s) && Next(s, Note, s')
    ensures Inv(s')
  {
    var t := s.tally;
    ResumeKeepsInv(s.(tally := t.(unreported := t.unreported + s.worker.count)), s.worker.stopping);
  }

  lemma TakeKeepsInv(s: State, step: Step, s': State)
    requires Inv(s) && Next(s, step, s') && (step.First? || step.More?)
    ensures Inv(s')
  {
    TakenKeeps(s.flow);
  }

  lemma ProducerKeepsInv(s: State, step: Step, s': State)
    requires Inv(s) && Next(s, step, s') && (step.Offer? || step.CountDrop? || step.NoteDrop?)
    ensures Inv(s')
  {
  }

  lemma SwitchKeepsInv(s: State, step: Step, s': State)
    requires Inv(s) && Next(s, step, s') && (step.Toggle? || step.Shutdown? || step.Close?)
    ensures Inv(s')
  {
  }

  lemma StepKeepsInv(s: State, step: Step, s': State)
    requires Inv(s) && Next(s, step, s')
    ensures Inv(s')
  {
    if step.Send? {
      SendKeepsInv(s, step.e, s');
    } else if step.First? || step.More? {
      TakeKeepsInv(s, step, s');
    } else if step.Discard? {
      DiscardKeepsInv(s, s');
    } else if step.PostOk? || step.PostFails? {
      PostKeepsInv(s, step, s');
    } else if step.Report? {
      ReportKeepsInv(s, s');
    } else if step.Note? {
      NoteKeepsInv(s, s');
    } else if step.Stop? {
      ResumeKeepsInv(s, true);
    } else if step.Offer? || step.CountDrop? || step.NoteDrop? {
      ProducerKeepsInv(s, step, s');
    } else {
      SwitchKeepsInv(s, step, s');
    }
  }

  lemma {:induction false} RunKeepsInv(run: seq<State>, steps: seq<Step>, n: nat)
    requires IsRun(run, steps) && n < |run|
    ensures Inv(run[n])
    decreases n
  {
    if n > 0 {
      RunKeepsInv(run, steps, n - 1);
      StepKeepsInv(run[n - 1], steps[n - 1], run[n]);
    }
  }

  lemma {:induction false} FatesAddUp(done: seq<(Event, Fate)>)
    ensures |done| == Count(done, Sent) + Count(done, Lost) + Count(done, Discarded)
    decreases |done|
  {
    if done != [] {
      FatesAddUp(done[..|done| - 1]);
    }
  }

  // ---- What every run guarantees ------------------------------------------------------

  /**
   Events offered while enabled are queued, in the batch, sent, dropped or
   thrown away, or in a producer's hand or on the way to being counted as
   dropped; and every drop is reported, unreported or about to be noted.
   */
  lemma Conservation(run: seq<State>, steps: seq<Step>, n: nat)
    requires IsRun(run, steps) && n < |run|
    ensures var f, t := run[n].flow, run[n].tally;
            && |f.offered| == |f.queue| + |f.batch| + t.sent + t.dropped + Count(f.done, Discarded)
                              + |f.hand| + t.dropping
            && t.dropped == t.reported + t.unreported + t.noting + WorkerNoting(run[n].worker)
            && |f.queue| <= QUEUE
  {
    RunKeepsInv(run, steps, n);
    FatesAddUp(run[n].flow.done);
  }

  /**
   The worker neither invents, duplicates nor reorders: the events it has
   dealt with, its batch and the queue are, in order, the events accepted.
   */
  lemma FirstInFirstOut(run: seq<State>, steps: seq<Step>, n: nat)
    requires IsRun(run, steps) && n < |run|
    ensures var f := run[n].flow;
            && f.accepted == Events(f.done) + f.batch + f.queue
            && f.offered == f.hand + multiset(f.accepted) + multiset(f.refused)
  {
    RunKeepsInv(run, steps, n);
  }

  // ---- What the worker does with a batch ------------------------------------------------

  /** A batch is not empty nor over its size, the worker stops only when asked, and then nothing is left queued. */
  predicate WorkerInv(s: State) {
    match s.worker
    case Waiting => s.flow.batch == []
    case Filling(_, size) => 1 <= |s.flow.batch| && (|s.flow.batch| == 1 || |s.flow.batch| <= size)
    case Closed(_, stopping) => s.flow.batch != [] && (stopping ==> s.shutdown)
    case Reporting(stopping) => s.flow.batch == [] && (stopping ==> s.shutdown)
    case Noting(_, stopping) => s.flow.batch == [] && (stopping ==> s.shutdown)
    case Stopped => s.flow.batch == [] && s.flow.queue == []
  }

  lemma StepKeepsWorkerInv(s: State, step: Step, s': State)
    requires WorkerInv(s) && Next(s, step, s')
    ensures WorkerInv(s') && (s.shutdown ==> s'.shutdown) && (s.worker.Stopped? ==> s'.worker.Stopped?)
  {
  }

  lemma {:induction false} RunKeepsWorkerInv(run: seq<State>, steps: seq<Step>, n: nat)
    requires IsRun(run, steps) && n < |run|
    ensures WorkerInv(run[n])
    decreases n
  {
    if n > 0 {
      RunKeepsWorkerInv(run, steps, n - 1);
      StepKeepsWorkerInv(run[n - 1], steps[n - 1], run[n]);
    }
  }

  predicate HasBatch(w: Worker) {
    w.Filling? || w.Closed?
  }

  /**
   The batch at `n` was begun at `m`, with the event then queued first; whether it is to
   be posted was settled then, by whether exporting was on and its settings usable.
   */
  ghost predicate BegunAt(run: seq<State>, steps: seq<Step>, m: nat, n: nat)
    requires |run| == |steps| + 1 && n < |run|
  {
    && m < n && steps[m].First? && run[m].flow.queue != []
    && (forall k | m < k <= n :: HasBatch(run[k].worker))
    && (run[n].worker.on <==> run[m].enabled && steps[m].usable)
    && run[n].flow.batch != [] && run[n].flow.batch[0] == run[m].flow.queue[0]
    && run[n].flow.done == run[m].flow.done
  }

  lemma {:induction false} BatchBegun(run: seq<State>, steps: seq<Step>, n: nat) returns (m: nat)
    requires IsRun(run, steps) && n < |run| && HasBatch(run[n].worker)
    ensures BegunAt(run, steps, m, n)
    decreases n
  {
    var before := n - 1;
    RunKeepsWorkerInv(run, steps, before);
    assert Next(run[before], steps[before], run[n]);
    if steps[before].First? {
      m := before;
    } else {
      m := BatchBegun(run, steps, before);
    }
  }

  /**
   A batch is posted, and counted as sent or dropped, if and only if exporting was on and
   its settings usable when it was begun; otherwise all of it is thrown away.
   */
  lemma PostedOnlyIfOn(run: seq<State>, steps: seq<Step>, n: nat) returns (m: nat)
    requires IsRun(run, steps) && n < |steps| && (steps[n].PostOk? || steps[n].PostFails? || steps[n].Discard?)
    ensures BegunAt(run, steps, m, n)
    ensures !steps[n].Discard? <==> run[m].enabled && steps[m].usable
    ensures run[n].flow.done + Tagged(run[n].flow.batch, if steps[n].PostOk? then Sent else if steps[n].PostFails? then Lost else Discarded)
            <= run[n + 1].flow.done
    ensures run[n + 1].flow.batch == []
    ensures run[n + 1].tally.sent == run[n].tally.sent + if steps[n].PostOk? then |run[n].flow.batch| else 0
    ensures run[n + 1].tally.dropped == run[n].tally.dropped + if steps[n].PostFails? then |run[n].flow.batch| else 0
  {
    assert Next(run[n], steps[n], run[n + 1]);
    m := BatchBegun(run, steps, n);
  }

  /** After exporting was turned off, and until it is turned on again, nothing is offered and no batch begun is posted. */
  lemma {:induction false} NothingOfferedWhileOff(run: seq<State>, steps: seq<Step>, i: nat, n: nat)
    requires IsRun(run, steps) && i < n < |run| && steps[i] == Toggle(false)
    requires forall k | i < k < n :: !steps[k].Toggle?
    ensures !run[n].enabled && run[n].flow.offered == run[i].flow.offered
    decreases n
  {
    var before := n - 1;
    assert Next(run[before], steps[before], run[n]);
    if i < before {
      NothingOfferedWhileOff(run, steps, i, before);
    }
  }

  /** A batch begun while exporting is off will not be posted. */
  lemma OffIsNotPosted(run: seq<State>, steps: seq<Step>, i: nat, n: nat)
    requires IsRun(run, steps) && i < n < |run| && steps[i] == Toggle(false)
    requires forall k | i < k < n :: !steps[k].Toggle?
    requires !HasBatch(run[i].worker) && HasBatch(run[n].worker)
    ensures !run[n].worker.on
  {
    var m := BatchBegun(run, steps, n);
    assert m > i;
    NothingOfferedWhileOff(run, steps, i, m);
  }

  // ---- What producers find --------------------------------------------------------------------

  /** An event is queued unless the worker has ended or 16384 are queued; then it is refused. */
  lemma SentOrRefused(run: seq<State>, steps: seq<Step>, n: nat)
    requires IsRun(run, steps) && n < |steps| && steps[n].Send?
    ensures var f, g, e := run[n].flow, run[n + 1].flow, steps[n].e;
            && e in f.hand && g.hand == f.hand - multiset{e}
            && (if run[n].worker.Stopped? || |f.queue| >= 16_384
                then g.queue == f.queue && g.refused == f.refused + [e]
                else g.queue == f.queue + [e] && g.refused == f.refused)
  {
    RunKeepsInv(run, steps, n);
    assert Next(run[n], steps[n], run[n + 1]);
  }

  /** Once the worker has ended nothing is left queued: all it ever took was dealt with, and no more is taken. */
  lemma {:induction false} EndedIsEmpty(run: seq<State>, steps: seq<Step>, i: nat, n: nat)
    requires IsRun(run, steps) && i <= n < |run| && run[i].worker.Stopped?
    ensures run[n].worker.Stopped? && run[n].flow.queue == [] && run[n].flow.batch == []
    ensures run[n].flow.accepted == Events(run[n].flow.done) == run[i].flow.accepted
    ensures run[n].tally.sent == run[i].tally.sent
    decreases n
  {
    RunKeepsInv(run, steps, n);
    RunKeepsWorkerInv(run, steps, n);
    assert Events(run[n].flow.done) + [] + [] == Events(run[n].flow.done);
    if i < n {
      EndedIsEmpty(run, steps, i, n - 1);
      assert Next(run[n - 1], steps[n - 1], run[(n - 1) + 1]);
    }
  }

  /** The worker ends only once the server was asked to stop, unless it never dealt with anything. */
  lemma {:induction false} EndsOnShutdown(run: seq<State>, steps: seq<Step>, n: nat)
    requires IsRun(run, steps) && n < |steps| && !run[n].worker.Stopped? && run[n + 1].worker.Stopped?
    ensures run[n].flow.done == [] || exists m :: 0 <= m < n && steps[m].Shutdown?
  {
    RunKeepsWorkerInv(run, steps, n);
    assert Next(run[n], steps[n], run[n + 1]);
    if run[n].shutdown {
      ShutdownBefore(run, steps, n);
    }
  }

  lemma {:induction false} ShutdownBefore(run: seq<State>, steps: seq<Step>, n: nat)
    requires IsRun(run, steps) && n < |run| && run[n].shutdown
    ensures exists m :: 0 <= m < n && steps[m].Shutdown?
    decreases n
  {
    if n > 0 && !steps[n - 1].Shutdown? {
      assert Next(run[n - 1], steps[n - 1], run[(n - 1) + 1]);
      ShutdownBefore(run, steps, n - 1);
    }
  }

  // ---- Step by step -------------------------------------------------------------------------

  /** What producers and switches do. */
  lemma ProducerSteps(run: seq<State>, steps: seq<Step>, n: nat)
    requires IsRun(run, steps) && n < |steps|
    ensures var a, b := run[n], run[n + 1];
      match steps[n]
      case Toggle(on) => b == a.(enabled := on)
      case Shutdown => b == a.(shutdown := true)
      case Offer(e) => a.enabled && b.flow.offered == a.flow.offered + multiset{e} && b.flow.hand == a.flow.hand + multiset{e}
      case CountDrop =>
        b.tally.dropped == a.tally.dropped + 1 && b.tally.dropping + 1 == a.tally.dropping && b.tally.noting == a.tally.noting + 1
      case NoteDrop =>
        b.tally.unreported == a.tally.unreported + 1 && b.tally.noting + 1 == a.tally.noting && b.tally.dropped == a.tally.dropped
      case _ => true
  {
    assert Next(run[n], steps[n], run[n + 1]);
  }

  /** What the worker does: it takes the events in turn, and stops after a batch when it was told to during it. */
  lemma WorkerSteps(run: seq<State>, steps: seq<Step>, n: nat)
    requires IsRun(run, steps) && n < |steps|
    ensures var a, b := run[n], run[n + 1];
      && (steps[n].First? || steps[n].More? ==>
            a.flow.queue != [] && b.flow.queue == a.flow.queue[1..] && b.flow.batch == a.flow.batch + [a.flow.queue[0]])
      && (steps[n].Close? ==> b.worker == Closed(a.worker.on, steps[n].stopping) && b.flow == a.flow)
      && (steps[n].Close? && steps[n].stopping ==> a.shutdown && |a.flow.batch| < a.worker.size)
      && (steps[n].Report? ==> b.tally.unreported == 0 && b.tally.reported == a.tally.reported + a.tally.unreported)
      && (steps[n].Note? ==> b.tally.unreported == a.tally.unreported + a.worker.count)
      && (steps[n].Discard? || steps[n].Report? || steps[n].Note? ==>
            if a.worker.stopping then b.worker == Stopped else b.worker == Waiting)
      && (steps[n].Stop? ==> b.worker == Stopped && (a.shutdown || a.flow.done == []))
  {
    assert Next(run[n], steps[n], run[n + 1]);
  }

  /** No drop waits in vain to be counted and noted, and a waiting worker can always begin on a queued event. */
  lemma StepsPossible(s: State, usable: bool, size: nat)
    ensures s.tally.dropping >= 1 ==> exists s' :: Next(s, CountDrop, s')
    ensures s.tally.noting >= 1 ==> exists s' :: Next(s, NoteDrop, s')
    ensures s.worker == Waiting && s.flow.queue != [] ==> exists s' :: Next(s, First(usable, size), s')
    ensures s.worker.Filling? ==> exists s' :: Next(s, Close(false), s')
    ensures s.worker == Waiting && s.shutdown ==> exists s' :: Next(s, Stop, s')
  {
    var f, t := s.flow, s.tally;
    if t.dropping >= 1 {
      assert Next(s, CountDrop, s.(tally := t.(dropping := t.dropping - 1, dropped := t.dropped + 1, noting := t.noting + 1)));
    }
    if t.noting >= 1 {
      assert Next(s, NoteDrop, s.(tally := t.(noting := t.noting - 1, unreported := t.unreported + 1)));
    }
    if s.worker == Waiting && f.queue != [] {
      assert Next(s, First(usable, size), s.(worker := Filling(s.enabled && usable, size), flow := Taken(f)));
    }
    if s.worker.Filling? {
      assert Next(s, Close(false), s.(worker := Closed(s.worker.on, false)));
    }
    if s.worker == Waiting && s.shutdown {
      assert Next(s, Stop, Resume(s, true));
    }
  }
}
