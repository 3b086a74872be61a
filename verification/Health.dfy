/**
 Health checks (`HealthMonitor::tick`): counters per checked record that take
 it out of answers after two failures in a row and put it back after two
 passes in a row. Probe results are inputs.
 */
module Health {

  const DOWN_AFTER: nat := 2
  const UP_AFTER: nat := 2

  datatype Probe = Passed | Broke

  datatype State = State(healthy: bool, fails: nat, passes: nat, nextDue: nat)

  function NewState(now: nat): State {
    State(true, 0, 0, now)
  }

  /** One probe's effect on the counters. */
  function Counted(s: State, p: Probe): State {
    match p
    case Passed => s.(fails := 0, passes := s.passes + 1, healthy := s.healthy || s.passes + 1 >= UP_AFTER)
    case Broke => s.(passes := 0, fails := s.fails + 1, healthy := s.healthy && s.fails + 1 < DOWN_AFTER)
  }

  /** A probe's result, and when its check is due again. */
  datatype Result = Result(id: string, probe: Probe, due: nat)

  // ---- The same, told on the probe history -----------------------------------------

  /**
   Down exactly when the latest two equal results in a row were failures; a
   record is up until its history has such a pair.
   */
  predicate Down(history: seq<Probe>)
    decreases |history|
  {
    var n := |history|;
    n >= 2 && if history[n - 1] == history[n - 2] then history[n - 1] == Broke else Down(history[..n - 1])
  }

  /** Results at the end of `history` that are all `p`. */
  function Streak(history: seq<Probe>, p: Probe): nat {
    if history == [] || history[|history| - 1] != p then 0 else 1 + Streak(history[..|history| - 1], p)
  }

  /** The counters agree with the history. */
  predicate Tracks(s: State, history: seq<Probe>) {
    && s.fails == Streak(history, Broke)
    && s.passes == Streak(history, Passed)
    && s.healthy == !Down(history)
  }

  lemma CountedTracks(s: State, history: seq<Probe>, p: Probe)
    requires Tracks(s, history)
    ensures Tracks(Counted(s, p), history + [p])
  {
    var longer, n := history + [p], |history|;
    assert longer[..n] == history;
    if n >= 1 {
      assert history[n - 1] == Broke ==> Streak(history, Broke) >= 1;
      assert history[n - 1] == Passed ==> Streak(history, Passed) >= 1;
    }
  }

  /** The results at `i - 1` and `i` are the same. */
  predicate PairAt(history: seq<Probe>, i: int) {
    1 <= i < |history| && history[i] == history[i - 1]
  }

  /** `i` is where the latest equal pair of results ends. */
  ghost predicate LatestPair(history: seq<Probe>, i: int) {
    PairAt(history, i) && forall j | PairAt(history, j) :: j <= i
  }

  /** The declarative reading of `Down`: the latest equal pair decides. */
  lemma {:induction false} DownIsLatestPair(history: seq<Probe>)
    ensures Down(history) <==> exists i :: LatestPair(history, i) && history[i] == Broke
    decreases |history|
  {
    var n := |history|;
    if n >= 2 {
      if history[n - 1] == history[n - 2] {
        assert LatestPair(history, n - 1);
      } else {
        var rest := history[..n - 1];
        DownIsLatestPair(rest);
        assert forall i :: PairAt(rest, i) <==> PairAt(history, i);
        assert forall i :: LatestPair(rest, i) <==> LatestPair(history, i);
      }
    }
  }

  lemma AppliedTracks(s: State, history: seq<Probe>, p: Probe, due: nat, after: State, longer: seq<Probe>)
    requires Tracks(s, history) && after == Counted(s, p).(nextDue := due) && longer == history + [p]
    ensures Tracks(after, longer)
  {
    CountedTracks(s, history, p);
  }

  /** The counters after one result, step by step. */
  method CountResult(s0: State, p: Probe) returns (s: State)
    ensures s == Counted(s0, p)
  {
    s := s0;
    match p {
      case Passed =>
        s := s.(fails := 0, passes := s.passes + 1);
        if !s.healthy && s.passes >= UP_AFTER {
          s := s.(healthy := true);
        }
      case Broke =>
        s := s.(passes := 0, fails := s.fails + 1);
        if s.healthy && s.fails >= DOWN_AFTER {
          s := s.(healthy := false);
        }
    }
  }

  class Monitor {
    var state: map<string, State>
    /** Every probe of a record since its check was added. */
    ghost var history: map<string, seq<Probe>>

    ghost predicate Valid()
      reads this
    {
      && history.Keys == state.Keys
      && forall id | id in state :: Tracks(state[id], history[id])
    }

    constructor ()
      ensures Valid() && state == map[]
    {
      state, history := map[], map[];
    }

    /**
     The first half of a tick: forget checks that are gone, start new ones,
     and say which are due.
     */
    method Due(checks: set<string>, now: nat) returns (due: set<string>)
      requires Valid()
      modifies this
      ensures Valid() && state.Keys == checks
      ensures forall id | id in checks ::
                history[id] == if id in old(history) then old(history)[id] else []
      ensures forall id | id in checks ::
                state[id] == if id in old(state) then old(state)[id] else NewState(now)
      ensures due == set id | id in checks && state[id].nextDue <= now
      ensures forall id | id in checks && id !in old(state) ::
                id in due && state[id].healthy && state[id].fails == 0 && state[id].passes == 0
      ensures forall id | id in checks && id in old(state) ::
                state[id] == old(state)[id] && (id in due <==> old(state)[id].nextDue <= now)
    {
      state := map id | id in checks :: if id in state then state[id] else NewState(now);
      history := map id | id in checks :: if id in history then history[id] else [];
      due := set id | id in checks && state[id].nextDue <= now;
    }

    /** A check that was added or changed is due at once. */
    method Recheck(id: string, now: nat)
      requires Valid()
      modifies this
      ensures Valid() && state.Keys == old(state).Keys && history == old(history)
      ensures id in state ==> state[id] == old(state)[id].(nextDue := now)
      ensures forall other | other in state && other != id :: state[other] == old(state)[other]
    {
      if id in state {
        state := state[id := state[id].(nextDue := now)];
      }
    }

    /** One probe's result is applied, unless the check went away meanwhile. */
    method Apply(id: string, p: Probe, due: nat)
      requires Valid()
      modifies this
      ensures Valid() && state.Keys == old(state).Keys
      ensures history == Noted(old(history), id, p)
      ensures id in state ==> history[id] == old(history)[id] + [p] && state[id].nextDue == due
      ensures forall other | other in state && other != id :: state[other] == old(state)[other]
    {
      if id !in state {
        return;
      }
      ghost var longer := history[id] + [p];
      var s := CountResult(state[id], p);
      AppliedTracks(state[id], history[id], p, due, s.(nextDue := due), longer);
      state := state[id := s.(nextDue := due)];
      history := history[id := longer];
    }

    /**
     The second half: apply the results in the order they came in, each with the time its
     check is due again, and hand over the records that are down. For every probe history
     these are exactly the ones whose latest equal pair of results was two failures.
     */
    method Collect(results: seq<Result>) returns (unhealthy: set<string>)
      requires Valid()
      modifies this
      ensures Valid() && state.Keys == old(state).Keys
      ensures forall id | id in state :: history[id] == old(history)[id] + ResultsOf(results, id)
      ensures forall id | id in state :: state[id].nextDue == DueAfter(results, |results|, id, old(state)[id].nextDue)
      ensures unhealthy == set id | id in state && Down(history[id])
    {
      ghost var before, was := history, state;
      for n := 0 to |results|
        invariant Valid() && state.Keys == was.Keys
        invariant history == NotedAll(before, results[..n])
        invariant DuesAre(results, n, was, state)
      {
        assert results[..n + 1][..n] == results[..n];
        ghost var prev := state;
        Apply(results[n].id, results[n].probe, results[n].due);
        DuesNext(results, n, was, prev, state);
      }
      assert results[..|results|] == results;
      NotedAllIs(before, results);
      unhealthy := set id | id in state && !state[id].healthy;
    }
  }

  /** When a check is due after the first `n` results: as its last one says. */
  function DueAfter(results: seq<Result>, n: nat, id: string, first: nat): nat
    requires n <= |results|
  {
    if n == 0 then first
    else if results[n - 1].id == id then results[n - 1].due
    else DueAfter(results, n - 1, id, first)
  }

  ghost predicate DuesAre(results: seq<Result>, n: nat, was: map<string, State>, now: map<string, State>)
    requires n <= |results|
  {
    now.Keys == was.Keys && forall id | id in now :: now[id].nextDue == DueAfter(results, n, id, was[id].nextDue)
  }

  lemma DuesNext(results: seq<Result>, n: nat, was: map<string, State>, before: map<string, State>, after: map<string, State>)
    requires n < |results| && DuesAre(results, n, was, before) && after.Keys == before.Keys
    requires results[n].id in after ==> after[results[n].id].nextDue == results[n].due
    requires forall other | other in after && other != results[n].id :: after[other] == before[other]
    ensures DuesAre(results, n + 1, was, after)
  {
  }

  /** The last result of a check decides when it is due again. */
  lemma {:induction false} DueAfterLast(results: seq<Result>, n: nat, id: string, first: nat, k: nat)
    requires k < n <= |results| && results[k].id == id && forall m | k < m < n :: results[m].id != id
    ensures DueAfter(results, n, id, first) == results[k].due
    decreases n
  {
    if k < n - 1 {
      DueAfterLast(results, n - 1, id, first, k);
    }
  }

  /** Without a result nothing changes. */
  lemma {:induction false} DueUntouched(results: seq<Result>, n: nat, id: string, first: nat)
    requires n <= |results| && forall k | 0 <= k < n :: results[k].id != id
    ensures DueAfter(results, n, id, first) == first
    decreases n
  {
    if n > 0 {
      DueUntouched(results, n - 1, id, first);
    }
  }

  ghost function Noted(history: map<string, seq<Probe>>, id: string, p: Probe): map<string, seq<Probe>> {
    if id in history then history[id := history[id] + [p]] else history
  }

  ghost function NotedAll(history: map<string, seq<Probe>>, results: seq<Result>): map<string, seq<Probe>> {
    if results == [] then history
    else
      var n := |results| - 1;
      Noted(NotedAll(history, results[..n]), results[n].id, results[n].probe)
  }

  lemma {:induction false} NotedAllIs(history: map<string, seq<Probe>>, results: seq<Result>)
    ensures NotedAll(history, results).Keys == history.Keys
    ensures forall id | id in history :: NotedAll(history, results)[id] == history[id] + ResultsOf(results, id)
    decreases |results|
  {
    if results != [] {
      NotedAllIs(history, results[..|results| - 1]);
    }
  }

  function ResultsOf(results: seq<Result>, id: string): seq<Probe> {
    if results == [] then []
    else
      var n := |results| - 1;
      ResultsOf(results[..n], id) + if results[n].id == id then [results[n].probe] else []
  }
}
