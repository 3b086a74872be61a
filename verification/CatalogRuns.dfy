/**
 Following catalogs over time: rounds of `tick`, NOTIFYs and edits from elsewhere in
 any order, with settings and catalogs changing as they like.
 */
module CatalogRuns {
  import opened Addresses
  import opened Clock
  import opened MemberStore
  import opened CatalogConsumer

  /** A step from a valid store leads to one. */
  ghost predicate ValidFrom(a: Sys, b: Sys) {
    ValidDb(a.db) ==> ValidDb(b.db)
  }

  ghost predicate ValidSteps(run: seq<Sys>) {
    forall i | 0 <= i < |run| - 1 :: ValidFrom(run[i], run[i + 1])
  }

  lemma {:induction false} ValidThroughout(run: seq<Sys>, n: nat)
    requires n < |run| && ValidDb(run[0].db) && ValidSteps(run)
    ensures ValidDb(run[n].db)
    decreases n
  {
    if n > 0 {
      ValidThroughout(run, n - 1);
      assert ValidFrom(run[n - 1], run[n - 1 + 1]);
    }
  }

  lemma RunKeepsValid(run: seq<Sys>, events: seq<Event>, n: nat)
    requires IsRun(run, events) && n < |run|
    ensures ValidDb(run[n].db)
  {
    forall i | 0 <= i < |run| - 1
      ensures ValidFrom(run[i], run[i + 1])
    {
      StepOf(run, events, i);
      StepKeepsValid(run[i], events[i], run[i + 1]);
    }
    ValidThroughout(run, n);
  }

  lemma StepKeepsValid(a: Sys, e: Event, b: Sys)
    requires Step(a, e, b)
    ensures ValidFrom(a, b)
  {
  }

  // ---- Whose zones are touched -----------------------------------------------------------------

  function OwnerOf(db: Db, id: nat): Option<string> {
    if id in db.owners then Some(db.owners[id]) else None
  }

  /** The event is no business of a zone with this owner. */
  predicate Elsewhere(e: Event, id: nat, owner: Option<string>) {
    match e
    case Sweep(configured) => owner.Some? ==> owner.value in configured
    case Check(c, _, _) => owner != Some(Normalize(c.name))
    case Woken(_) => true
    case Edit(edited) => id !in edited
  }

  lemma StepElsewhere(a: Sys, e: Event, b: Sys, id: nat)
    requires Step(a, e, b) && id in a.db.zones && Elsewhere(e, id, OwnerOf(a.db, id))
    ensures Untouched(a.db, b.db, id)
  {
    match e
    case Sweep(configured) =>
      assert id !in Orphans(a.db, configured);
    case Check(c, _, _) =>
      assert Foreign(a.db, id, Normalize(c.name));
    case Woken(_) =>
    case Edit(_) =>
  }

  /** From `a` to `b` the zone stays as it is in `first`. */
  ghost predicate Stays(first: Db, id: nat, a: Sys, b: Sys) {
    Untouched(first, a.db, id) ==> Untouched(first, b.db, id)
  }

  lemma StaysOneMore(run: seq<Sys>, events: seq<Event>, first: Db, id: nat, i: nat)
    requires IsRun(run, events) && i < |events| && Elsewhere(events[i], id, OwnerOf(first, id))
    ensures Stays(first, id, run[i], run[i + 1])
  {
    StepOf(run, events, i);
    if Untouched(first, run[i].db, id) {
      StepElsewhere(run[i], events[i], run[i + 1], id);
    }
  }

  lemma {:induction false} StaysThroughout(first: Db, id: nat, run: seq<Sys>, n: nat)
    requires n < |run| && Untouched(first, run[0].db, id)
    requires forall i | 0 <= i < n :: Stays(first, id, run[i], run[i + 1])
    ensures Untouched(first, run[n].db, id)
    decreases n
  {
    if n > 0 {
      StaysThroughout(first, id, run, n - 1);
      assert Stays(first, id, run[n - 1], run[n - 1 + 1]);
    }
  }

  lemma StepOf(run: seq<Sys>, events: seq<Event>, i: nat)
    requires IsRun(run, events) && i < |events|
    ensures Step(run[i], events[i], run[i + 1])
  {
  }

  /**
   Over every run, a zone no catalog added is the same at the end, masters and all,
   unless something other than the catalogs edited it; and a catalog's zone is touched
   only by its own catalog's checks, or once that catalog is no longer configured.
   */
  lemma OnlyTheOwnerTouches(run: seq<Sys>, events: seq<Event>, id: nat, n: nat)
    requires IsRun(run, events) && n <= |events| && id in run[0].db.zones
    requires forall i | 0 <= i < n :: Elsewhere(events[i], id, OwnerOf(run[0].db, id))
    ensures Untouched(run[0].db, run[n].db, id)
  {
    forall i | 0 <= i < n
      ensures Stays(run[0].db, id, run[i], run[i + 1])
    {
      StaysOneMore(run, events, run[0].db, id, i);
    }
    StaysThroughout(run[0].db, id, run, n);
  }

  // ---- Owners are configured ----------------------------------------------------------------------

  /** From `i` to `n` only NOTIFYs came in and only catalogs in `configured` were checked. */
  ghost predicate OnlyChecks(events: seq<Event>, i: nat, n: nat, configured: set<string>)
    requires i <= n <= |events|
  {
    forall j | i <= j < n :: events[j].Woken? || (events[j].Check? && Normalize(events[j].c.name) in configured)
  }

  /** Once orphans were removed, every owner is configured, through all checks of configured catalogs. */
  lemma {:induction false} OwnersConfigured(run: seq<Sys>, events: seq<Event>, i: nat, n: nat, configured: set<string>)
    requires IsRun(run, events) && i < n < |run| && events[i] == Sweep(configured)
    requires OnlyChecks(events, i + 1, n, configured)
    ensures OwnersIn(run[n].db, configured)
    decreases n
  {
    if n == i + 1 {
      SweepConfigures(run, events, i, configured);
    } else {
      var before := n - 1;
      CheckedBefore(events, i + 1, before, configured);
      OwnersConfigured(run, events, i, before, configured);
      CheckKeepsOwners(run, events, before, configured);
    }
  }

  lemma CheckedBefore(events: seq<Event>, i: nat, n: nat, configured: set<string>)
    requires i <= n < |events| && OnlyChecks(events, i, n + 1, configured)
    ensures OnlyChecks(events, i, n, configured)
    ensures events[n].Woken? || (events[n].Check? && Normalize(events[n].c.name) in configured)
  {
  }

  lemma SweepConfigures(run: seq<Sys>, events: seq<Event>, i: nat, configured: set<string>)
    requires IsRun(run, events) && i < |events| && events[i] == Sweep(configured)
    ensures OwnersIn(run[i + 1].db, configured)
  {
    RunKeepsValid(run, events, i);
    StepOf(run, events, i);
    SweptAll(run[i].db, run[i + 1].db, configured);
  }

  lemma CheckKeepsOwners(run: seq<Sys>, events: seq<Event>, i: nat, configured: set<string>)
    requires IsRun(run, events) && i < |events| && OwnersIn(run[i].db, configured)
    requires events[i].Woken? || (events[i].Check? && Normalize(events[i].c.name) in configured)
    ensures OwnersIn(run[i + 1].db, configured)
  {
    StepOf(run, events, i);
    if events[i].Check? {
      OwnersStayIn(run[i].db, run[i + 1].db, Normalize(events[i].c.name), configured);
    }
  }

  /** After a round every zone a catalog added belongs to a configured catalog. */
  lemma RoundLeavesOwnersConfigured(run: seq<Sys>, consumers: seq<Consumer>, inputs: seq<Input>, now: nat)
    requires |inputs| == |consumers| && IsRun(run, RoundEvents(consumers, inputs, now))
    ensures OwnersIn(run[|run| - 1].db, Configured(consumers))
  {
    var events, n := RoundEvents(consumers, inputs, now), |consumers| + 1;
    forall j | 1 <= j < n
      ensures events[j].Check? && Normalize(events[j].c.name) in Configured(consumers)
    {
      assert events[j - 1 + 1] == Check(consumers[j - 1], inputs[j - 1], now);
      assert consumers[j - 1] in consumers;
    }
    OwnersConfigured(run, events, 0, n, Configured(consumers));
  }

  // ---- A recorded serial stands for a reconciled list -------------------------------------------------

  /** At `i` a check of `catalog` had just reconciled the list a master gave with `serial`. */
  ghost predicate ReconciledAt(run: seq<Sys>, events: seq<Event>, i: nat, catalog: string, serial: nat) {
    && 1 <= i < |run| && |run| == |events| + 1
    && match events[i - 1]
       case Check(c, input, _) =>
         && Normalize(c.name) == catalog
         && (match DecidingFor(input, Last(run[i - 1].state, catalog))
             case Some(Soa(s, Members(members))) => s == serial && Reconciled(run[i].db, catalog, c, members)
             case _ => false)
       case _ => false
  }

  /** What a step does to the serial noted for a catalog: it stays, goes, or is that of a list just reconciled. */
  lemma SerialStep(run: seq<Sys>, events: seq<Event>, n: nat, catalog: string, serial: nat)
    requires IsRun(run, events) && 1 <= n < |run| && Last(run[n].state, catalog) == Some(serial)
    ensures Last(run[n - 1].state, catalog) == Some(serial) || ReconciledAt(run, events, n, catalog, serial)
  {
    StepOf(run, events, n - 1);
    var a, b := run[n - 1], run[n];
    if events[n - 1].Check? && Normalize(events[n - 1].c.name) == catalog && Last(a.state, catalog) != Some(serial) {
      CheckNotes(a, events[n - 1].c, events[n - 1].input, events[n - 1].now, b, serial);
    }
  }

  lemma CheckNotes(a: Sys, c: Consumer, input: Input, now: nat, b: Sys, serial: nat)
    requires Checks(a, c, input, now, b) && Last(b.state, Normalize(c.name)) == Some(serial)
    requires Last(a.state, Normalize(c.name)) != Some(serial)
    ensures match DecidingFor(input, Last(a.state, Normalize(c.name)))
            case Some(Soa(s, Members(members))) => s == serial && Reconciled(b.db, Normalize(c.name), c, members)
            case _ => false
  {
    var r :| Refreshes(a, c, input, now, b, r);
  }

  /**
   In every run that starts with nothing noted, a serial noted for a catalog was noted
   by a check that had just reconciled the list its master gave with that serial, and
   has been the noted one ever since.
   */
  lemma {:induction false} RecordedIsReconciled(run: seq<Sys>, events: seq<Event>, n: nat, catalog: string, serial: nat)
    returns (i: nat)
    requires IsRun(run, events) && run[0].state == map[] && n < |run| && Last(run[n].state, catalog) == Some(serial)
    ensures i <= n && ReconciledAt(run, events, i, catalog, serial)
    ensures forall j | i <= j <= n :: Last(run[j].state, catalog) == Some(serial)
    decreases n
  {
    SerialStep(run, events, n, catalog, serial);
    if Last(run[n - 1].state, catalog) == Some(serial) {
      i := RecordedIsReconciled(run, events, n - 1, catalog, serial);
    } else {
      i := n;
    }
  }

  // ---- Which master's list a check follows ------------------------------------------------------------

  /** An enabled catalog not checked yet, or not for as long as its refresh says. */
  predicate DueAt(state: map<string, (Option<nat>, nat)>, c: Consumer, now: nat) {
    && c.enabled
    && (Normalize(c.name) in state ==> c.refresh == 0 || state[Normalize(c.name)].1 + c.refresh <= now)
  }

  /**
   A check of a catalog that is due follows the list of the first master that has a new
   serial and hands one over, when those before it gave no SOA, other data or a failed
   transfer: the catalog is in line with that list and its serial noted, unless the store
   refuses a name or the serving data cannot be rebuilt.
   */
  lemma CheckFollowsFirstList(a: Sys, c: Consumer, input: Input, now: nat, b: Sys, i: nat, serial: nat, members: seq<string>)
    requires Checks(a, c, input, now, b) && DueAt(a.state, c, now) && input.apex
    requires FirstToDecide(input.answers, Last(a.state, Normalize(c.name)), i)
    requires input.answers[i] == Soa(serial, Members(members)) && Last(a.state, Normalize(c.name)) != Some(serial)
    ensures !Refuses(a.db, members, input.refused) ==> Reconciled(b.db, Normalize(c.name), c, members)
    ensures var noted := if Refuses(a.db, members, input.refused) || (b.db.zones.Keys != a.db.zones.Keys && !input.reloads)
                         then Last(a.state, Normalize(c.name)) else Some(serial);
            b.state == a.state[Normalize(c.name) := (noted, now)]
  {
    DecidingExactly(input.answers, Last(a.state, Normalize(c.name)));
    var r :| Refreshes(a, c, input, now, b, r);
  }

  /**
   A check of a catalog that is due and finds the serial it noted last, or a catalog it
   cannot use, or no master at all, leaves every zone there is; and one that is not due
   leaves everything.
   */
  lemma CheckWithoutList(a: Sys, c: Consumer, input: Input, now: nat, b: Sys)
    requires Checks(a, c, input, now, b)
    requires !DueAt(a.state, c, now) || !input.apex || AllPassedOver(input.answers, Last(a.state, Normalize(c.name)))
      || exists i: nat :: FirstToDecide(input.answers, Last(a.state, Normalize(c.name)), i)
           && (input.answers[i] == BadMaster || input.answers[i].transfer == BadCatalog
               || Last(a.state, Normalize(c.name)) == Some(input.answers[i].serial))
    ensures b.db.zones == a.db.zones && (!DueAt(a.state, c, now) ==> b == a)
    ensures DueAt(a.state, c, now) ==> b.state == a.state[Normalize(c.name) := (Last(a.state, Normalize(c.name)), now)]
  {
    DecidingExactly(input.answers, Last(a.state, Normalize(c.name)));
    if DueAt(a.state, c, now) {
      var r :| Refreshes(a, c, input, now, b, r);
    }
  }

  // ---- What a reconciled list is worth later ------------------------------------------------------------

  /** The zones `catalog` owns are the same in both, masters and all. */
  ghost predicate OwnKept(a: Db, b: Db, catalog: string) {
    && (forall id | Owned(a, id, catalog) :: Untouched(a, b, id))
    && (forall id | Owned(b, id, catalog) :: Owned(a, id, catalog))
  }

  /** The event is not an edit, a check of `catalog` that is due, or its removal from the settings. */
  predicate LeavesAlone(s: Sys, e: Event, catalog: string) {
    match e
    case Sweep(configured) => catalog in configured
    case Check(c, _, now) => Normalize(c.name) != catalog || !IsDue(s.state, c, now)
    case Woken(_) => true
    case Edit(_) => false
  }

  lemma OwnKeptThen(a: Db, b: Db, d: Db, catalog: string)
    requires OwnKept(a, b, catalog) && OwnKept(b, d, catalog)
    ensures OwnKept(a, d, catalog)
  {
    forall id | Owned(a, id, catalog)
      ensures Untouched(a, d, id)
    {
      assert Untouched(a, b, id) && Owned(b, id, catalog);
      assert Untouched(b, d, id);
    }
  }

  lemma OwnKeptByOther(a: Db, b: Db, catalog: string, other: string)
    requires Touches(a, b, other) && other != catalog
    ensures OwnKept(a, b, catalog)
  {
    forall id | Owned(a, id, catalog)
      ensures Untouched(a, b, id)
    {
      assert Foreign(a, id, other);
    }
    forall id | Owned(b, id, catalog)
      ensures Owned(a, id, catalog)
    {
      assert id in a.zones;
    }
  }

  lemma OwnKeptBySweep(a: Db, b: Db, catalog: string, configured: set<string>)
    requires Swept(a, b, configured, {}) && catalog in configured
    ensures OwnKept(a, b, catalog)
  {
    forall id | Owned(a, id, catalog)
      ensures Untouched(a, b, id)
    {
      assert id !in Orphans(a, configured);
    }
    forall id | Owned(b, id, catalog)
      ensures Owned(a, id, catalog)
    {
      assert Untouched(a, b, id);
    }
  }

  lemma OwnKeptByStep(a: Sys, e: Event, b: Sys, catalog: string)
    requires Step(a, e, b) && LeavesAlone(a, e, catalog)
    ensures OwnKept(a.db, b.db, catalog)
  {
    match e
    case Sweep(configured) => OwnKeptBySweep(a.db, b.db, catalog, configured);
    case Check(c, _, now) =>
      if Normalize(c.name) != catalog {
        OwnKeptByOther(a.db, b.db, catalog, Normalize(c.name));
      }
    case Woken(_) =>
    case Edit(_) =>
  }

  /** Nothing from `i` to `n` is about `catalog`. */
  ghost predicate LeftAlone(run: seq<Sys>, events: seq<Event>, i: nat, n: nat, catalog: string)
    requires n <= |run| && n <= |events|
  {
    forall j | i <= j < n :: LeavesAlone(run[j], events[j], catalog)
  }

  ghost predicate OwnKeptAt(run: seq<Sys>, i: nat, catalog: string)
    requires i + 1 < |run|
  {
    OwnKept(run[i].db, run[i + 1].db, catalog)
  }

  lemma LeftAloneAt(run: seq<Sys>, events: seq<Event>, i: nat, catalog: string)
    requires IsRun(run, events) && i < |events| && LeavesAlone(run[i], events[i], catalog)
    ensures OwnKeptAt(run, i, catalog)
  {
    StepOf(run, events, i);
    OwnKeptByStep(run[i], events[i], run[i + 1], catalog);
  }

  lemma {:induction false} OwnKeptThroughout(run: seq<Sys>, i: nat, n: nat, catalog: string)
    requires i <= n < |run| && forall j | i <= j < n :: OwnKeptAt(run, j, catalog)
    ensures OwnKept(run[i].db, run[n].db, catalog)
    decreases n
  {
    if i < n {
      var before := n - 1;
      OwnKeptThroughout(run, i, before, catalog);
      assert OwnKeptAt(run, before, catalog);
      OwnKeptThen(run[i].db, run[before].db, run[n].db, catalog);
    }
  }

  lemma OwnKeptByRun(run: seq<Sys>, events: seq<Event>, i: nat, n: nat, catalog: string)
    requires IsRun(run, events) && i <= n < |run| && LeftAlone(run, events, i, n, catalog)
    ensures OwnKept(run[i].db, run[n].db, catalog)
  {
    forall j | i <= j < n
      ensures OwnKeptAt(run, j, catalog)
    {
      assert LeavesAlone(run[j], events[j], catalog);
      LeftAloneAt(run, events, j, catalog);
    }
    OwnKeptThroughout(run, i, n, catalog);
  }

  /** With a zone of that name and the catalog's own zones kept, a settled member stays settled. */
  lemma StaysSettled(a: Db, b: Db, catalog: string, c: Consumer, m: string)
    requires ValidDb(a) && OwnKept(a, b, catalog) && Settled(a, catalog, c, m) && HasName(b, m)
    ensures Settled(b, catalog, c, m)
  {
    var id :| id in b.zones && b.zones[id] == m;
    if Owned(b, id, catalog) {
      assert Owned(a, id, catalog) && Untouched(a, b, id);
      assert Serves(a, catalog, Wanted(c, m));
      assert Serves(b, catalog, Wanted(c, m));
    } else {
      assert Foreign(b, id, catalog);
    }
  }

  lemma OwnKeptReconciled(a: Db, b: Db, catalog: string, c: Consumer, members: seq<string>)
    requires ValidDb(a) && OwnKept(a, b, catalog) && Reconciled(a, catalog, c, members)
    ensures Reconciled(b, catalog, c, members) <==> AllNamed(b, members)
  {
    if AllNamed(b, members) {
      forall k | 0 <= k < |members|
        ensures Settled(b, catalog, c, members[k])
      {
        assert HasName(b, members[k]) && Settled(a, catalog, c, members[k]);
        StaysSettled(a, b, catalog, c, members[k]);
      }
      forall id | Owned(b, id, catalog)
        ensures b.zones[id] in members
      {
        assert Owned(a, id, catalog) && Untouched(a, b, id);
      }
    }
    if Reconciled(b, catalog, c, members) {
      forall k | 0 <= k < |members|
        ensures HasName(b, members[k])
      {
        SettledHasName(b, catalog, c, members[k]);
      }
    }
  }

  /**
   From a check that reconciled its list to the catalog's next one, whatever other
   catalogs' checks, NOTIFYs and sweeps come in between: the catalog is in line with the
   list if and only if every listed name still has a zone. Its own zones have; a clashing
   one may have been another catalog's, removed since.
   */
  lemma ReconciledWhileNamed(run: seq<Sys>, events: seq<Event>, i: nat, n: nat, catalog: string, c: Consumer,
                             members: seq<string>)
    requires IsRun(run, events) && i <= n < |run| && Reconciled(run[i].db, catalog, c, members)
    requires LeftAlone(run, events, i, n, catalog)
    ensures Reconciled(run[n].db, catalog, c, members) <==> AllNamed(run[n].db, members)
  {
    RunKeepsValid(run, events, i);
    OwnKeptByRun(run, events, i, n, catalog);
    OwnKeptReconciled(run[i].db, run[n].db, catalog, c, members);
  }

  /** The `k`-th catalog's check in a round went through with a list its master gave under a new serial. */
  ghost predicate WentThrough(run: seq<Sys>, c: Consumer, input: Input, k: nat, serial: nat, members: seq<string>)
    requires k + 2 < |run|
  {
    var before, after := Last(run[k + 1].state, Normalize(c.name)), Last(run[k + 2].state, Normalize(c.name));
    before != Some(serial) && after == Some(serial) && DecidingFor(input, before) == Some(Soa(serial, Members(members)))
  }

  /**
   At the end of a round, a catalog whose check in it went through is in line with its
   list if and only if every listed name has a zone: no later check of the round took
   away a zone it clashed with, or another came to take its place.
   */
  lemma RoundLeavesReconciled(run: seq<Sys>, consumers: seq<Consumer>, inputs: seq<Input>, now: nat, k: nat,
                              serial: nat, members: seq<string>)
    requires |inputs| == |consumers| && IsRun(run, RoundEvents(consumers, inputs, now)) && k < |consumers|
    requires forall j | k < j < |consumers| :: Normalize(consumers[j].name) != Normalize(consumers[k].name)
    requires WentThrough(run, consumers[k], inputs[k], k, serial, members)
    ensures var last := run[|run| - 1].db;
      Reconciled(last, Normalize(consumers[k].name), consumers[k], members) <==> AllNamed(last, members)
  {
    CheckReconciles(run, consumers, inputs, now, k, serial, members);
    RestKeepsOwn(run, consumers, inputs, now, k);
    OwnKeptReconciled(run[k + 2].db, run[|run| - 1].db, Normalize(consumers[k].name), consumers[k], members);
  }

  lemma RestKeepsOwn(run: seq<Sys>, consumers: seq<Consumer>, inputs: seq<Input>, now: nat, k: nat)
    requires |inputs| == |consumers| && IsRun(run, RoundEvents(consumers, inputs, now)) && k < |consumers|
    requires forall j | k < j < |consumers| :: Normalize(consumers[j].name) != Normalize(consumers[k].name)
    ensures OwnKept(run[k + 2].db, run[|run| - 1].db, Normalize(consumers[k].name))
  {
    var events, catalog := RoundEvents(consumers, inputs, now), Normalize(consumers[k].name);
    RestIsOthers(events, consumers, inputs, now, k);
    OtherChecksKeepOwn(run, events, k + 2, catalog);
  }

  /** From event `i` on, only other catalogs are checked. */
  ghost predicate OtherChecks(events: seq<Event>, i: nat, catalog: string) {
    forall j | i <= j < |events| :: events[j].Check? && Normalize(events[j].c.name) != catalog
  }

  lemma RestIsOthers(events: seq<Event>, consumers: seq<Consumer>, inputs: seq<Input>, now: nat, k: nat)
    requires |inputs| == |consumers| && events == RoundEvents(consumers, inputs, now) && k < |consumers|
    requires forall j | k < j < |consumers| :: Normalize(consumers[j].name) != Normalize(consumers[k].name)
    ensures OtherChecks(events, k + 2, Normalize(consumers[k].name))
  {
    forall j | k + 2 <= j < |events|
      ensures events[j].Check? && Normalize(events[j].c.name) != Normalize(consumers[k].name)
    {
      assert events[j - 1 + 1] == Check(consumers[j - 1], inputs[j - 1], now);
    }
  }

  lemma OtherChecksKeepOwn(run: seq<Sys>, events: seq<Event>, i: nat, catalog: string)
    requires IsRun(run, events) && i < |run| && OtherChecks(events, i, catalog)
    ensures OwnKept(run[i].db, run[|run| - 1].db, catalog)
  {
    forall j | i <= j < |events|
      ensures OwnKeptAt(run, j, catalog)
    {
      assert events[j].Check?;
      LeftAloneAt(run, events, j, catalog);
    }
    OwnKeptThroughout(run, i, |events|, catalog);
  }

  lemma CheckReconciles(run: seq<Sys>, consumers: seq<Consumer>, inputs: seq<Input>, now: nat, k: nat,
                        serial: nat, members: seq<string>)
    requires |inputs| == |consumers| && IsRun(run, RoundEvents(consumers, inputs, now)) && k < |consumers|
    requires WentThrough(run, consumers[k], inputs[k], k, serial, members)
    ensures ValidDb(run[k + 2].db) && Reconciled(run[k + 2].db, Normalize(consumers[k].name), consumers[k], members)
  {
    var events := RoundEvents(consumers, inputs, now);
    assert events[k + 1] == Check(consumers[k], inputs[k], now);
    StepOf(run, events, k + 1);
    CheckNotes(run[k + 1], consumers[k], inputs[k], now, run[k + 2], serial);
  }

  /**
   It can fail: two catalogs, the first listing a zone the second had added and no longer
   lists. The first finds the name taken, then the second's check removes the zone.
   */
  lemma ClashFreedTooLate(c: Consumer, d: Consumer, m: string, serial: nat, other: nat) returns (run: seq<Sys>)
    requires c.enabled && d.enabled && Normalize(c.name) != Normalize(d.name) && Normal(m)
    ensures IsRun(run, RoundEvents([c, d], [Answering(serial, [m]), Answering(other, [])], 0)) && |run| == 4
    ensures WentThrough(run, c, Answering(serial, [m]), 0, serial, [m])
    ensures !Reconciled(run[3].db, Normalize(c.name), c, [m])
  {
    var s1, s2, s3 := TakenStates(c, d, m, serial, other);
    run := [s1, s1, s2, s3];
    RoundOfTwo(run, c, d, Answering(serial, [m]), Answering(other, []));
    DecidedAtOnce(serial, [m], None);
  }

  lemma TakenStates(c: Consumer, d: Consumer, m: string, serial: nat, other: nat) returns (s1: Sys, s2: Sys, s3: Sys)
    requires c.enabled && d.enabled && Normalize(c.name) != Normalize(d.name) && Normal(m)
    ensures ValidDb(s1.db) && Step(s1, Sweep(Configured([c, d])), s1)
    ensures Step(s1, Check(c, Answering(serial, [m]), 0), s2) && Step(s2, Check(d, Answering(other, []), 0), s3)
    ensures Last(s1.state, Normalize(c.name)) == None && Last(s2.state, Normalize(c.name)) == Some(serial)
    ensures !Reconciled(s3.db, Normalize(c.name), c, [m])
  {
    var first, second := Normalize(c.name), Normalize(d.name);
    s1 := Sys(AddMember(NoZones, second, Wanted(d, m)), map[]);
    s2 := Sys(s1.db, s1.state[first := (Some(serial), 0)]);
    s3 := Sys(Remove(s1.db, 0, m), s2.state[second := (Some(other), 0)]);
    OneMember(s1.db, d, m);
    OnlySecondConfigured(s1.db, c, d);
    TakenCheck(c, d, m, serial, s1, s2);
    EmptiedCheck(d, m, other, s2, s3);
    NothingNamed(s3.db, first, c, m);
  }

  lemma NothingNamed(db: Db, catalog: string, c: Consumer, m: string)
    requires db.zones == map[]
    ensures !Reconciled(db, catalog, c, [m])
  {
    assert !Settled(db, catalog, c, [m][0]);
  }

  lemma RoundOfTwo(run: seq<Sys>, c: Consumer, d: Consumer, first: Input, second: Input)
    requires |run| == 4 && ValidDb(run[0].db) && Step(run[0], Sweep(Configured([c, d])), run[1])
    requires Step(run[1], Check(c, first, 0), run[2]) && Step(run[2], Check(d, second, 0), run[3])
    ensures IsRun(run, RoundEvents([c, d], [first, second], 0))
  {
    var events := RoundEvents([c, d], [first, second], 0);
    assert events[0 + 1] == Check(c, first, 0) && events[1 + 1] == Check(d, second, 0);
    ThreeSteps(run, events);
  }

  /** The zone a catalog added to an empty store. */
  lemma OneMember(db: Db, d: Consumer, m: string)
    requires Normal(m) && db == AddMember(NoZones, Normalize(d.name), Wanted(d, m))
    ensures ValidDb(db) && InStep(db) && Owned(db, 0, Normalize(d.name)) && db.zones == map[0 := m]
    ensures db.owners == map[0 := Normalize(d.name)]
  {
    NoZonesValid();
    AddSettles(NoZones, Normalize(d.name), d, m);
    assert NoZones.zones[0 := m] == map[0 := m] && NoZones.owners[0 := Normalize(d.name)] == map[0 := Normalize(d.name)];
  }

  lemma OnlySecondConfigured(db: Db, c: Consumer, d: Consumer)
    requires ValidDb(db) && db.owners == map[0 := Normalize(d.name)]
    ensures Swept(db, db, Configured([c, d]), {})
  {
    assert [c, d][1] == d && d in [c, d];
    OrphanFree(db, Configured([c, d]));
  }

  /** A first check that goes through. */
  lemma FreshCheck(a: Sys, c: Consumer, members: seq<string>, serial: nat, b: Sys)
    requires c.enabled && Normalize(c.name) !in a.state && b.state == a.state[Normalize(c.name) := (Some(serial), 0)]
    requires ValidDb(b.db) && Touches(a.db, b.db, Normalize(c.name)) && InStep(b.db)
    requires Reconciled(b.db, Normalize(c.name), c, members)
    ensures Step(a, Check(c, Answering(serial, members), 0), b)
  {
    DecidedAtOnce(serial, members, None);
    assert Refreshes(a, c, Answering(serial, members), 0, b, Ok(b.db.zones.Keys != a.db.zones.Keys));
  }

  lemma TakenCheck(c: Consumer, d: Consumer, m: string, serial: nat, a: Sys, b: Sys)
    requires c.enabled && Normalize(c.name) != Normalize(d.name) && a.state == map[]
    requires ValidDb(a.db) && InStep(a.db) && Owned(a.db, 0, Normalize(d.name)) && a.db.zones == map[0 := m]
    requires b == Sys(a.db, a.state[Normalize(c.name) := (Some(serial), 0)])
    ensures Step(a, Check(c, Answering(serial, [m]), 0), b)
  {
    TouchesSelf(a.db, Normalize(c.name));
    TakenIsReconciled(a.db, Normalize(c.name), c, m);
    FreshCheck(a, c, [m], serial, b);
  }

  lemma TakenIsReconciled(db: Db, catalog: string, c: Consumer, m: string)
    requires Foreign(db, 0, catalog) && db.zones == map[0 := m]
    ensures Reconciled(db, catalog, c, [m])
  {
    assert Clashes(db, catalog, m) && Settled(db, catalog, c, [m][0]);
  }

  lemma EmptiedCheck(d: Consumer, m: string, other: nat, a: Sys, b: Sys)
    requires d.enabled && Normalize(d.name) !in a.state
    requires ValidDb(a.db) && InStep(a.db) && Owned(a.db, 0, Normalize(d.name)) && a.db.zones == map[0 := m]
    requires b == Sys(Remove(a.db, 0, m), a.state[Normalize(d.name) := (Some(other), 0)])
    ensures Step(a, Check(d, Answering(other, []), 0), b)
    ensures b.db.zones == map[]
  {
    RemoveKeeps(a.db, 0, Normalize(d.name));
    RemoveInStep(a.db, 0);
    FreshCheck(a, d, [], other, b);
  }

  // ---- A member deleted by hand --------------------------------------------------------------------------

  /**
   While the serial stays, a check leaves the catalog in line with a list exactly when
   every listed name still had a zone and the catalog owned no others.
   */
  lemma UnchangedCheckRestoresNothing(a: Sys, c: Consumer, input: Input, now: nat, b: Sys, serial: nat, members: seq<string>)
    requires ValidDb(a.db) && Checks(a, c, input, now, b) && IsDue(a.state, c, now)
    requires Last(a.state, Normalize(c.name)) == Some(serial)
    requires var d := DecidingFor(input, Some(serial)); d.Some? && d.value.Soa? && d.value.serial == serial
    ensures b.db.zones == a.db.zones
    ensures Reconciled(b.db, Normalize(c.name), c, members) <==>
      AllNamed(a.db, members) && forall id | Owned(a.db, id, Normalize(c.name)) :: a.db.zones[id] in members
  {
    var r :| Refreshes(a, c, input, now, b, r);
    UnchangedSerialRestoresNothing(a.db, b.db, Normalize(c.name), c, members);
  }

  const NoZones := Db(map[], map[], map[], map[], 0)

  /** One master that gives this serial and list. */
  function Answering(serial: nat, members: seq<string>): Input {
    Input(true, [Soa(serial, Members(members))], {}, true)
  }

  /**
   A member zone deleted by hand stays away: a catalog is followed, its zone deleted,
   and the next check, which finds the serial unchanged, leaves it so.
   */
  lemma HandDeletedStaysAway(c: Consumer, m: string, serial: nat) returns (run: seq<Sys>, events: seq<Event>)
    requires c.enabled && Normal(m)
    ensures IsRun(run, events) && |events| == 3
    ensures run[0] == Sys(NoZones, map[]) && events[0] == Check(c, Answering(serial, [m]), 0)
    ensures events[1].Edit? && events[2] == Check(c, Answering(serial, [m]), c.refresh)
    ensures Reconciled(run[1].db, Normalize(c.name), c, [m]) && !Reconciled(run[3].db, Normalize(c.name), c, [m])
    ensures Last(run[3].state, Normalize(c.name)) == Some(serial)
  {
    var s0, s1, s2, s3 := HandDeletedStates(c, m, serial);
    run := [s0, s1, s2, s3];
    events := [Check(c, Answering(serial, [m]), 0), Edit({0}), Check(c, Answering(serial, [m]), c.refresh)];
    ThreeSteps(run, events);
  }

  lemma HandDeletedStates(c: Consumer, m: string, serial: nat) returns (s0: Sys, s1: Sys, s2: Sys, s3: Sys)
    requires c.enabled && Normal(m)
    ensures s0 == Sys(NoZones, map[]) && ValidDb(s0.db) && Last(s3.state, Normalize(c.name)) == Some(serial)
    ensures Step(s0, Check(c, Answering(serial, [m]), 0), s1) && Step(s1, Edit({0}), s2)
    ensures Step(s2, Check(c, Answering(serial, [m]), c.refresh), s3)
    ensures Reconciled(s1.db, Normalize(c.name), c, [m]) && !Reconciled(s3.db, Normalize(c.name), c, [m])
  {
    var catalog := Normalize(c.name);
    s0 := Sys(NoZones, map[]);
    s1 := Sys(AddMember(NoZones, catalog, Wanted(c, m)), map[catalog := (Some(serial), 0)]);
    s2 := Sys(Remove(s1.db, 0, m), s1.state);
    s3 := Sys(s2.db, map[catalog := (Some(serial), c.refresh)]);
    FirstCheck(c, m, serial, s0, s1);
    DeletedByHand(catalog, c, m, s1, s2);
    SecondCheck(c, m, serial, s2, s3);
  }

  lemma ThreeSteps(run: seq<Sys>, events: seq<Event>)
    requires |run| == 4 && |events| == 3 && ValidDb(run[0].db)
    requires Step(run[0], events[0], run[1]) && Step(run[1], events[1], run[2]) && Step(run[2], events[2], run[3])
    ensures IsRun(run, events)
  {
  }

  lemma DeletedByHand(catalog: string, c: Consumer, m: string, s1: Sys, s2: Sys)
    requires s1.db == AddMember(NoZones, catalog, Wanted(c, m)) && ValidDb(s1.db) && InStep(s1.db)
    requires s2 == Sys(Remove(s1.db, 0, m), s1.state)
    ensures Step(s1, Edit({0}), s2) && s2.db.zones == map[] && InStep(s2.db)
  {
    assert Owned(s1.db, 0, catalog) && s1.db.zones[0] == m;
    RemoveKeeps(s1.db, 0, catalog);
    RemoveInStep(s1.db, 0);
  }

  lemma NoZonesValid()
    ensures ValidDb(NoZones) && InStep(NoZones) && forall m :: !HasName(NoZones, m)
  {
  }

  lemma FirstCheck(c: Consumer, m: string, serial: nat, s0: Sys, s1: Sys)
    requires c.enabled && Normal(m) && s0 == Sys(NoZones, map[])
    requires s1 == Sys(AddMember(NoZones, Normalize(c.name), Wanted(c, m)), map[Normalize(c.name) := (Some(serial), 0)])
    ensures Step(s0, Check(c, Answering(serial, [m]), 0), s1)
    ensures ValidDb(s1.db) && InStep(s1.db) && Reconciled(s1.db, Normalize(c.name), c, [m])
  {
    NoZonesValid();
    AddSettles(NoZones, Normalize(c.name), c, m);
    AddedIsReconciled(Normalize(c.name), c, m);
    FirstRefresh(c, m, serial, s0, s1);
  }

  lemma AddedIsReconciled(catalog: string, c: Consumer, m: string)
    requires Settled(AddMember(NoZones, catalog, Wanted(c, m)), catalog, c, m)
    ensures var db := AddMember(NoZones, catalog, Wanted(c, m));
      Reconciled(db, catalog, c, [m]) && db.zones.Keys != NoZones.zones.Keys
  {
    var db := AddMember(NoZones, catalog, Wanted(c, m));
    assert 0 in db.zones && 0 !in NoZones.zones;
    assert forall id | Owned(db, id, catalog) :: db.zones[id] == m;
    assert [m][0] == m;
  }

  lemma FirstRefresh(c: Consumer, m: string, serial: nat, s0: Sys, s1: Sys)
    requires c.enabled && s0.state == map[] && s1.state == map[Normalize(c.name) := (Some(serial), 0)]
    requires ValidDb(s1.db) && Touches(s0.db, s1.db, Normalize(c.name)) && InStep(s1.db)
    requires Reconciled(s1.db, Normalize(c.name), c, [m]) && s1.db.zones.Keys != s0.db.zones.Keys
    ensures Step(s0, Check(c, Answering(serial, [m]), 0), s1)
  {
    FirstNote(s0, c, [m], serial, s1);
  }

  lemma FirstNote(s0: Sys, c: Consumer, members: seq<string>, serial: nat, s1: Sys)
    requires s0.state == map[] && s1.state == map[Normalize(c.name) := (Some(serial), 0)]
    requires Reconciled(s1.db, Normalize(c.name), c, members) && s1.db.zones.Keys != s0.db.zones.Keys
    ensures Refreshes(s0, c, Answering(serial, members), 0, s1, Ok(true))
  {
    DecidedAtOnce(serial, members, None);
    OnlyNote(s0.state, Normalize(c.name), (Some(serial), 0));
  }

  lemma OnlyNote(state: map<string, (Option<nat>, nat)>, catalog: string, note: (Option<nat>, nat))
    requires state == map[]
    ensures state[catalog := note] == map[catalog := note] && Last(state, catalog) == None
  {
  }

  lemma SecondCheck(c: Consumer, m: string, serial: nat, s2: Sys, s3: Sys)
    requires c.enabled && s2.db.zones == map[] && ValidDb(s2.db) && InStep(s2.db)
    requires s2.state == map[Normalize(c.name) := (Some(serial), 0)]
    requires s3 == Sys(s2.db, map[Normalize(c.name) := (Some(serial), c.refresh)])
    ensures Step(s2, Check(c, Answering(serial, [m]), c.refresh), s3)
    ensures !Reconciled(s3.db, Normalize(c.name), c, [m])
  {
    var catalog := Normalize(c.name);
    TouchesSelf(s2.db, catalog);
    DecidedAtOnce(serial, [m], Some(serial));
    assert Refreshes(s2, c, Answering(serial, [m]), c.refresh, s3, Ok(false));
    assert !Settled(s3.db, catalog, c, [m][0]);
  }

  lemma DecidedAtOnce(serial: nat, members: seq<string>, last: Option<nat>)
    ensures DecidingFor(Answering(serial, members), last) == Some(Soa(serial, Members(members)))
  {
  }
}
