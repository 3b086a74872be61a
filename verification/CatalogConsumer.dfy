/**
 Following catalog zones (RFC 9432): the zones a catalog lists are served here as
 secondaries from its masters, and nothing else is touched.
 */
module CatalogConsumer {
  import opened Addresses
  import opened Clock
  import opened Text
  import opened MemberStore

  // ---- What a catalog's zones should look like -----------------------------------------------

  datatype Consumer = Consumer(name: string, masters: seq<string>, refresh: nat, enabled: bool)

  /** How this catalog has a member refreshed. */
  function Wanted(c: Consumer, zone: string): Config {
    Config(zone, c.masters, c.refresh, true, "")
  }

  /** `catalog` owns a zone of that name and it is refreshed as `config` says. */
  ghost predicate Serves(db: Db, catalog: string, config: Config) {
    && config.name in db.refresher && db.refresher[config.name] == config
    && exists id :: Owned(db, id, catalog) && db.zones[id] == config.name
  }

  /** Another zone of that name was there first (section 5.2 of RFC 9432). */
  ghost predicate Clashes(db: Db, catalog: string, member: string) {
    exists id :: Foreign(db, id, catalog) && db.zones[id] == member
  }

  ghost predicate Settled(db: Db, catalog: string, c: Consumer, member: string) {
    Serves(db, catalog, Wanted(c, member)) || Clashes(db, catalog, member)
  }

  /** Every listed member is served or clashes, and the catalog owns no other zone. */
  ghost predicate Reconciled(db: Db, catalog: string, c: Consumer, members: seq<string>) {
    && (forall k | 0 <= k < |members| :: Settled(db, catalog, c, members[k]))
    && (forall id | Owned(db, id, catalog) :: db.zones[id] in members)
  }

  /** The catalog's own zones are refreshed as it says. */
  ghost predicate AllRefreshed(db: Db, catalog: string, c: Consumer) {
    forall id | Owned(db, id, catalog) :: Serves(db, catalog, Wanted(c, db.zones[id]))
  }

  predicate Distinct(s: seq<string>) {
    forall i, j | 0 <= i < j < |s| :: s[i] != s[j]
  }

  /** Member lists as `catalog_members` returns them. */
  predicate MemberList(members: seq<string>) {
    Distinct(members) && forall m | m in members :: Normal(m)
  }

  // ---- One member at a time -----------------------------------------------------------------------

  /** From `a` to `b` only the name `m` was added or refreshed otherwise. */
  ghost predicate Grows(a: Db, b: Db, m: string) {
    && (forall id | id in a.zones :: id in b.zones && b.zones[id] == a.zones[id] && SameAt(a.owners, b.owners, id))
    && (forall id | id in b.zones && id !in a.zones :: b.zones[id] == m)
    && (forall k | k != m :: SameAt(a.refresher, b.refresher, k))
  }

  lemma SettledGrows(a: Db, b: Db, catalog: string, c: Consumer, m: string, x: string)
    requires Grows(a, b, m) && Settled(a, catalog, c, x) && x != m
    ensures Settled(b, catalog, c, x)
  {
    if Clashes(a, catalog, x) {
      var id :| Foreign(a, id, catalog) && a.zones[id] == x;
      assert Foreign(b, id, catalog) && b.zones[id] == x;
    } else {
      var id :| Owned(a, id, catalog) && a.zones[id] == x;
      assert Owned(b, id, catalog) && b.zones[id] == x;
      assert SameAt(a.refresher, b.refresher, x);
    }
  }

  lemma SettledOutlivesRemoval(a: Db, id: nat, catalog: string, c: Consumer, x: string)
    requires id in a.zones && a.zones[id] != x && Settled(a, catalog, c, x)
    ensures Settled(Remove(a, id, a.zones[id]), catalog, c, x)
  {
    var b := Remove(a, id, a.zones[id]);
    if Clashes(a, catalog, x) {
      var other :| Foreign(a, other, catalog) && a.zones[other] == x;
      assert Foreign(b, other, catalog) && b.zones[other] == x;
    } else {
      var other :| Owned(a, other, catalog) && a.zones[other] == x;
      assert Owned(b, other, catalog) && b.zones[other] == x;
    }
  }

  datatype Outcome = Ok(changed: bool) | Failed

  /** The zone of that name, if there is one. */
  method FindZone(zones: map<nat, string>, member: string) returns (r: Option<nat>)
    ensures r.Some? ==> r.value in zones && SameIgnoringCase(zones[r.value], member)
    ensures r.None? ==> forall id | id in zones :: !SameIgnoringCase(zones[id], member)
  {
    if id :| id in zones && SameIgnoringCase(zones[id], member) {
      r := Some(id);
    } else {
      r := None;
    }
  }

  /** The elements in some order. */
  method Listed(s: set<string>) returns (q: seq<string>)
    ensures Distinct(q) && forall x :: x in q <==> x in s
  {
    q := [];
    var rest := s;
    while rest != {}
      invariant Distinct(q) && rest <= s
      invariant forall x :: x in q <==> x in s && x !in rest
    {
      var x :| x in rest;
      q, rest := q + [x], rest - {x};
    }
  }

  // ---- What the masters answer -----------------------------------------------------------------

  /** A transfer of the catalog: failed, not a catalog of schema version 2, or its member list. */
  datatype Transfer = TransferFailed | BadCatalog | Members(members: seq<string>)

  /** A master's answer: a bad address, no SOA (or an error), something else, or a serial. */
  datatype Answer = BadMaster | NoSoa | OtherData | Soa(serial: nat, transfer: Transfer)

  /** What the outside does during one refresh. */
  datatype Input = Input(apex: bool, answers: seq<Answer>, refused: set<string>, reloads: bool)

  predicate ValidAnswer(a: Answer) {
    a.Soa? && a.transfer.Members? ==> MemberList(a.transfer.members)
  }

  predicate ValidInput(input: Input) {
    forall k | 0 <= k < |input.answers| :: ValidAnswer(input.answers[k])
  }

  function Last(state: map<string, (Option<nat>, nat)>, catalog: string): Option<nat> {
    if catalog in state then state[catalog].0 else None
  }

  /** The next master is asked. */
  predicate Skips(a: Answer, last: Option<nat>) {
    match a
    case BadMaster => false
    case NoSoa => true
    case OtherData => true
    case Soa(serial, transfer) => last != Some(serial) && transfer.TransferFailed?
  }

  /** The answer that ends the round of masters. */
  function Deciding(answers: seq<Answer>, last: Option<nat>): Option<Answer> {
    if answers == [] then None
    else if Skips(answers[0], last) then Deciding(answers[1..], last)
    else Some(answers[0])
  }

  function Configured(consumers: seq<Consumer>): set<string> {
    set c | c in consumers :: Normalize(c.name)
  }

  /** The masters asked in turn. */
  method Ask(answers: seq<Answer>, last: Option<nat>) returns (r: Option<Answer>)
    ensures r == Deciding(answers, last)
  {
    for i := 0 to |answers|
      invariant Deciding(answers[i..], last) == Deciding(answers, last)
    {
      if !Skips(answers[i], last) {
        return Some(answers[i]);
      }
      assert answers[i..][1..] == answers[i + 1..];
    }
    r := None;
  }

  lemma {:induction false} DecidingIs(answers: seq<Answer>, last: Option<nat>)
    ensures var r := Deciding(answers, last); r.Some? ==>
      && r.value in answers && !Skips(r.value, last)
      && (r.value.BadMaster? || (r.value.Soa? && (last == Some(r.value.serial) || !r.value.transfer.TransferFailed?)))
    decreases |answers|
  {
    if answers != [] {
      DecidingIs(answers[1..], last);
    }
  }

  /** What a refresh that was decided by `deciding` leaves behind. */
  ghost predicate RefreshDone(a: Db, b: Db, catalog: string, c: Consumer, last: Option<nat>, deciding: Option<Answer>,
                              input: Input, r: Outcome) {
    match deciding
    case Some(Soa(serial, transfer)) =>
      if last == Some(serial) then r == Ok(false) && b.zones == a.zones && AllRefreshed(b, catalog, c)
      else if transfer.Members? then ListFollowed(a, b, catalog, c, transfer.members, input, r)
      else r.Failed? && b == a
    case _ => r.Failed? && b == a
  }

  /**
   The list is followed unless the store refuses one of its names, which fails the
   refresh; otherwise it fails only if the serving data had to be rebuilt and could not.
   */
  ghost predicate ListFollowed(a: Db, b: Db, catalog: string, c: Consumer, members: seq<string>, input: Input, r: Outcome) {
    && (Refuses(a, members, input.refused) ==> r.Failed?)
    && (!Refuses(a, members, input.refused) ==> Reconciled(b, catalog, c, members))
    && (!Refuses(a, members, input.refused) ==> (r.Failed? <==> b.zones.Keys != a.zones.Keys && !input.reloads))
    && (r.Ok? ==> (r.changed <==> b.zones.Keys != a.zones.Keys))
  }

  /** The answer decides, and no earlier one does: a bad address, the serial noted last, or a list or a broken catalog. */
  predicate FirstToDecide(answers: seq<Answer>, last: Option<nat>, i: nat) {
    && i < |answers|
    && (answers[i] == BadMaster || (answers[i].Soa? && (last == Some(answers[i].serial) || answers[i].transfer != TransferFailed)))
    && AllPassedOver(answers[..i], last)
  }

  /** No SOA, other data, or another serial than the last whose transfer failed: the next master is asked. */
  predicate AllPassedOver(answers: seq<Answer>, last: Option<nat>) {
    forall j | 0 <= j < |answers| ::
      match answers[j]
      case BadMaster => false
      case NoSoa => true
      case OtherData => true
      case Soa(serial, transfer) => transfer == TransferFailed && (last.None? || last.value != serial)
  }

  /** The first answer that ends the round of masters decides; if none does, nothing is decided. */
  lemma {:induction false} DecidingExactly(answers: seq<Answer>, last: Option<nat>)
    ensures forall i: nat | FirstToDecide(answers, last, i) :: Deciding(answers, last) == Some(answers[i])
    ensures Deciding(answers, last).None? <==> AllPassedOver(answers, last)
    decreases |answers|
  {
    if answers != [] {
      var rest := answers[1..];
      DecidingExactly(rest, last);
      PassedOverFirst(answers, last);
      forall i: nat | FirstToDecide(answers, last, i)
        ensures Deciding(answers, last) == Some(answers[i])
      {
        if i > 0 {
          assert answers[..i][0] == answers[0] && answers[..i][1..] == rest[..i - 1];
          PassedOverFirst(answers[..i], last);
          assert FirstToDecide(rest, last, i - 1);
        }
      }
    }
  }

  lemma PassedOverFirst(answers: seq<Answer>, last: Option<nat>)
    requires answers != []
    ensures AllPassedOver(answers, last) <==> Skips(answers[0], last) && AllPassedOver(answers[1..], last)
  {
    var rest := answers[1..];
    assert forall j | 0 <= j < |rest| :: rest[j] == answers[j + 1];
    if AllPassedOver(rest, last) && Skips(answers[0], last) {
      forall j | 0 < j < |answers|
        ensures AllPassedOver([answers[j]], last)
      {
        assert answers[j] == rest[j - 1];
      }
      assert AllPassedOver([answers[0]], last);
      assert forall j | 0 <= j < |answers| :: [answers[j]][0] == answers[j];
    }
  }

  // ---- Events ---------------------------------------------------------------------------------------

  /** The store, and per catalog the serial last applied and when it was last checked. */
  datatype Sys = Sys(db: Db, state: map<string, (Option<nat>, nat)>)

  /**
   Zones of catalogs no longer configured are removed, a catalog is checked, a NOTIFY
   comes in, or something else edits the zones in `edited`.
   */
  datatype Event =
    | Sweep(configured: set<string>)
    | Check(c: Consumer, input: Input, now: nat)
    | Woken(name: string)
    | Edit(edited: set<nat>)

  predicate IsDue(state: map<string, (Option<nat>, nat)>, c: Consumer, now: nat) {
    var name := Normalize(c.name);
    c.enabled && (name !in state || Elapsed(state[name].1, now) >= c.refresh)
  }

  function DecidingFor(input: Input, last: Option<nat>): Option<Answer> {
    if input.apex then Deciding(input.answers, last) else None
  }

  /** The serial noted after a refresh: the master's if it went through, else the one before. */
  function Noted(deciding: Option<Answer>, last: Option<nat>, r: Outcome): Option<nat> {
    if r.Ok? && deciding.Some? && deciding.value.Soa? then Some(deciding.value.serial) else last
  }

  ghost predicate Refreshes(a: Sys, c: Consumer, input: Input, now: nat, b: Sys, r: Outcome) {
    var catalog := Normalize(c.name);
    var last := Last(a.state, catalog);
    && RefreshDone(a.db, b.db, catalog, c, last, DecidingFor(input, last), input, r)
    && b.state == a.state[catalog := (Noted(DecidingFor(input, last), last, r), now)]
  }

  ghost predicate Checks(a: Sys, c: Consumer, input: Input, now: nat, b: Sys) {
    && ValidDb(b.db) && Touches(a.db, b.db, Normalize(c.name)) && (InStep(a.db) ==> InStep(b.db))
    && if IsDue(a.state, c, now) then exists r :: Refreshes(a, c, input, now, b, r) else b == a
  }

  ghost predicate Step(a: Sys, e: Event, b: Sys) {
    match e
    case Sweep(configured) => Swept(a.db, b.db, configured, {}) && b.state == a.state
    case Check(c, input, now) => Checks(a, c, input, now, b)
    case Woken(name) => b == a.(state := a.state - {Normalize(name)})
    case Edit(edited) =>
      ValidDb(b.db) && b.state == a.state && forall id | id in a.db.zones && id !in edited :: Untouched(a.db, b.db, id)
  }

  /** `run[0]`, then one state after each event. */
  ghost predicate IsRun(run: seq<Sys>, events: seq<Event>) {
    && |run| == |events| + 1 && ValidDb(run[0].db)
    && forall i | 0 <= i < |events| :: Step(run[i], events[i], run[i + 1])
  }

  /** What one round of `tick` does. */
  function RoundEvents(consumers: seq<Consumer>, inputs: seq<Input>, now: nat): (events: seq<Event>)
    requires |inputs| == |consumers|
    ensures |events| == |consumers| + 1 && events[0] == Sweep(Configured(consumers))
    ensures forall k | 0 <= k < |consumers| :: events[k + 1] == Check(consumers[k], inputs[k], now)
  {
    [Sweep(Configured(consumers))]
    + seq(|consumers|, k requires 0 <= k < |consumers| => Check(consumers[k], inputs[k], now))
  }

  lemma CheckDone(a: Sys, c: Consumer, input: Input, now: nat, b: Sys, r: Outcome)
    requires IsDue(a.state, c, now) && ValidDb(b.db) && Touches(a.db, b.db, Normalize(c.name)) && (InStep(a.db) ==> InStep(b.db))
    requires Refreshes(a, c, input, now, b, r)
    ensures Step(a, Check(c, input, now), b)
  {
  }

  lemma OneMoreStep(run: seq<Sys>, events: seq<Event>, n: nat, e: Event, b: Sys)
    requires n < |events| && events[n] == e && IsRun(run, events[..n]) && Step(run[n], e, b)
    ensures IsRun(run + [b], events[..n + 1])
  {
    var longer, es := run + [b], events[..n + 1];
    forall i | 0 <= i < |es|
      ensures Step(longer[i], es[i], longer[i + 1])
    {
      if i < n {
        assert Step(run[i], events[..n][i], run[i + 1]);
      }
    }
  }

  class CatalogFollower {
    var db: Db
    /** Per catalog: the serial last applied, and when it was last checked. */
    var state: map<string, (Option<nat>, nat)>

    constructor (db: Db)
      ensures this.db == db && state == map[]
    {
      this.db, state := db, map[];
    }

    ghost function View(): Sys
      reads this
    {
      Sys(db, state)
    }

    /**
     One member, given the zones and owners read at the start. `refused` are the
     names the store will not create.
     */
    method ServeMember(c: Consumer, m: string, zones: map<nat, string>, owners: map<nat, string>, refused: set<string>)
      returns (r: Outcome)
      requires ValidDb(db) && Normal(m)
      requires forall id | id in zones :: id in db.zones && db.zones[id] == zones[id] && SameAt(owners, db.owners, id)
      requires forall id | id in db.zones && id !in zones :: db.zones[id] != m
      modifies this`db
      ensures ValidDb(db) && Touches(old(db), db, Normalize(c.name)) && Grows(old(db), db, m)
      ensures r.Ok? ==> Settled(db, Normalize(c.name), c, m) && (r.changed <==> db.zones.Keys != old(db).zones.Keys)
      ensures Settled(old(db), Normalize(c.name), c, m) ==> db == old(db) && r == Ok(false)
      ensures HasName(old(db), m) ==> db.zones == old(db).zones
      ensures r.Failed? <==> m in refused && !HasName(old(db), m)
      ensures r.Failed? ==> db == old(db)
      ensures InStep(old(db)) ==> InStep(db)
    {
      var catalog, config := Normalize(c.name), Wanted(c, m);
      TouchesSelf(db, catalog);
      var found := FindZone(zones, m);
      NormalIsLower(m);
      forall id | id in zones
        ensures SameIgnoringCase(zones[id], m) <==> zones[id] == m
      {
        NormalIsLower(zones[id]);
      }
      if found.Some? && found.value in owners && owners[found.value] == catalog {
        var id := found.value;
        assert Owned(db, id, catalog) && db.zones[id] == m;
        OwnedSettled(db, id, catalog, c, m);
        if m !in db.refresher || db.refresher[m] != config {
          RemasterSettles(db, id, catalog, c, m);
          db := Remaster(db, id, config);
        }
        r := Ok(false);
      } else if found.Some? {
        assert Foreign(db, found.value, catalog) && db.zones[found.value] == m;
        r := Ok(false);
      } else if m in refused {
        NothingSettled(db, catalog, c, m);
        r := Failed;
      } else {
        NothingSettled(db, catalog, c, m);
        AddSettles(db, catalog, c, m);
        db := AddMember(db, catalog, config);
        r := Ok(true);
      }
    }

    /** A zone of `catalog` it no longer lists. */
    method RemoveMember(catalog: string, id: nat, name: string)
      requires ValidDb(db) && Owned(db, id, catalog) && db.zones[id] == name
      modifies this`db
      ensures db == Remove(old(db), id, name)
      ensures ValidDb(db) && Touches(old(db), db, catalog) && (InStep(old(db)) ==> InStep(db))
    {
      RemoveKeeps(db, id, catalog);
      if InStep(db) {
        RemoveInStep(db, id);
      }
      db := Remove(db, id, name);
    }

    /** Serve the members in turn, up to the first the store refuses. */
    method ServeAll(c: Consumer, wanted: seq<string>, refused: set<string>) returns (r: Outcome)
      requires ValidDb(db) && MemberList(wanted)
      modifies this`db
      ensures exists i :: 0 <= i <= |wanted| && Progress(old(db), db, Normalize(c.name), c, wanted, i)
      ensures r.Ok? ==> Progress(old(db), db, Normalize(c.name), c, wanted, |wanted|)
      ensures r.Ok? ==> (r.changed <==> db.zones.Keys != old(db).zones.Keys)
      ensures AllSettled(old(db), Normalize(c.name), c, wanted) ==> db == old(db) && r == Ok(false)
      ensures AllNamed(old(db), wanted) ==> db.zones.Keys == old(db).zones.Keys && r == Ok(false)
      ensures r.Failed? <==> Refuses(old(db), wanted, refused)
    {
      var catalog := Normalize(c.name);
      ghost var a := db;
      var zones, owners := db.zones, db.owners;
      var changed := false;
      ProgressAtFirst(db, catalog, c, wanted);
      for i := 0 to |wanted|
        invariant Progress(a, db, catalog, c, wanted, i)
        invariant zones.Keys <= db.zones.Keys && (changed <==> db.zones.Keys != zones.Keys)
        invariant AllSettled(a, catalog, c, wanted) ==> db == a
        invariant AllNamed(a, wanted) ==> db.zones.Keys == zones.Keys
        invariant !Refuses(a, wanted[..i], refused)
      {
        ghost var b := db;
        NotYetAdded(a, b, catalog, c, wanted, i);
        NamedStays(a, b, catalog, c, wanted, i);
        var one := ServeMember(c, wanted[i], zones, owners, refused);
        if one.Failed? {
          assert RefusesAt(a, wanted[i], refused);
          return Failed;
        }
        RefusesNext(a, wanted, refused, i);
        ProgressStep(a, b, db, catalog, c, wanted, i);
        KeysGrow(a, b, db, wanted[i]);
        changed := changed || one.changed;
      }
      assert wanted[..|wanted|] == wanted;
      r := Ok(changed);
    }

    /** Remove the zones in `drop`, in any order. */
    method DropAll(c: Consumer, wanted: seq<string>, drop: set<nat>, ghost a: Db)
      requires ValidDb(a) && Pruned(a, db, db, Normalize(c.name), c, wanted, drop, drop)
      modifies this`db
      ensures Pruned(a, old(db), db, Normalize(c.name), c, wanted, drop, {})
      ensures drop == {} ==> db == old(db)
    {
      var rest := drop;
      ghost var b := db;
      while rest != {}
        invariant rest <= drop && Pruned(a, b, db, Normalize(c.name), c, wanted, drop, rest)
        invariant drop == {} ==> db == b
      {
        var id :| id in rest;
        PruneStep(a, b, db, Normalize(c.name), c, wanted, drop, rest, id);
        RemoveMember(Normalize(c.name), id, db.zones[id]);
        rest := rest - {id};
      }
    }

    /** The catalog lists `wanted`: serve those, remove the zones it owns besides. */
    method FollowList(c: Consumer, wanted: seq<string>, refused: set<string>) returns (r: Outcome)
      requires ValidDb(db) && MemberList(wanted)
      modifies this`db
      ensures ValidDb(db) && Touches(old(db), db, Normalize(c.name)) && (InStep(old(db)) ==> InStep(db))
      ensures r.Ok? ==> Reconciled(db, Normalize(c.name), c, wanted)
      ensures r.Ok? ==> (r.changed <==> db.zones.Keys != old(db).zones.Keys)
      ensures Reconciled(old(db), Normalize(c.name), c, wanted) ==> db == old(db) && r == Ok(false)
      ensures r.Failed? <==> Refuses(old(db), wanted, refused)
    {
      ghost var a := db;
      var catalog := Normalize(c.name);
      var drop := set id | id in db.zones && Owned(db, id, catalog) && db.zones[id] !in wanted;
      r := ServeAll(c, wanted, refused);
      if r.Ok? {
        ghost var b := db;
        assert wanted[..|wanted|] == wanted;
        PrunedAtFirst(a, b, catalog, c, wanted, drop);
        DropAll(c, wanted, drop, a);
        PrunedAtLast(a, b, db, catalog, c, wanted, drop);
        r := Ok(r.changed || drop != {});
      }
    }

    /** The list is unchanged: see that the zones the catalog has are refreshed. */
    method RefreshOwn(c: Consumer, refused: set<string>)
      requires ValidDb(db)
      modifies this`db
      ensures ValidDb(db) && Touches(old(db), db, Normalize(c.name)) && (InStep(old(db)) ==> InStep(db))
      ensures db.zones == old(db).zones && AllRefreshed(db, Normalize(c.name), c)
    {
      ghost var a := db;
      var catalog := Normalize(c.name);
      var names := set id | id in db.zones && Owned(db, id, catalog) :: db.zones[id];
      var wanted := Listed(names);
      OwnNames(db, catalog, wanted);
      var r := ServeAll(c, wanted, refused);
      assert wanted[..|wanted|] == wanted;
      OwnRefreshed(a, db, catalog, c, wanted);
    }

    /**
     Bring the catalog's zones in line with `members`; with none given, only see
     that the zones it has are refreshed. `reloads`: the serving data could be rebuilt.
     */
    method Reconcile(c: Consumer, members: Option<seq<string>>, refused: set<string>, reloads: bool) returns (r: Outcome)
      requires ValidDb(db) && (members.Some? ==> MemberList(members.value))
      modifies this`db
      ensures ValidDb(db) && Touches(old(db), db, Normalize(c.name)) && (InStep(old(db)) ==> InStep(db))
      ensures r.Ok? && members.Some? ==> Reconciled(db, Normalize(c.name), c, members.value)
      ensures r.Ok? ==> (r.changed <==> db.zones.Keys != old(db).zones.Keys)
      ensures members.Some? && Reconciled(old(db), Normalize(c.name), c, members.value) ==> db == old(db) && r == Ok(false)
      ensures members.Some? ==> (r.Failed? <== Refuses(old(db), members.value, refused))
      ensures members.Some? && !Refuses(old(db), members.value, refused) ==>
        && Reconciled(db, Normalize(c.name), c, members.value)
        && (r.Failed? <==> db.zones.Keys != old(db).zones.Keys && !reloads)
      ensures members.None? ==> r == Ok(false) && db.zones == old(db).zones && AllRefreshed(db, Normalize(c.name), c)
    {
      match members
      case None =>
        RefreshOwn(c, refused);
        r := Ok(false);
      case Some(wanted) =>
        r := FollowList(c, wanted, refused);
        if r.Ok? && r.changed && !reloads {
          r := Failed;
        }
    }

    /** Remove the zones of catalogs that are not configured. */
    method RemoveOrphans(configured: set<string>)
      requires ValidDb(db)
      modifies this`db
      ensures ValidDb(db) && Swept(old(db), db, configured, {}) && OwnersIn(db, configured)
      ensures Orphans(old(db), configured) == {} ==> db == old(db)
    {
      ghost var a := db;
      var owners := db.owners;
      OrphanFree(db, configured);
      if forall id | id in owners :: owners[id] in configured {
        return;
      }
      var rest := db.zones.Keys;
      while rest != {}
        invariant rest <= a.zones.Keys && Swept(a, db, configured, rest)
      {
        var id :| id in rest;
        SweepStep(a, db, configured, rest, id);
        if id in owners && owners[id] !in configured {
          RemoveMember(owners[id], id, db.zones[id]);
        }
        rest := rest - {id};
      }
      SweptAll(a, db, configured);
    }

    /** The deciding master answered with `serial`: reconcile, and then record it. */
    method Apply(c: Consumer, catalog: string, serial: nat, transfer: Transfer, input: Input, now: nat) returns (r: Outcome)
      requires catalog == Normalize(c.name) && ValidDb(db) && ValidAnswer(Soa(serial, transfer))
      requires Last(state, catalog) == Some(serial) || !transfer.TransferFailed?
      modifies this
      ensures ValidDb(db) && Touches(old(db), db, catalog) && (InStep(old(db)) ==> InStep(db))
      ensures RefreshDone(old(db), db, catalog, c, Last(old(state), catalog), Some(Soa(serial, transfer)), input, r)
      ensures state == if r.Ok? then old(state)[catalog := (Some(serial), now)] else old(state)
    {
      var same := Last(state, catalog) == Some(serial);
      if !same && transfer.BadCatalog? {
        TouchesSelf(db, catalog);
        return Failed;
      }
      r := ReconcileWith(c, catalog, same, transfer, input);
      if r.Ok? {
        state := state[catalog := (Some(serial), now)];
      }
    }

    method ReconcileWith(c: Consumer, catalog: string, same: bool, transfer: Transfer, input: Input) returns (r: Outcome)
      requires catalog == Normalize(c.name) && ValidDb(db) && (!same ==> transfer.Members? && MemberList(transfer.members))
      modifies this`db
      ensures ValidDb(db) && Touches(old(db), db, catalog) && (InStep(old(db)) ==> InStep(db))
      ensures same ==> r == Ok(false) && db.zones == old(db).zones && AllRefreshed(db, catalog, c)
      ensures !same ==> ListFollowed(old(db), db, catalog, c, transfer.members, input, r)
    {
      r := Reconcile(c, if same then None else Some(transfer.members), input.refused, input.reloads);
    }

    /**
     Check one catalog: ask its masters in turn, reconcile when one answers.
     `input.answers` are what the masters would answer, one each.
     */
    method Refresh(c: Consumer, input: Input, now: nat) returns (r: Outcome)
      requires ValidDb(db) && ValidInput(input)
      modifies this
      ensures ValidDb(db) && Touches(old(db), db, Normalize(c.name)) && (InStep(old(db)) ==> InStep(db))
      ensures var last := Last(old(state), Normalize(c.name));
        && RefreshDone(old(db), db, Normalize(c.name), c, last, DecidingFor(input, last), input, r)
        && state == if r.Ok? then old(state)[Normalize(c.name) := (Noted(DecidingFor(input, last), last, r), now)] else old(state)
    {
      var catalog := Normalize(c.name);
      var last := Last(state, catalog);
      if input.apex {
        DecidingIs(input.answers, last);
        var answer := Ask(input.answers, last);
        if answer.Some? && answer.value.Soa? {
          r := Apply(c, catalog, answer.value.serial, answer.value.transfer, input, now);
          return;
        }
      }
      TouchesSelf(db, catalog);
      r := Failed;
    }

    /** A NOTIFY for a catalog: forget when it was last checked. */
    method Wake(name: string)
      modifies this`state
      ensures Step(old(View()), Woken(name), View())
    {
      state := state - {Normalize(name)};
    }

    /** Check a catalog that is due; after a failure, try again on its next refresh. */
    method RefreshIfDue(c: Consumer, input: Input, now: nat)
      requires ValidDb(db) && ValidInput(input)
      modifies this
      ensures Step(old(View()), Check(c, input, now), View()) && ValidDb(db)
    {
      var name := Normalize(c.name);
      ghost var before := View();
      if c.enabled && (name !in state || Elapsed(state[name].1, now) >= c.refresh) {
        var r := Refresh(c, input, now);
        if r.Failed? {
          state := state[name := (Last(state, name), now)];
        }
        CheckDone(before, c, input, now, View(), r);
      } else {
        TouchesSelf(db, name);
      }
    }

    /** The first step of a round. */
    method SweepAway(consumers: seq<Consumer>, ghost inputs: seq<Input>, ghost now: nat) returns (ghost run: seq<Sys>)
      requires ValidDb(db) && |inputs| == |consumers|
      modifies this`db
      ensures ValidDb(db) && run == [old(View()), View()] && IsRun(run, RoundEvents(consumers, inputs, now)[..1])
    {
      run := [View()];
      RemoveOrphans(Configured(consumers));
      OneMoreStep(run, RoundEvents(consumers, inputs, now), 0, Sweep(Configured(consumers)), View());
      run := run + [View()];
    }

    /**
     One round: drop the zones of catalogs no longer configured, check those that are
     due. `run` is where things stood after each of these.
     */
    method Tick(consumers: seq<Consumer>, inputs: seq<Input>, now: nat) returns (ghost run: seq<Sys>)
      requires ValidDb(db) && |inputs| == |consumers|
      requires forall k | 0 <= k < |inputs| :: ValidInput(inputs[k])
      modifies this
      ensures IsRun(run, RoundEvents(consumers, inputs, now)) && run[0] == old(View()) && run[|run| - 1] == View()
    {
      ghost var events := RoundEvents(consumers, inputs, now);
      run := SweepAway(consumers, inputs, now);
      for k := 0 to |consumers|
        invariant IsRun(run, events[..k + 1]) && run[0] == old(View()) && run[k + 1] == View() && ValidDb(db)
      {
        RefreshIfDue(consumers[k], inputs[k], now);
        OneMoreStep(run, events, k + 1, events[k + 1], View());
        run := run + [View()];
      }
      assert events[..|consumers| + 1] == events;
    }
  }

  ghost predicate AllSettled(db: Db, catalog: string, c: Consumer, wanted: seq<string>) {
    forall k | 0 <= k < |wanted| :: Settled(db, catalog, c, wanted[k])
  }

  ghost predicate AllNamed(db: Db, wanted: seq<string>) {
    forall k | 0 <= k < |wanted| :: HasName(db, wanted[k])
  }

  /** From `a` to `b` the first `i` members were served and nothing else happened. */
  ghost predicate Progress(a: Db, b: Db, catalog: string, c: Consumer, wanted: seq<string>, i: nat)
    requires i <= |wanted|
  {
    && ValidDb(b) && Touches(a, b, catalog) && (InStep(a) ==> InStep(b))
    && a.zones.Keys <= b.zones.Keys
    && (forall id | id in b.zones && id !in a.zones :: b.zones[id] in wanted[..i])
    && AllSettled(b, catalog, c, wanted[..i])
  }

  /** Part of the zones to drop are gone (all but `rest`), nothing else changed since `b`. */
  ghost predicate Pruned(a: Db, b: Db, d: Db, catalog: string, c: Consumer, wanted: seq<string>, drop: set<nat>, rest: set<nat>) {
    && ValidDb(d) && Touches(a, d, catalog) && (InStep(a) ==> InStep(d))
    && AllSettled(d, catalog, c, wanted)
    && d.zones.Keys == b.zones.Keys - (drop - rest)
    && OthersListed(d, catalog, wanted, rest)
  }

  lemma PrunedAtFirst(a: Db, b: Db, catalog: string, c: Consumer, wanted: seq<string>, drop: set<nat>)
    requires wanted[..|wanted|] == wanted && Progress(a, b, catalog, c, wanted, |wanted|)
    requires forall id :: id in drop <==> Owned(a, id, catalog) && a.zones[id] !in wanted
    ensures Pruned(a, b, b, catalog, c, wanted, drop, drop)
  {
    forall id | Owned(b, id, catalog) && id !in drop
      ensures b.zones[id] in wanted
    {
      if id in a.zones {
        assert Owned(a, id, catalog);
      }
    }
  }

  lemma PruneStep(a: Db, b: Db, d: Db, catalog: string, c: Consumer, wanted: seq<string>, drop: set<nat>, rest: set<nat>, id: nat)
    requires ValidDb(a) && rest <= drop && id in rest && Pruned(a, b, d, catalog, c, wanted, drop, rest)
    ensures Owned(d, id, catalog)
    ensures Pruned(a, b, Remove(d, id, d.zones[id]), catalog, c, wanted, drop, rest - {id})
  {
    var e := Remove(d, id, d.zones[id]);
    RemoveKeeps(d, id, catalog);
    TouchesThen(a, d, e, catalog);
    if InStep(a) {
      RemoveInStep(d, id);
    }
    SettledOutliveRemoval(d, id, catalog, c, wanted);
    KeysAfterRemoval(b.zones.Keys, d.zones, drop, rest, id);
    RestAfterRemoval(d, catalog, wanted, rest, id);
  }

  lemma KeysAfterRemoval(keys: set<nat>, zones: map<nat, string>, drop: set<nat>, rest: set<nat>, id: nat)
    requires zones.Keys == keys - (drop - rest) && id in rest && rest <= drop
    ensures (zones - {id}).Keys == keys - (drop - (rest - {id}))
  {
  }

  lemma SettledOutliveRemoval(d: Db, id: nat, catalog: string, c: Consumer, wanted: seq<string>)
    requires id in d.zones && d.zones[id] !in wanted && AllSettled(d, catalog, c, wanted)
    ensures AllSettled(Remove(d, id, d.zones[id]), catalog, c, wanted)
  {
    forall k | 0 <= k < |wanted|
      ensures Settled(Remove(d, id, d.zones[id]), catalog, c, wanted[k])
    {
      SettledOutlivesRemoval(d, id, catalog, c, wanted[k]);
    }
  }

  ghost predicate OthersListed(d: Db, catalog: string, wanted: seq<string>, rest: set<nat>) {
    && (forall id | id in rest :: Owned(d, id, catalog) && d.zones[id] !in wanted)
    && (forall id | Owned(d, id, catalog) && id !in rest :: d.zones[id] in wanted)
  }

  lemma RestAfterRemoval(d: Db, catalog: string, wanted: seq<string>, rest: set<nat>, id: nat)
    requires id in rest && OthersListed(d, catalog, wanted, rest)
    ensures OthersListed(Remove(d, id, d.zones[id]), catalog, wanted, rest - {id})
  {
  }

  lemma PrunedAtLast(a: Db, b: Db, d: Db, catalog: string, c: Consumer, wanted: seq<string>, drop: set<nat>)
    requires a.zones.Keys <= b.zones.Keys && drop <= a.zones.Keys && Pruned(a, b, d, catalog, c, wanted, drop, {})
    ensures Reconciled(d, catalog, c, wanted)
    ensures d.zones.Keys != a.zones.Keys <==> b.zones.Keys != a.zones.Keys || drop != {}
  {
    if id :| id in drop {
      assert id in a.zones && id !in d.zones;
    } else {
      assert d.zones.Keys == b.zones.Keys;
    }
  }

  /** The names of a catalog's own zones, listed. */
  lemma OwnNames(db: Db, catalog: string, wanted: seq<string>)
    requires ValidDb(db)
    requires forall x :: x in wanted <==> exists id :: Owned(db, id, catalog) && db.zones[id] == x
    ensures forall m | m in wanted :: Normal(m)
    ensures AllNamed(db, wanted)
  {
    forall m | m in wanted
      ensures Normal(m) && HasName(db, m)
    {
      var id :| Owned(db, id, catalog) && db.zones[id] == m;
    }
  }

  lemma OwnRefreshed(a: Db, b: Db, catalog: string, c: Consumer, wanted: seq<string>)
    requires wanted[..|wanted|] == wanted && Progress(a, b, catalog, c, wanted, |wanted|)
    requires b.zones.Keys == a.zones.Keys
    requires forall id | Owned(a, id, catalog) :: a.zones[id] in wanted
    ensures b.zones == a.zones && AllRefreshed(b, catalog, c)
  {
    SameZonesKept(a, b, catalog);
    RefreshedIfSettled(b, catalog, c, wanted);
  }

  lemma SameZonesKept(a: Db, b: Db, catalog: string)
    requires Touches(a, b, catalog) && b.zones.Keys == a.zones.Keys
    ensures b.zones == a.zones && forall id :: Owned(b, id, catalog) <==> Owned(a, id, catalog)
  {
  }

  lemma RefreshedIfSettled(b: Db, catalog: string, c: Consumer, wanted: seq<string>)
    requires ValidDb(b) && AllSettled(b, catalog, c, wanted)
    requires forall id | Owned(b, id, catalog) :: b.zones[id] in wanted
    ensures AllRefreshed(b, catalog, c)
  {
    forall id | Owned(b, id, catalog)
      ensures Serves(b, catalog, Wanted(c, b.zones[id]))
    {
      OneRefreshed(b, catalog, c, wanted, id);
    }
  }

  lemma OneRefreshed(b: Db, catalog: string, c: Consumer, wanted: seq<string>, id: nat)
    requires ValidDb(b) && AllSettled(b, catalog, c, wanted) && Owned(b, id, catalog) && b.zones[id] in wanted
    ensures Serves(b, catalog, Wanted(c, b.zones[id]))
  {
    var k :| 0 <= k < |wanted| && wanted[k] == b.zones[id];
    assert Settled(b, catalog, c, wanted[k]);
    OwnedSettled(b, id, catalog, c, wanted[k]);
  }

  lemma ProgressAtFirst(a: Db, catalog: string, c: Consumer, wanted: seq<string>)
    requires ValidDb(a)
    ensures Progress(a, a, catalog, c, wanted, 0)
  {
    TouchesSelf(a, catalog);
  }

  lemma KeysGrow(a: Db, b: Db, d: Db, m: string)
    requires a.zones.Keys <= b.zones.Keys && Grows(b, d, m)
    ensures a.zones.Keys <= d.zones.Keys
    ensures d.zones.Keys != a.zones.Keys <==> d.zones.Keys != b.zones.Keys || b.zones.Keys != a.zones.Keys
  {
    assert b.zones.Keys <= d.zones.Keys;
  }

  lemma NotYetAdded(a: Db, b: Db, catalog: string, c: Consumer, wanted: seq<string>, i: nat)
    requires i < |wanted| && MemberList(wanted) && Progress(a, b, catalog, c, wanted, i)
    ensures Normal(wanted[i])
    ensures forall id | id in b.zones && id !in a.zones :: b.zones[id] != wanted[i]
    ensures forall id | id in a.zones :: id in b.zones && b.zones[id] == a.zones[id] && SameAt(a.owners, b.owners, id)
  {
    assert wanted[i] in wanted && wanted[i] !in wanted[..i];
  }

  lemma ProgressStep(a: Db, b: Db, d: Db, catalog: string, c: Consumer, wanted: seq<string>, i: nat)
    requires i < |wanted| && MemberList(wanted) && ValidDb(a) && Progress(a, b, catalog, c, wanted, i)
    requires ValidDb(d) && Touches(b, d, catalog) && (InStep(b) ==> InStep(d))
    requires Grows(b, d, wanted[i]) && Settled(d, catalog, c, wanted[i])
    ensures Progress(a, d, catalog, c, wanted, i + 1)
  {
    TouchesThen(a, b, d, catalog);
    SettledStep(b, d, catalog, c, wanted, i);
    forall id | id in d.zones && id !in a.zones
      ensures d.zones[id] in wanted[..i + 1]
    {
      if id in b.zones {
        assert b.zones[id] in wanted[..i];
      } else {
        assert d.zones[id] == wanted[i] == wanted[..i + 1][i];
      }
    }
  }

  lemma SettledStep(b: Db, d: Db, catalog: string, c: Consumer, wanted: seq<string>, i: nat)
    requires i < |wanted| && Distinct(wanted) && AllSettled(b, catalog, c, wanted[..i])
    requires Grows(b, d, wanted[i]) && Settled(d, catalog, c, wanted[i])
    ensures AllSettled(d, catalog, c, wanted[..i + 1])
  {
    var done := wanted[..i + 1];
    forall k | 0 <= k < |done|
      ensures Settled(d, catalog, c, done[k])
    {
      if k < i {
        assert Settled(b, catalog, c, wanted[..i][k]);
        SettledGrows(b, d, catalog, c, wanted[i], wanted[k]);
      }
    }
  }

  lemma NamedStays(a: Db, b: Db, catalog: string, c: Consumer, wanted: seq<string>, i: nat)
    requires i < |wanted| && MemberList(wanted) && Progress(a, b, catalog, c, wanted, i)
    ensures HasName(a, wanted[i]) <==> HasName(b, wanted[i])
  {
    NotYetAdded(a, b, catalog, c, wanted, i);
    if HasName(a, wanted[i]) {
      var id :| id in a.zones && a.zones[id] == wanted[i];
      assert id in b.zones && b.zones[id] == wanted[i];
    }
  }

  /** A member the store has no zone for and will not create. */
  ghost predicate RefusesAt(db: Db, m: string, refused: set<string>) {
    m in refused && !HasName(db, m)
  }

  ghost predicate Refuses(db: Db, wanted: seq<string>, refused: set<string>) {
    exists k :: 0 <= k < |wanted| && RefusesAt(db, wanted[k], refused)
  }

  lemma RefusesNext(db: Db, wanted: seq<string>, refused: set<string>, i: nat)
    requires i < |wanted| && !Refuses(db, wanted[..i], refused) && !RefusesAt(db, wanted[i], refused)
    ensures !Refuses(db, wanted[..i + 1], refused)
  {
    var more := wanted[..i + 1];
    if k :| 0 <= k < |more| && RefusesAt(db, more[k], refused) {
      if k < i {
        assert RefusesAt(db, wanted[..i][k], refused);
      }
    }
  }

  // ---- Zones of catalogs no longer configured ------------------------------------------------------

  function Orphans(db: Db, configured: set<string>): set<nat> {
    set id | id in db.zones && id in db.owners && db.owners[id] !in configured
  }

  /** Of the zones looked at (all but `rest`), the orphans are gone. */
  ghost predicate Swept(a: Db, d: Db, configured: set<string>, rest: set<nat>) {
    && ValidDb(d) && (InStep(a) ==> InStep(d)) && d.next == a.next
    && d.zones.Keys == a.zones.Keys - (Orphans(a, configured) - rest)
    && forall id | id in d.zones :: Untouched(a, d, id)
  }

  lemma OrphanFree(a: Db, configured: set<string>)
    requires ValidDb(a)
    ensures Orphans(a, configured) == {} <==> OwnersIn(a, configured)
    ensures OwnersIn(a, configured) ==> Swept(a, a, configured, {})
    ensures Swept(a, a, configured, a.zones.Keys)
  {
    var orphans := Orphans(a, configured);
    if orphans == {} {
      forall id | id in a.owners
        ensures a.owners[id] in configured
      {
        assert id !in orphans;
      }
    }
    assert orphans - a.zones.Keys == {};
  }

  lemma SweepStep(a: Db, d: Db, configured: set<string>, rest: set<nat>, id: nat)
    requires Swept(a, d, configured, rest) && id in rest && rest <= a.zones.Keys
    ensures id in d.zones && SameAt(a.owners, d.owners, id)
    ensures id in a.owners && a.owners[id] !in configured ==>
      Swept(a, Remove(d, id, d.zones[id]), configured, rest - {id})
    ensures !(id in a.owners && a.owners[id] !in configured) ==> Swept(a, d, configured, rest - {id})
  {
    var orphans := Orphans(a, configured);
    assert Untouched(a, d, id);
    if id in orphans {
      SweepOrphan(a, d, configured, rest, id);
    } else {
      assert orphans - (rest - {id}) == orphans - rest;
    }
  }

  lemma SweepOrphan(a: Db, d: Db, configured: set<string>, rest: set<nat>, id: nat)
    requires Swept(a, d, configured, rest) && id in rest && id in d.zones && id in Orphans(a, configured)
    ensures Swept(a, Remove(d, id, d.zones[id]), configured, rest - {id})
  {
    var orphans := Orphans(a, configured);
    assert Untouched(a, d, id);
    RemoveKeeps(d, id, d.owners[id]);
    if InStep(a) {
      RemoveInStep(d, id);
    }
    KeysWithout(a.zones.Keys, orphans, rest, id);
    KeysAfterRemoval(a.zones.Keys, d.zones, orphans + rest, rest, id);
    OthersUntouched(a, d, id);
  }

  lemma OthersUntouched(a: Db, d: Db, id: nat)
    requires ValidDb(d) && id in d.zones && forall x | x in d.zones :: Untouched(a, d, x)
    ensures var e := Remove(d, id, d.zones[id]); forall x | x in e.zones :: Untouched(a, e, x)
  {
    var e := Remove(d, id, d.zones[id]);
    forall x | x in e.zones
      ensures Untouched(a, e, x)
    {
      assert Untouched(a, d, x) && d.zones[x] != d.zones[id];
    }
  }

  lemma KeysWithout(keys: set<nat>, orphans: set<nat>, rest: set<nat>, id: nat)
    requires id in orphans && id in rest
    ensures keys - (orphans + rest - (rest - {id})) == keys - (orphans - (rest - {id}))
    ensures orphans + rest - rest == orphans - rest
  {
  }

  lemma SweptAll(a: Db, d: Db, configured: set<string>)
    requires ValidDb(a) && Swept(a, d, configured, {})
    ensures OwnersIn(d, configured) && d.zones.Keys == a.zones.Keys - Orphans(a, configured)
  {
    forall id | id in d.owners
      ensures d.owners[id] in configured
    {
      assert Untouched(a, d, id);
    }
  }

  lemma NothingSettled(db: Db, catalog: string, c: Consumer, m: string)
    requires !HasName(db, m)
    ensures !Settled(db, catalog, c, m)
  {
  }

  lemma AddSettles(db: Db, catalog: string, c: Consumer, m: string)
    requires ValidDb(db) && Normal(m) && !HasName(db, m)
    ensures var b := AddMember(db, catalog, Wanted(c, m));
      && ValidDb(b) && Touches(db, b, catalog) && Grows(db, b, m) && Settled(b, catalog, c, m)
      && b.zones.Keys != db.zones.Keys && (InStep(db) ==> InStep(b))
  {
    var config := Wanted(c, m);
    AddKeeps(db, catalog, config);
    AddGrows(db, catalog, c, m);
    if InStep(db) {
      AddInStep(db, catalog, config);
    }
  }

  lemma AddGrows(db: Db, catalog: string, c: Consumer, m: string)
    requires forall id | id in db.zones :: id < db.next
    requires forall id | id in db.owners :: id < db.next
    ensures var b := AddMember(db, catalog, Wanted(c, m));
      Grows(db, b, m) && Settled(b, catalog, c, m) && b.zones.Keys != db.zones.Keys
  {
    var b := AddMember(db, catalog, Wanted(c, m));
    assert Owned(b, db.next, catalog) && b.zones[db.next] == m;
    assert db.next !in db.zones && db.next in b.zones;
  }

  lemma RemasterSettles(db: Db, id: nat, catalog: string, c: Consumer, m: string)
    requires ValidDb(db) && Owned(db, id, catalog) && db.zones[id] == m
    ensures var b := Remaster(db, id, Wanted(c, m));
      && ValidDb(b) && Touches(db, b, catalog) && Grows(db, b, m) && Settled(b, catalog, c, m)
      && (InStep(db) ==> InStep(b))
  {
    var config := Wanted(c, m);
    RemasterKeeps(db, id, config, catalog);
    RemasterGrows(db, id, catalog, c, m);
    if InStep(db) {
      RemasterInStep(db, id, config);
    }
  }

  lemma RemasterGrows(db: Db, id: nat, catalog: string, c: Consumer, m: string)
    requires Owned(db, id, catalog) && db.zones[id] == m
    ensures var b := Remaster(db, id, Wanted(c, m)); Grows(db, b, m) && Settled(b, catalog, c, m)
  {
    var b := Remaster(db, id, Wanted(c, m));
    assert Owned(b, id, catalog) && b.zones[id] == m;
  }

  /** An owned zone is settled exactly when it is refreshed as wanted. */
  lemma OwnedSettled(db: Db, id: nat, catalog: string, c: Consumer, m: string)
    requires ValidDb(db) && Owned(db, id, catalog) && db.zones[id] == m
    ensures Settled(db, catalog, c, m) <==> m in db.refresher && db.refresher[m] == Wanted(c, m)
  {
    assert !Clashes(db, catalog, m);
  }

  // ---- What it comes to -------------------------------------------------------------------------------

  ghost predicate Owns(db: Db, catalog: string, name: string) {
    exists id :: Owned(db, id, catalog) && db.zones[id] == name
  }

  /** A reconciled catalog owns a zone of a name exactly when it lists it and no other zone has it. */
  lemma OwnsExactly(db: Db, catalog: string, c: Consumer, members: seq<string>, name: string)
    requires ValidDb(db) && Reconciled(db, catalog, c, members)
    ensures Owns(db, catalog, name) <==> name in members && !Clashes(db, catalog, name)
  {
    if id :| Owned(db, id, catalog) && db.zones[id] == name {
      assert !Clashes(db, catalog, name);
    } else if name in members {
      var k :| 0 <= k < |members| && members[k] == name;
      assert Settled(db, catalog, c, members[k]);
    }
  }

  /** And each is a secondary of the catalog's masters, in the store as in the refresher. */
  lemma OwnedFromMasters(db: Db, catalog: string, c: Consumer, members: seq<string>, id: nat)
    requires ValidDb(db) && InStep(db) && Reconciled(db, catalog, c, members) && Owned(db, id, catalog)
    ensures id in db.secondary && db.secondary[id] == Masters(c.masters, c.refresh)
    ensures db.zones[id] in db.refresher
    ensures db.refresher[db.zones[id]] == Config(db.zones[id], c.masters, c.refresh, true, "")
  {
    var k :| 0 <= k < |members| && members[k] == db.zones[id];
    assert Settled(db, catalog, c, members[k]);
    OwnedSettled(db, id, catalog, c, members[k]);
    assert InStepAt(db, id);
  }

  /**
   A refresh that finds the serial unchanged creates nothing: it leaves the catalog
   in line with its list exactly when every listed name still had a zone before it.
   A member zone deleted by hand stays away until the catalog's serial changes.
   */
  lemma UnchangedSerialRestoresNothing(a: Db, b: Db, catalog: string, c: Consumer, members: seq<string>)
    requires ValidDb(a) && ValidDb(b) && Touches(a, b, catalog) && b.zones == a.zones && AllRefreshed(b, catalog, c)
    ensures Reconciled(b, catalog, c, members) <==>
      AllNamed(a, members) && forall id | Owned(a, id, catalog) :: a.zones[id] in members
  {
    forall id
      ensures Owned(a, id, catalog) <==> Owned(b, id, catalog)
    {
      assert id in a.zones ==> SameAt(a.owners, b.owners, id);
    }
    if Reconciled(b, catalog, c, members) {
      forall k | 0 <= k < |members|
        ensures HasName(a, members[k])
      {
        assert Settled(b, catalog, c, members[k]);
        SettledHasName(b, catalog, c, members[k]);
      }
    }
    if AllNamed(a, members) {
      forall k | 0 <= k < |members|
        ensures Settled(b, catalog, c, members[k])
      {
        assert HasName(a, members[k]);
        NamedIsSettled(b, catalog, c, members[k]);
      }
    }
  }

  lemma SettledHasName(db: Db, catalog: string, c: Consumer, m: string)
    requires Settled(db, catalog, c, m)
    ensures exists id :: id in db.zones && db.zones[id] == m
  {
  }

  lemma NamedIsSettled(db: Db, catalog: string, c: Consumer, m: string)
    requires AllRefreshed(db, catalog, c) && exists id :: id in db.zones && db.zones[id] == m
    ensures Settled(db, catalog, c, m)
  {
    var id :| id in db.zones && db.zones[id] == m;
    if Owned(db, id, catalog) {
      assert Serves(db, catalog, Wanted(c, m));
    } else {
      assert Foreign(db, id, catalog);
    }
  }
}
