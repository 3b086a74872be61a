/**
 PTR records kept in step with A and AAAA records: added with a record, moved when
 its address or name changes, removed with it.
 */
module PtrSync {
  import opened Addresses
  import opened Text
  import opened ReverseNames
  import opened ReverseZones

  // ---- The store --------------------------------------------------------------------------------

  datatype Row = Row(zone: nat, name: string, rtype: string, content: string, ttl: nat, disabled: bool)

  /** Zones and records by id; ids below `nextZone` and `nextRow` have been used. */
  datatype Store = Store(zones: map<nat, string>, secondary: set<nat>, rows: map<nat, Row>, nextZone: nat, nextRow: nat)

  /** Zone names are lowercase and unique, and a record is in a zone. */
  predicate ValidStore(s: Store) {
    && (forall z | z in s.zones :: z < s.nextZone && Lower(s.zones[z]) == s.zones[z])
    && (forall y, z | y in s.zones && z in s.zones && s.zones[y] == s.zones[z] :: y == z)
    && (forall id | id in s.rows :: id < s.nextRow && s.rows[id].zone in s.zones)
    && s.secondary <= s.zones.Keys
  }

  /** Names the same but for case, white space around them and trailing dots. */
  function Bare(name: string): string {
    Lower(TrimEnd(Trim(name), '.'))
  }

  predicate SameName(a: string, b: string) {
    Bare(a) == Bare(b)
  }

  /** A name is the same in lowercase, with a trailing dot, and with space in front. */
  lemma SpellingsSame(name: string)
    requires Spaceless(name)
    ensures SameName(Lower(name), name) && SameName(name + ".", name) && SameName(" " + name, name)
  {
    SpacelessTrim(name);
    SpacelessTrim(Lower(name));
    SpacelessTrim(name + ".");
    LowerBare(name);
    DotBare(name);
    SpaceBare(name);
  }

  lemma SpaceBare(name: string)
    ensures Trim(" " + name) == Trim(name)
  {
    assert (" " + name)[1..] == name;
  }

  lemma DotBare(name: string)
    ensures TrimEnd(name + ".", '.') == TrimEnd(name, '.')
  {
    assert (name + ".")[..|name|] == name;
  }

  lemma LowerBare(name: string)
    ensures Lower(TrimEnd(Lower(name), '.')) == Lower(TrimEnd(name, '.'))
  {
    var t, u, l := TrimEnd(name, '.'), TrimEnd(Lower(name), '.'), Lower(name);
    assert forall i | 0 <= i < |name| :: l[i] == '.' <==> name[i] == '.';
    assert |u| == |t|;
    assert u == l[..|u|] && t == name[..|u|];
    assert IsLower(u) by {
      forall c | c in u
        ensures !('A' <= c <= 'Z')
      {
        var i :| 0 <= i < |u| && u[i] == c;
        assert c == LowerChar(name[i]);
      }
    }
    LowerOfLower(u);
  }

  predicate IsPtrAt(row: Row, zone: nat, owner: string) {
    row.zone == zone && row.rtype == "PTR" && SameName(row.name, owner)
  }

  predicate IsPtr(row: Row, zone: nat, owner: string, name: string) {
    IsPtrAt(row, zone, owner) && SameName(row.content, name)
  }

  // ---- The zone of an owner name ------------------------------------------------------------------

  /** `z` is a hosted zone over `owner`, and none over it has a longer name. */
  ghost predicate MostSpecific(zones: map<nat, string>, owner: string, z: nat) {
    && z in zones && Covers(owner, zones[z])
    && forall y | y in zones && Covers(owner, zones[y]) :: |zones[y]| <= |zones[z]|
  }

  lemma OneMostSpecific(s: Store, owner: string, y: nat, z: nat)
    requires ValidStore(s) && MostSpecific(s.zones, owner, y) && MostSpecific(s.zones, owner, z)
    ensures y == z
  {
    CoverIsTail(owner, s.zones[y]);
    CoverIsTail(owner, s.zones[z]);
  }

  lemma CoverIsTail(owner: string, zone: string)
    requires Covers(owner, zone)
    ensures |zone| <= |owner| && owner[|owner| - |zone|..] == zone
  {
    if owner != zone {
      assert owner[|owner| - |zone|..] == owner[|owner| - |zone| - 1..][1..];
    }
  }

  ghost function ZoneFor(zones: map<nat, string>, owner: string): (r: Option<nat>)
    ensures r.Some? ==> MostSpecific(zones, owner, r.value)
    ensures r.None? ==> forall z :: !MostSpecific(zones, owner, z)
  {
    if z :| MostSpecific(zones, owner, z) then Some(z) else None
  }

  /** The most specific hosted zone that holds `owner`. */
  method ReverseZone(s: Store, owner: string) returns (r: Option<nat>)
    requires ValidStore(s)
    ensures r == ZoneFor(s.zones, owner)
    ensures r.None? <==> forall z | z in s.zones :: !Covers(owner, s.zones[z])
  {
    r := None;
    var rest := s.zones.Keys;
    while rest != {}
      invariant rest <= s.zones.Keys
      invariant r.None? ==> forall z | z in s.zones && z !in rest :: !Covers(owner, s.zones[z])
      invariant r.Some? ==> r.value in s.zones && Covers(owner, s.zones[r.value])
      invariant r.Some? ==>
        forall z | z in s.zones && z !in rest && Covers(owner, s.zones[z]) :: |s.zones[z]| <= |s.zones[r.value]|
    {
      var z :| z in rest;
      var name := Lower(s.zones[z]);
      if owner == name || EndsWith(owner, "." + name) {
        if r.None? || |s.zones[r.value]| <= |s.zones[z]| {
          r := Some(z);
        }
      }
      rest := rest - {z};
    }
    if r.Some? {
      assert MostSpecific(s.zones, owner, r.value);
      OneMostSpecific(s, owner, r.value, ZoneFor(s.zones, owner).value);
    } else if ZoneFor(s.zones, owner).Some? {
      assert false;
    }
  }

  // ---- Removing -----------------------------------------------------------------------------------

  function PtrRows(s: Store, zone: nat, owner: string, name: string): set<nat> {
    set id | id in s.rows && IsPtr(s.rows[id], zone, owner, name)
  }

  /** The store without the PTR records for `ip` that point at `name`. */
  ghost function Removed(s: Store, ip: IpAddr, name: string): Store {
    match ZoneFor(s.zones, ReverseName(ip))
    case None => s
    case Some(z) => if z in s.secondary then s else s.(rows := s.rows - PtrRows(s, z, ReverseName(ip), name))
  }

  // ---- Adding -------------------------------------------------------------------------------------

  /** How adding ended: why not, or that the record is there. */
  datatype Ending = NoZone | SecondaryZone | OtherTarget | AlreadyThere | PtrAdded | ZoneRefused | RecordRefused

  predicate IsProblem(e: Ending) {
    e.NoZone? || e.SecondaryZone? || e.OtherTarget?
  }

  predicate IsError(e: Ending) {
    e.ZoneRefused? || e.RecordRefused?
  }

  predicate IsThere(e: Ending) {
    e.AlreadyThere? || e.PtrAdded?
  }

  function NewPtr(zone: nat, owner: string, name: string, ttl: nat): Row {
    Row(zone, owner, "PTR", Trim(TrimEnd(name, '.') + "."), ttl, false)
  }

  function WithRow(s: Store, row: Row): Store {
    s.(rows := s.rows[s.nextRow := row], nextRow := s.nextRow + 1)
  }

  /** A new zone with its default NS record. */
  function WithZone(s: Store, name: string, ns: string): Store {
    WithRow(s.(zones := s.zones[s.nextZone := name], nextZone := s.nextZone + 1),
            Row(s.nextZone, name, "NS", ns, 3600, false))
  }

  /** What the store will not take: zone names it refuses, and whether it refuses the PTR's target. */
  datatype Limits = Limits(refused: set<string>, accepts: bool, ns: string)

  ghost function AddedIn(s: Store, zone: nat, owner: string, name: string, ttl: nat, limits: Limits): (Store, Ending) {
    if zone in s.secondary then (s, SecondaryZone)
    else if exists id :: id in s.rows && IsPtr(s.rows[id], zone, owner, name) then (s, AlreadyThere)
    else if exists id :: id in s.rows && IsPtrAt(s.rows[id], zone, owner) then (s, OtherTarget)
    else if !limits.accepts then (s, RecordRefused)
    else (WithRow(s, NewPtr(zone, owner, name, ttl)), PtrAdded)
  }

  ghost function Added(s: Store, ip: IpAddr, name: string, ttl: nat, create: bool, limits: Limits): (Store, Ending) {
    var owner := ReverseName(ip);
    match ZoneFor(s.zones, owner)
    case Some(z) => AddedIn(s, z, owner, name, ttl, limits)
    case None =>
      if !create then (s, NoZone)
      else if DefaultReverseZone(ip) in limits.refused then (s, ZoneRefused)
      else AddedIn(WithZone(s, DefaultReverseZone(ip), limits.ns), s.nextZone, owner, name, ttl, limits)
  }

  // ---- Both, after a record changed ------------------------------------------------------------------

  /** A record before or after a change: its address when it is an A or AAAA record. */
  datatype Host = Host(name: string, address: Option<IpAddr>, ttl: nat, disabled: bool)

  datatype Options = Options(updatePtr: bool, createZone: bool)

  predicate Changes(before: Option<Host>, after: Option<Host>) {
    && before.Some? && before.value.address.Some?
    && !(after.Some? && after.value.address == before.value.address && SameName(after.value.name, before.value.name))
  }

  predicate Serves(after: Option<Host>) {
    after.Some? && after.value.address.Some? && !after.value.disabled
  }

  ghost function AfterRemoval(s: Store, before: Option<Host>, after: Option<Host>): Store {
    if Changes(before, after) then Removed(s, before.value.address.value, before.value.name) else s
  }

  ghost function Synced(s: Store, before: Option<Host>, after: Option<Host>, o: Options, limits: Limits): (Store, Option<Ending>) {
    if !o.updatePtr then (s, None)
    else
      var kept := AfterRemoval(s, before, after);
      if !Serves(after) then (kept, None)
      else
        var (store, ending) :=
          Added(kept, after.value.address.value, after.value.name, after.value.ttl, o.createZone, limits);
        (store, Some(ending))
  }

  class ReverseRecords {
    var store: Store

    constructor (s: Store)
      ensures store == s
    {
      store := s;
    }

    /** Delete the PTR records of `zone` from `owner` to `name`, one by one. */
    method DeletePtrs(zone: nat, owner: string, name: string) returns (removed: nat)
      modifies this
      ensures store == old(store).(rows := old(store).rows - PtrRows(old(store), zone, owner, name))
      ensures removed == |old(store).rows| - |store.rows|
    {
      removed := 0;
      ghost var a := store;
      var rest := set id | id in store.rows && store.rows[id].zone == zone;
      while rest != {}
        invariant store == a.(rows := store.rows) && rest <= store.rows.Keys
        invariant Thinned(a.rows, store.rows, rest, zone, owner, name)
        invariant removed + |store.rows| == |a.rows|
      {
        var id :| id in rest;
        var row := store.rows[id];
        if row.rtype == "PTR" && SameName(row.name, owner) && SameName(row.content, name) {
          OneLess(store.rows, id);
          store := store.(rows := store.rows - {id});
          removed := removed + 1;
        }
        rest := rest - {id};
      }
      ThinnedAll(a, store.rows, zone, owner, name);
    }

    /** Remove the PTR records for `ip` that point at `name`; returns how many went. */
    method Remove(ip: IpAddr, name: string) returns (removed: nat)
      requires ValidStore(store)
      modifies this
      ensures store == Removed(old(store), ip, name)
      ensures removed == |old(store).rows| - |store.rows|
    {
      var zone := ReverseZone(store, ReverseName(ip));
      if zone.None? || zone.value in store.secondary {
        return 0;
      }
      removed := DeletePtrs(zone.value, ReverseName(ip), name);
    }

    /** Add a PTR record from `owner` to `name` to `zone`, unless the owner has one. */
    method AddIn(zone: nat, owner: string, name: string, ttl: nat, limits: Limits) returns (e: Ending)
      modifies this
      ensures (store, e) == AddedIn(old(store), zone, owner, name, ttl, limits)
    {
      if zone in store.secondary {
        return SecondaryZone;
      }
      if id :| id in store.rows && IsPtr(store.rows[id], zone, owner, name) {
        return AlreadyThere;
      }
      if id :| id in store.rows && IsPtrAt(store.rows[id], zone, owner) {
        return OtherTarget;
      }
      if !limits.accepts {
        return RecordRefused;
      }
      store := WithRow(store, NewPtr(zone, owner, name, ttl));
      e := PtrAdded;
    }

    /** Add the PTR record for `ip`, creating the reverse zone first when asked to. */
    method Add(ip: IpAddr, name: string, ttl: nat, create: bool, limits: Limits) returns (e: Ending)
      requires ValidStore(store)
      modifies this
      ensures (store, e) == Added(old(store), ip, name, ttl, create, limits)
    {
      var owner := ReverseName(ip);
      var zone := ReverseZone(store, owner);
      if zone.None? {
        if !create {
          return NoZone;
        }
        var zoneName := DefaultReverseZone(ip);
        if zoneName in limits.refused {
          return ZoneRefused;
        }
        zone := Some(store.nextZone);
        store := WithZone(store, zoneName, limits.ns);
      }
      e := AddIn(zone.value, owner, name, ttl, limits);
    }

    /** Bring the PTR records in line after a record changed from `before` to `after`. */
    method Sync(before: Option<Host>, after: Option<Host>, o: Options, limits: Limits) returns (removed: nat, e: Option<Ending>)
      requires ValidStore(store)
      modifies this
      ensures (store, e) == Synced(old(store), before, after, o, limits)
      ensures o.updatePtr ==> removed == |old(store).rows| - |AfterRemoval(old(store), before, after).rows|
    {
      removed, e := 0, None;
      if !o.updatePtr {
        return;
      }
      if Changes(before, after) {
        RemovalKeepsValid(store, before.value.address.value, before.value.name);
        removed := Remove(before.value.address.value, before.value.name);
      }
      if Serves(after) {
        var ending := Add(after.value.address.value, after.value.name, after.value.ttl, o.createZone, limits);
        e := Some(ending);
      }
    }
  }

  /** What is left of `rows` once all but `rest` were looked at. */
  ghost predicate Thinned(rows: map<nat, Row>, left: map<nat, Row>, rest: set<nat>, zone: nat, owner: string, name: string) {
    && left.Keys <= rows.Keys
    && forall id | id in rows ::
      && (id in left <==> id in rest || !IsPtr(rows[id], zone, owner, name))
      && (id in left ==> left[id] == rows[id])
  }

  lemma ThinnedAll(s: Store, left: map<nat, Row>, zone: nat, owner: string, name: string)
    requires Thinned(s.rows, left, {}, zone, owner, name)
    ensures left == s.rows - PtrRows(s, zone, owner, name)
  {
  }

  lemma OneLess(rows: map<nat, Row>, id: nat)
    requires id in rows
    ensures |rows - {id}| == |rows| - 1
  {
    assert (rows - {id}).Keys == rows.Keys - {id};
    assert |rows.Keys| == |rows| && |(rows - {id}).Keys| == |rows - {id}|;
  }

  lemma RemovalKeepsValid(s: Store, ip: IpAddr, name: string)
    requires ValidStore(s)
    ensures ValidStore(Removed(s, ip, name))
  {
  }

  // ---- A created zone is the most specific one -------------------------------------------------------

  /** Among some zones over `owner`, one has the longest name. */
  lemma {:induction false} Longest(zones: map<nat, string>, owner: string, keys: set<nat>, z: nat) returns (best: nat)
    requires keys <= zones.Keys && z in keys && Covers(owner, zones[z])
    ensures best in keys && Covers(owner, zones[best])
    ensures forall y | y in keys && Covers(owner, zones[y]) :: |zones[y]| <= |zones[best]|
    decreases |keys|
  {
    var others := keys - {z};
    if y :| y in others && Covers(owner, zones[y]) {
      best := Longest(zones, owner, others, y);
      if |zones[best]| < |zones[z]| {
        best := z;
      }
    } else {
      best := z;
    }
  }

  lemma NoZoneNoCover(zones: map<nat, string>, owner: string)
    ensures ZoneFor(zones, owner).None? <==> forall z | z in zones :: !Covers(owner, zones[z])
  {
    if z :| z in zones && Covers(owner, zones[z]) {
      var best := Longest(zones, owner, zones.Keys, z);
      assert MostSpecific(zones, owner, best);
    }
  }

  lemma LowerTail(s: string, t: string)
    requires Lower(s) == s && |t| <= |s| && s[|s| - |t|..] == t
    ensures Lower(t) == t
  {
    forall i | 0 <= i < |t|
      ensures Lower(t)[i] == t[i]
    {
      assert t[i] == s[|s| - |t| + i] == Lower(s)[|s| - |t| + i];
    }
  }

  lemma DefaultZoneIsLower(ip: IpAddr)
    requires WellFormed(ip)
    ensures Lower(DefaultReverseZone(ip)) == DefaultReverseZone(ip)
    ensures Covers(ReverseName(ip), DefaultReverseZone(ip))
  {
    DefaultZoneCoversExactly(ip, ip);
    CoverIsTail(ReverseName(ip), DefaultReverseZone(ip));
    WrittenNameIsCanonical(ip);
    LowerOfLower(ReverseName(ip));
    LowerTail(ReverseName(ip), DefaultReverseZone(ip));
  }

  /** The zone created for an address: valid, unused before, and the most specific over its name. */
  lemma CreatedZone(s: Store, ip: IpAddr, ns: string)
    requires ValidStore(s) && WellFormed(ip) && ZoneFor(s.zones, ReverseName(ip)).None?
    ensures var t := WithZone(s, DefaultReverseZone(ip), ns);
      ValidStore(t) && ZoneFor(t.zones, ReverseName(ip)) == Some(s.nextZone) && s.nextZone !in t.secondary
  {
    var owner, name := ReverseName(ip), DefaultReverseZone(ip);
    NoZoneNoCover(s.zones, owner);
    DefaultZoneIsLower(ip);
    var t := WithZone(s, name, ns);
    ZoneAddedValid(s, name, ns);
    assert MostSpecific(t.zones, owner, s.nextZone);
    OneMostSpecific(t, owner, s.nextZone, ZoneFor(t.zones, owner).value);
  }

  lemma ZoneAddedValid(s: Store, name: string, ns: string)
    requires ValidStore(s) && Lower(name) == name && forall z | z in s.zones :: s.zones[z] != name
    ensures ValidStore(WithZone(s, name, ns))
  {
  }

  lemma RowAddedValid(s: Store, row: Row)
    requires ValidStore(s) && row.zone in s.zones
    ensures ValidStore(WithRow(s, row))
  {
  }

  lemma AddedInValid(s: Store, zone: nat, owner: string, name: string, ttl: nat, limits: Limits)
    requires ValidStore(s) && zone in s.zones
    ensures ValidStore(AddedIn(s, zone, owner, name, ttl, limits).0)
  {
    RowAddedValid(s, NewPtr(zone, owner, name, ttl));
  }

  lemma AddKeepsValid(s: Store, ip: IpAddr, name: string, ttl: nat, create: bool, limits: Limits)
    requires ValidStore(s) && WellFormed(ip)
    ensures ValidStore(Added(s, ip, name, ttl, create, limits).0)
  {
    var owner := ReverseName(ip);
    var z := ZoneFor(s.zones, owner);
    if z.Some? {
      AddedInValid(s, z.value, owner, name, ttl, limits);
    } else {
      CreatedZone(s, ip, limits.ns);
      AddedInValid(WithZone(s, DefaultReverseZone(ip), limits.ns), s.nextZone, owner, name, ttl, limits);
    }
  }

  // ---- The PTR record is there, or it is said why not ---------------------------------------------------

  ghost predicate PtrIn(s: Store, z: nat, owner: string, name: string) {
    z !in s.secondary && exists id :: id in s.rows && IsPtr(s.rows[id], z, owner, name)
  }

  /** The most specific hosted zone over the address's name is not secondary and holds the PTR to `name`. */
  ghost predicate HasPtr(s: Store, ip: IpAddr, name: string) {
    var z := ZoneFor(s.zones, ReverseName(ip));
    z.Some? && PtrIn(s, z.value, ReverseName(ip), name)
  }

  /** The target written for a name is the same name. */
  lemma TargetIsName(name: string)
    requires Spaceless(name)
    ensures SameName(Trim(TrimEnd(name, '.') + "."), name)
  {
    var t := TrimEnd(name, '.');
    SpacelessTrim(name);
    assert Spaceless(t + ".");
    SpacelessTrim(t + ".");
    TrimEndOf(t, '.');
  }

  lemma AddedInHas(s: Store, z: nat, owner: string, name: string, ttl: nat, limits: Limits)
    requires Spaceless(name)
    ensures var (t, e) := AddedIn(s, z, owner, name, ttl, limits);
      t.zones == s.zones && (IsThere(e) <==> PtrIn(t, z, owner, name))
  {
    if AddedIn(s, z, owner, name, ttl, limits).1.PtrAdded? {
      AddedPtrIs(s, z, owner, name, ttl, limits);
      NewPtrIsThere(s, z, owner, name, ttl);
    }
  }

  lemma NewPtrIsThere(s: Store, z: nat, owner: string, name: string, ttl: nat)
    requires Spaceless(name) && z !in s.secondary
    ensures PtrIn(WithRow(s, NewPtr(z, owner, name, ttl)), z, owner, name)
  {
    var t := WithRow(s, NewPtr(z, owner, name, ttl));
    TargetIsName(name);
    assert IsPtr(t.rows[s.nextRow], z, owner, name);
  }

  /** Adding succeeds exactly when it ends with the PTR record in the most specific hosted zone. */
  lemma AddEndsWithPtr(s: Store, ip: IpAddr, name: string, ttl: nat, create: bool, limits: Limits)
    requires ValidStore(s) && WellFormed(ip) && Spaceless(name)
    ensures var (t, e) := Added(s, ip, name, ttl, create, limits); IsThere(e) <==> HasPtr(t, ip, name)
  {
    var owner := ReverseName(ip);
    var z := ZoneFor(s.zones, owner);
    if z.Some? {
      AddedInHas(s, z.value, owner, name, ttl, limits);
    } else if create && DefaultReverseZone(ip) !in limits.refused {
      CreatedZone(s, ip, limits.ns);
      AddedInHas(WithZone(s, DefaultReverseZone(ip), limits.ns), s.nextZone, owner, name, ttl, limits);
    }
  }

  /** A PTR record that is there is not added again. */
  lemma AddAgain(s: Store, ip: IpAddr, name: string, ttl: nat, create: bool, limits: Limits)
    requires HasPtr(s, ip, name)
    ensures Added(s, ip, name, ttl, create, limits) == (s, AlreadyThere)
  {
  }

  // ---- Removing undoes adding ----------------------------------------------------------------------------

  lemma OnlyTheNewOne(s: Store, z: nat, owner: string, name: string, ttl: nat)
    requires Spaceless(name) && (forall id | id in s.rows :: id < s.nextRow && !IsPtr(s.rows[id], z, owner, name))
    ensures var t := WithRow(s, NewPtr(z, owner, name, ttl));
      PtrRows(t, z, owner, name) == {s.nextRow} && t.rows - {s.nextRow} == s.rows
  {
    TargetIsName(name);
    var t := WithRow(s, NewPtr(z, owner, name, ttl));
    assert IsPtr(t.rows[s.nextRow], z, owner, name);
  }

  lemma AddedPtrIs(s: Store, z: nat, owner: string, name: string, ttl: nat, limits: Limits)
    requires AddedIn(s, z, owner, name, ttl, limits).1.PtrAdded?
    ensures AddedIn(s, z, owner, name, ttl, limits).0 == WithRow(s, NewPtr(z, owner, name, ttl)) && z !in s.secondary
    ensures forall id | id in s.rows :: !IsPtr(s.rows[id], z, owner, name)
  {
  }

  lemma RemovedIs(s: Store, ip: IpAddr, name: string, z: nat)
    requires ZoneFor(s.zones, ReverseName(ip)) == Some(z) && z !in s.secondary
    ensures Removed(s, ip, name) == s.(rows := s.rows - PtrRows(s, z, ReverseName(ip), name))
  {
  }

  lemma AddedInThenRemoved(s: Store, z: nat, ip: IpAddr, name: string, ttl: nat, limits: Limits)
    requires (forall id | id in s.rows :: id < s.nextRow) && Spaceless(name)
    requires ZoneFor(s.zones, ReverseName(ip)) == Some(z)
    requires AddedIn(s, z, ReverseName(ip), name, ttl, limits).1.PtrAdded?
    ensures Removed(AddedIn(s, z, ReverseName(ip), name, ttl, limits).0, ip, name) == s.(nextRow := s.nextRow + 1)
  {
    var owner := ReverseName(ip);
    AddedPtrIs(s, z, owner, name, ttl, limits);
    OnlyTheNewOne(s, z, owner, name, ttl);
    RemovedIs(WithRow(s, NewPtr(z, owner, name, ttl)), ip, name, z);
  }

  /** Removing a PTR record that was added leaves the records as they were, a created zone apart. */
  lemma RemoveUndoesAdd(s: Store, ip: IpAddr, name: string, ttl: nat, create: bool, limits: Limits)
    requires ValidStore(s) && WellFormed(ip) && Spaceless(name)
    requires Added(s, ip, name, ttl, create, limits).1.PtrAdded?
    ensures var t := Removed(Added(s, ip, name, ttl, create, limits).0, ip, name);
      var start := if ZoneFor(s.zones, ReverseName(ip)).Some? then s else WithZone(s, DefaultReverseZone(ip), limits.ns);
      t == start.(nextRow := start.nextRow + 1)
  {
    var z := ZoneFor(s.zones, ReverseName(ip));
    if z.Some? {
      AddedInThenRemoved(s, z.value, ip, name, ttl, limits);
    } else {
      CreatedZone(s, ip, limits.ns);
      AddedInThenRemoved(WithZone(s, DefaultReverseZone(ip), limits.ns), s.nextZone, ip, name, ttl, limits);
    }
  }

  // ---- What a synchronisation touches -----------------------------------------------------------------------

  /** A PTR record from the old address to the old name, in a zone that is not secondary. */
  ghost predicate OldPtr(s: Store, id: nat, before: Host) {
    && id in s.rows && before.address.Some? && s.rows[id].zone !in s.secondary
    && ZoneFor(s.zones, ReverseName(before.address.value)) == Some(s.rows[id].zone)
    && IsPtr(s.rows[id], s.rows[id].zone, ReverseName(before.address.value), before.name)
  }

  /** Exactly the old PTR records are deleted, and only when address or name changed. */
  lemma DeletesExactly(s: Store, before: Option<Host>, after: Option<Host>, o: Options, limits: Limits, id: nat)
    requires ValidStore(s) && id in s.rows
    ensures id !in Synced(s, before, after, o, limits).0.rows <==>
      o.updatePtr && Changes(before, after) && OldPtr(s, id, before.value)
  {
    if o.updatePtr {
      var kept := AfterRemoval(s, before, after);
      assert id in kept.rows <==> !(Changes(before, after) && OldPtr(s, id, before.value));
      if Serves(after) {
        AddedKeeps(kept, after.value.address.value, after.value.name, after.value.ttl, o.createZone, limits, id);
      }
    }
  }

  lemma AddedInKeeps(s: Store, zone: nat, owner: string, name: string, ttl: nat, limits: Limits, id: nat)
    requires id < s.nextRow
    ensures SameRow(s, AddedIn(s, zone, owner, name, ttl, limits).0, id)
  {
  }

  /** Record `id` is in neither store, or in both and the same. */
  predicate SameRow(s: Store, t: Store, id: nat) {
    (id in t.rows <==> id in s.rows) && (id in s.rows && id in t.rows ==> t.rows[id] == s.rows[id])
  }

  lemma AddedKeeps(s: Store, ip: IpAddr, name: string, ttl: nat, create: bool, limits: Limits, id: nat)
    requires id < s.nextRow
    ensures SameRow(s, Added(s, ip, name, ttl, create, limits).0, id)
  {
    var owner, made := ReverseName(ip), WithZone(s, DefaultReverseZone(ip), limits.ns);
    var best := ZoneFor(s.zones, owner);
    assert SameRow(s, made, id);
    AddedInKeeps(made, s.nextZone, owner, name, ttl, limits, id);
    if best.Some? {
      AddedInKeeps(s, best.value, owner, name, ttl, limits, id);
    }
  }

  lemma AddedInKeepsZones(s: Store, zone: nat, owner: string, name: string, ttl: nat, limits: Limits)
    ensures var t := AddedIn(s, zone, owner, name, ttl, limits).0; t.zones == s.zones && t.secondary == s.secondary
  {
  }

  lemma AddedKeepsZones(s: Store, ip: IpAddr, name: string, ttl: nat, create: bool, limits: Limits, z: nat)
    requires z in s.zones && z < s.nextZone
    ensures var t := Added(s, ip, name, ttl, create, limits).0;
      t.secondary == s.secondary && z in t.zones && t.zones[z] == s.zones[z]
  {
    var owner, made := ReverseName(ip), WithZone(s, DefaultReverseZone(ip), limits.ns);
    var best := ZoneFor(s.zones, owner);
    assert made.secondary == s.secondary && z in made.zones && made.zones[z] == s.zones[z];
    AddedInKeepsZones(made, s.nextZone, owner, name, ttl, limits);
    if best.Some? {
      AddedInKeepsZones(s, best.value, owner, name, ttl, limits);
    }
  }

  /** A record that stays is unchanged. */
  lemma KeepsRecords(s: Store, before: Option<Host>, after: Option<Host>, o: Options, limits: Limits, id: nat)
    requires ValidStore(s) && id in s.rows && id in Synced(s, before, after, o, limits).0.rows
    ensures Synced(s, before, after, o, limits).0.rows[id] == s.rows[id]
  {
    if o.updatePtr && Serves(after) {
      var kept := AfterRemoval(s, before, after);
      AddedKeeps(kept, after.value.address.value, after.value.name, after.value.ttl, o.createZone, limits, id);
    }
  }

  /** Every zone stays, under its name, secondary or not. */
  lemma KeepsZones(s: Store, before: Option<Host>, after: Option<Host>, o: Options, limits: Limits, z: nat)
    requires ValidStore(s) && z in s.zones
    ensures var t := Synced(s, before, after, o, limits).0;
      z in t.zones && t.zones[z] == s.zones[z] && t.secondary == s.secondary
  {
    var kept := AfterRemoval(s, before, after);
    assert kept.zones == s.zones && kept.secondary == s.secondary && kept.nextZone == s.nextZone;
    if o.updatePtr && Serves(after) {
      AddedKeepsZones(kept, after.value.address.value, after.value.name, after.value.ttl, o.createZone, limits, z);
    }
  }

  /**
   The row at `id` is a new PTR record from `owner` to `name` with that TTL and not
   disabled, the last one added, outside the secondary zones.
   */
  ghost predicate IsNewPtr(s: Store, t: Store, id: nat, owner: string, name: string, ttl: nat) {
    && id in t.rows && id + 1 == t.nextRow && t.rows[id].zone !in s.secondary
    && t.rows[id] == Row(t.rows[id].zone, owner, "PTR", Trim(TrimEnd(name, '.') + "."), ttl, false)
  }

  /** The row at `id` is the NS record of a zone created since `s`, to the server's own name. */
  ghost predicate IsNewNs(s: Store, t: Store, id: nat, ns: string) {
    && id in t.rows && s.nextZone in t.zones && s.nextZone !in s.zones
    && t.rows[id] == Row(s.nextZone, t.zones[s.nextZone], "NS", ns, 3600, false)
  }

  lemma AddedInIsNew(s: Store, zone: nat, owner: string, name: string, ttl: nat, limits: Limits, id: nat)
    requires id in AddedIn(s, zone, owner, name, ttl, limits).0.rows && id !in s.rows
    ensures AddedIn(s, zone, owner, name, ttl, limits).1.PtrAdded?
    ensures IsNewPtr(s, AddedIn(s, zone, owner, name, ttl, limits).0, id, owner, name, ttl)
  {
  }

  lemma AddedIsNew(s: Store, ip: IpAddr, name: string, ttl: nat, create: bool, limits: Limits, id: nat)
    requires id in Added(s, ip, name, ttl, create, limits).0.rows && id !in s.rows
    requires s.nextZone !in s.zones && forall i | i in s.rows :: i < s.nextRow
    ensures var (t, e) := Added(s, ip, name, ttl, create, limits);
      IsNewNs(s, t, id, limits.ns) || (e.PtrAdded? && IsNewPtr(s, t, id, ReverseName(ip), name, ttl))
  {
    var owner, made := ReverseName(ip), WithZone(s, DefaultReverseZone(ip), limits.ns);
    var best := ZoneFor(s.zones, owner);
    if best.Some? {
      AddedInIsNew(s, best.value, owner, name, ttl, limits, id);
    } else if id in made.rows {
      AddedInKeeps(made, s.nextZone, owner, name, ttl, limits, id);
      AddedInKeepsZones(made, s.nextZone, owner, name, ttl, limits);
    } else {
      AddedInIsNew(made, s.nextZone, owner, name, ttl, limits, id);
    }
  }

  /** At most one PTR record is new, in a zone that is not secondary; what else is new is a created zone's NS record. */
  lemma AddsOnePtr(s: Store, before: Option<Host>, after: Option<Host>, o: Options, limits: Limits, id: nat)
    requires ValidStore(s)
    requires id in Synced(s, before, after, o, limits).0.rows && id !in s.rows
    ensures var (t, e) := Synced(s, before, after, o, limits);
      || IsNewNs(s, t, id, limits.ns)
      || (e == Some(PtrAdded) && after.Some? && after.value.address.Some? && !after.value.disabled
          && IsNewPtr(s, t, id, ReverseName(after.value.address.value), after.value.name, after.value.ttl))
  {
    var kept := AfterRemoval(s, before, after);
    assert kept.secondary == s.secondary && kept.nextRow == s.nextRow && kept.nextZone == s.nextZone;
    assert kept.rows.Keys <= s.rows.Keys;
    AddedIsNew(kept, after.value.address.value, after.value.name, after.value.ttl, o.createZone, limits, id);
  }

  lemma AfterRemovalValid(s: Store, before: Option<Host>, after: Option<Host>)
    requires ValidStore(s)
    ensures ValidStore(AfterRemoval(s, before, after))
  {
    if Changes(before, after) {
      RemovalKeepsValid(s, before.value.address.value, before.value.name);
    }
  }

  lemma EndingKinds(e: Ending)
    ensures IsThere(e) <==> !IsProblem(e) && !IsError(e)
  {
  }

  /** For a served record: afterwards its PTR is in the most specific hosted zone, or a problem or error says why not. */
  lemma SyncEndsWithPtr(s: Store, before: Option<Host>, after: Option<Host>, o: Options, limits: Limits)
    requires ValidStore(s) && o.updatePtr && after.Some? && after.value.address.Some? && !after.value.disabled
    requires WellFormed(after.value.address.value) && Spaceless(after.value.name)
    ensures var (t, e) := Synced(s, before, after, o, limits);
      && ValidStore(t) && e.Some?
      && (HasPtr(t, after.value.address.value, after.value.name) <==> !IsProblem(e.value) && !IsError(e.value))
  {
    AfterRemovalValid(s, before, after);
    ServedEndsWithPtr(AfterRemoval(s, before, after), after.value, o, limits);
    EndingKinds(Synced(s, before, after, o, limits).1.value);
  }

  lemma ServedEndsWithPtr(s: Store, h: Host, o: Options, limits: Limits)
    requires ValidStore(s) && h.address.Some? && WellFormed(h.address.value) && Spaceless(h.name)
    ensures var (t, e) := Added(s, h.address.value, h.name, h.ttl, o.createZone, limits);
      ValidStore(t) && (HasPtr(t, h.address.value, h.name) <==> IsThere(e))
  {
    AddKeepsValid(s, h.address.value, h.name, h.ttl, o.createZone, limits);
    AddEndsWithPtr(s, h.address.value, h.name, h.ttl, o.createZone, limits);
  }

  /** Synchronising once more after that changes nothing. */
  lemma SyncAgain(s: Store, before: Option<Host>, after: Option<Host>, o: Options, limits: Limits)
    requires ValidStore(s) && o.updatePtr && after.Some? && after.value.address.Some? && !after.value.disabled
    requires WellFormed(after.value.address.value) && Spaceless(after.value.name)
    requires var e := Synced(s, before, after, o, limits).1.value; IsThere(e)
    ensures var t := Synced(s, before, after, o, limits).0;
      Synced(t, after, after, o, limits) == (t, Some(AlreadyThere))
  {
    SyncEndsWithPtr(s, before, after, o, limits);
    var t := Synced(s, before, after, o, limits).0;
    AddAgain(t, after.value.address.value, after.value.name, after.value.ttl, o.createZone, limits);
  }

  // ---- When the old record goes -------------------------------------------------------------------------

  lemma ReverseNameSpaceless(ip: IpAddr)
    ensures Spaceless(ReverseName(ip))
  {
    NameIs(ip);
    var labels := NameLabels(ip);
    forall i | 0 <= i < |labels|
      ensures Spaceless(labels[i])
    {
      LabelSpaceless(ip, i);
    }
    SpacelessJoin(labels);
  }

  lemma LabelSpaceless(ip: IpAddr, i: nat)
    requires i < |NameLabels(ip)|
    ensures Spaceless(NameLabels(ip)[i])
  {
    var l := NameLabels(ip)[i];
    if i < |HostLabels(ip)| {
      assert l == HostLabels(ip)[i];
      if ip.V4? {
        assert AllDigits(l);
      } else {
        assert |l| == 1 && IsHex(l[0]);
      }
    } else {
      assert l == FamilyLabels(ip)[i - |HostLabels(ip)|];
    }
  }

  lemma ReverseNamesDiffer(a: IpAddr, b: IpAddr)
    requires WellFormed(a) && WellFormed(b) && a != b
    ensures !SameName(ReverseName(a), ReverseName(b))
  {
    BareReverseName(a);
    BareReverseName(b);
    ReadsWhatIsWritten(a);
    ReadsWhatIsWritten(b);
  }

  lemma BareReverseName(ip: IpAddr)
    ensures Bare(ReverseName(ip)) == ReverseName(ip)
  {
    ReverseNameSpaceless(ip);
    SpacelessTrim(ReverseName(ip));
    WrittenNameIsCanonical(ip);
  }

  /**
   With the option on, the PTR records from the old address to the old name go if there
   is no record any more, it has no address, or its address or name is another; if
   address and name are the same none of them goes.
   */
  lemma OldPtrGoes(s: Store, before: Host, after: Option<Host>, o: Options, limits: Limits)
    requires ValidStore(s) && o.updatePtr && before.address.Some?
    ensures after.None? || after.value.address.None? || after.value.address != before.address
              || !SameName(after.value.name, before.name) ==>
            forall id | OldPtr(s, id, before) :: id !in Synced(s, Some(before), after, o, limits).0.rows
    ensures after.Some? && after.value.address == before.address && SameName(after.value.name, before.name) ==>
            forall id | OldPtr(s, id, before) :: id in Synced(s, Some(before), after, o, limits).0.rows
  {
    forall id | OldPtr(s, id, before)
      ensures id !in Synced(s, Some(before), after, o, limits).0.rows <==> Changes(Some(before), after)
    {
      DeletesExactly(s, Some(before), after, o, limits, id);
    }
  }

  /** A record that is new is no PTR from the old address to the old name. */
  lemma NewIsNotOld(s: Store, t: Store, id: nat, before: Host, after: Host, ns: string, z: nat)
    requires before.address.Some? && WellFormed(before.address.value)
    requires after.address.Some? && WellFormed(after.address.value) && Spaceless(after.name)
    requires after.address != before.address || !SameName(after.name, before.name)
    requires IsNewNs(s, t, id, ns) || IsNewPtr(s, t, id, ReverseName(after.address.value), after.name, after.ttl)
    ensures id in t.rows && !IsPtr(t.rows[id], z, ReverseName(before.address.value), before.name)
  {
    TargetIsName(after.name);
    if after.address != before.address {
      ReverseNamesDiffer(before.address.value, after.address.value);
    }
  }

  lemma SameZoneThen(s: Store, before: Option<Host>, after: Option<Host>, o: Options, limits: Limits, owner: string, z: nat)
    requires ValidStore(s) && z in s.zones
    requires ZoneFor(Synced(s, before, after, o, limits).0.zones, owner) == Some(z)
    ensures ZoneFor(s.zones, owner) == Some(z)
  {
    var t := Synced(s, before, after, o, limits).0;
    forall y | y in s.zones
      ensures y in t.zones && t.zones[y] == s.zones[y]
    {
      KeepsZones(s, before, after, o, limits, y);
    }
    assert MostSpecific(s.zones, owner, z);
    OneMostSpecific(s, owner, z, ZoneFor(s.zones, owner).value);
  }

  /** After a record moved, was renamed, or went, its address has no PTR to its old name any more. */
  lemma MovedAway(s: Store, before: Host, after: Option<Host>, o: Options, limits: Limits)
    requires ValidStore(s) && o.updatePtr && before.address.Some? && WellFormed(before.address.value)
    requires after.Some? && after.value.address.Some? ==>
      && WellFormed(after.value.address.value) && Spaceless(after.value.name)
      && (after.value.address != before.address || !SameName(after.value.name, before.name))
    ensures !HasPtr(Synced(s, Some(before), after, o, limits).0, before.address.value, before.name)
  {
    var t, owner := Synced(s, Some(before), after, o, limits).0, ReverseName(before.address.value);
    if HasPtr(t, before.address.value, before.name) {
      var z := ZoneFor(t.zones, owner).value;
      var id :| id in t.rows && IsPtr(t.rows[id], z, owner, before.name);
      if id in s.rows {
        KeepsRecords(s, Some(before), after, o, limits, id);
        KeepsZones(s, Some(before), after, o, limits, s.rows[id].zone);
        SameZoneThen(s, Some(before), after, o, limits, owner, z);
        assert OldPtr(s, id, before);
        OldPtrGoes(s, before, after, o, limits);
      } else {
        AddsOnePtr(s, Some(before), after, o, limits, id);
        NewIsNotOld(s, t, id, before, after.value, limits.ns, z);
      }
    }
  }

  // ---- How adding ends ------------------------------------------------------------------------------------

  /** Some record of the zone is a PTR from `owner`. */
  ghost predicate HasTarget(s: Store, z: nat, owner: string) {
    exists id :: id in s.rows && s.rows[id].zone == z && s.rows[id].rtype == "PTR" && SameName(s.rows[id].name, owner)
  }

  /** Some record of the zone is a PTR from `owner` to `name`. */
  ghost predicate HasThisTarget(s: Store, z: nat, owner: string, name: string) {
    exists id :: id in s.rows && s.rows[id].zone == z && s.rows[id].rtype == "PTR" && SameName(s.rows[id].name, owner)
              && SameName(s.rows[id].content, name)
  }

  /**
   Each ending, by what the store was like: no zone over the address and none to be
   created, or that one refused; the most specific zone secondary; the PTR there; another
   one there; else it is added unless refused.
   */
  lemma EndingIs(s: Store, ip: IpAddr, name: string, ttl: nat, create: bool, limits: Limits)
    requires ValidStore(s)
    ensures var (owner, e) := (ReverseName(ip), Added(s, ip, name, ttl, create, limits).1);
      if forall z | z in s.zones :: !Covers(owner, s.zones[z]) then
        e == if !create then NoZone else if DefaultReverseZone(ip) in limits.refused then ZoneRefused
             else if limits.accepts then PtrAdded else RecordRefused
      else
        exists z :: MostSpecific(s.zones, owner, z)
          && e == if z in s.secondary then SecondaryZone
                  else if HasThisTarget(s, z, owner, name) then AlreadyThere
                  else if HasTarget(s, z, owner) then OtherTarget
                  else if limits.accepts then PtrAdded else RecordRefused
  {
    var owner := ReverseName(ip);
    NoZoneNoCover(s.zones, owner);
    var z := ZoneFor(s.zones, owner);
    if z.Some? {
      AddedInEnding(s, z.value, owner, name, ttl, limits);
    } else {
      var t := WithZone(s, DefaultReverseZone(ip), limits.ns);
      AddedInEnding(t, s.nextZone, owner, name, ttl, limits);
      assert s.nextZone !in s.secondary;
      assert !HasTarget(t, s.nextZone, owner);
      assert !HasThisTarget(t, s.nextZone, owner, name);
    }
  }

  lemma AddedInEnding(s: Store, z: nat, owner: string, name: string, ttl: nat, limits: Limits)
    ensures AddedIn(s, z, owner, name, ttl, limits).1 ==
      if z in s.secondary then SecondaryZone
      else if HasThisTarget(s, z, owner, name) then AlreadyThere
      else if HasTarget(s, z, owner) then OtherTarget
      else if limits.accepts then PtrAdded else RecordRefused
  {
    ThisTargetIs(s, z, owner, name);
    TargetIs(s, z, owner);
  }

  lemma ThisTargetIs(s: Store, z: nat, owner: string, name: string)
    ensures HasThisTarget(s, z, owner, name) <==> exists id :: id in s.rows && IsPtr(s.rows[id], z, owner, name)
  {
    if HasThisTarget(s, z, owner, name) {
      var id :| id in s.rows && s.rows[id].zone == z && s.rows[id].rtype == "PTR" && SameName(s.rows[id].name, owner)
             && SameName(s.rows[id].content, name);
      assert IsPtr(s.rows[id], z, owner, name);
    }
  }

  lemma TargetIs(s: Store, z: nat, owner: string)
    ensures HasTarget(s, z, owner) <==> exists id :: id in s.rows && IsPtrAt(s.rows[id], z, owner)
  {
    if HasTarget(s, z, owner) {
      var id :| id in s.rows && s.rows[id].zone == z && s.rows[id].rtype == "PTR" && SameName(s.rows[id].name, owner);
      assert IsPtrAt(s.rows[id], z, owner);
    }
  }

  /** A record without an address, or disabled, or none: no PTR is added. */
  lemma NothingToAdd(s: Store, before: Option<Host>, after: Option<Host>, o: Options, limits: Limits)
    ensures Synced(s, before, after, o, limits).1.Some? <==>
      o.updatePtr && after.Some? && after.value.address.Some? && !after.value.disabled
    ensures !o.updatePtr ==> Synced(s, before, after, o, limits).0 == s
  {
  }
}
