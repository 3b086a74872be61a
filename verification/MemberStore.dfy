/**
 The part of the zone store a consumed catalog changes, and the three changes it
 makes: add a member zone, point one at other masters, remove one.
 */
module MemberStore {
  import opened Text

  /** A zone name as it is stored and compared: trimmed, no trailing dot, lowercase. */
  function Normalize(name: string): string {
    Lower(TrimEnd(Trim(name), '.'))
  }

  predicate Normal(name: string) {
    Normalize(name) == name
  }

  /** Surrounding space and trailing dots make no difference to a normal name. */
  lemma SpellingsNormalized(name: string)
    requires Normal(name) && name != ""
    ensures Normalize(" " + name) == name && Normalize(name + ".") == name && Normalize(name + "\n") == name
  {
    var t := TrimEnd(Trim(name), '.');
    assert |t| == |name| && t == name;
    assert Trim(name) == name;
    assert (" " + name)[1..] == name && TrimLeft(" " + name) == TrimLeft(name);
    assert TrimLeft(name) == name && TrimRight(name) == name;
    assert (name + "\n")[..|name|] == name && (name + ".")[..|name|] == name;
    assert TrimLeft(name + "\n") == name + "\n" && TrimLeft(name + ".") == name + ".";
    assert TrimRight(name + "\n") == TrimRight(name);
    assert TrimRight(name + ".") == name + ".";
    assert TrimEnd(name + ".", '.') == TrimEnd(name, '.');
  }

  lemma NormalIsLower(name: string)
    requires Normal(name)
    ensures Lower(name) == name
  {
    LowerOfLower(name);
  }

  /** How one secondary zone is refreshed. */
  datatype Config = Config(name: string, masters: seq<string>, refresh: nat, enabled: bool, tsig: string)

  datatype Masters = Masters(masters: seq<string>, refresh: nat)

  /**
   Zones by id, the secondary ones' masters, the catalog that added a zone, and
   the refresher's configurations by zone name. Ids below `next` have been used.
   */
  datatype Db = Db(
    zones: map<nat, string>,
    secondary: map<nat, Masters>,
    owners: map<nat, string>,
    refresher: map<string, Config>,
    next: nat)

  predicate UniqueNames(zones: map<nat, string>) {
    forall i, j | i in zones && j in zones && zones[i] == zones[j] :: i == j
  }

  /** Names are normal and unique; what refers to a zone goes with it. */
  predicate ValidDb(db: Db) {
    && (forall id | id in db.zones :: id < db.next && Normal(db.zones[id]))
    && UniqueNames(db.zones)
    && db.owners.Keys <= db.zones.Keys && db.secondary.Keys <= db.zones.Keys
  }

  predicate Owned(db: Db, id: nat, catalog: string) {
    id in db.zones && id in db.owners && db.owners[id] == catalog
  }

  predicate Foreign(db: Db, id: nat, catalog: string) {
    id in db.zones && !Owned(db, id, catalog)
  }

  ghost predicate HasName(db: Db, name: string) {
    exists id :: id in db.zones && db.zones[id] == name
  }

  // ---- The changes -----------------------------------------------------------------------

  /** A new zone `config.name`, secondary and owned by `catalog`. */
  function AddMember(db: Db, catalog: string, config: Config): Db {
    Db(db.zones[db.next := config.name],
       db.secondary[db.next := Masters(config.masters, config.refresh)],
       db.owners[db.next := catalog],
       db.refresher[config.name := config],
       db.next + 1)
  }

  /** Zone `id` refreshed as `config` says. */
  function Remaster(db: Db, id: nat, config: Config): Db {
    db.(secondary := db.secondary[id := Masters(config.masters, config.refresh)],
        refresher := db.refresher[config.name := config])
  }

  /** Zone `id`, called `name`, and everything that refers to it gone. */
  function Remove(db: Db, id: nat, name: string): Db {
    db.(zones := db.zones - {id},
        secondary := db.secondary - {id},
        owners := db.owners - {id},
        refresher := db.refresher - {name})
  }

  // ---- What stays the same ------------------------------------------------------------------

  predicate SameAt<K, V(==)>(a: map<K, V>, b: map<K, V>, k: K) {
    (k in a <==> k in b) && (k in a && k in b ==> a[k] == b[k])
  }

  /** Zone `id` is in both with the same name, owner, masters and configuration. */
  predicate Untouched(a: Db, b: Db, id: nat) {
    && id in a.zones && id in b.zones && a.zones[id] == b.zones[id]
    && SameAt(a.secondary, b.secondary, id)
    && SameAt(a.owners, b.owners, id)
    && SameAt(a.refresher, b.refresher, a.zones[id])
  }

  /**
   From `a` to `b` only zones of `catalog` were added, changed or removed; a zone
   in both kept its name and owner.
   */
  ghost predicate Touches(a: Db, b: Db, catalog: string) {
    && a.next <= b.next
    && (forall id | Foreign(a, id, catalog) :: Untouched(a, b, id))
    && (forall id | id in b.zones && id !in a.zones :: id >= a.next && Owned(b, id, catalog))
    && (forall id | id in a.zones && id in b.zones :: a.zones[id] == b.zones[id] && SameAt(a.owners, b.owners, id))
  }

  lemma TouchesSelf(db: Db, catalog: string)
    ensures Touches(db, db, catalog)
  {
  }

  lemma TouchesThen(a: Db, b: Db, c: Db, catalog: string)
    requires ValidDb(a) && Touches(a, b, catalog) && Touches(b, c, catalog)
    ensures Touches(a, c, catalog)
  {
    forall id | Foreign(a, id, catalog)
      ensures Untouched(a, c, id)
    {
      assert Untouched(a, b, id) && Foreign(b, id, catalog);
      assert Untouched(b, c, id);
    }
    forall id | id in c.zones && id !in a.zones
      ensures id >= a.next && Owned(c, id, catalog)
    {
      if id in b.zones {
        assert Owned(b, id, catalog);
      }
    }
    forall id | id in a.zones && id in c.zones
      ensures a.zones[id] == c.zones[id] && SameAt(a.owners, c.owners, id)
    {
      if id !in b.zones {
        assert false;
      }
    }
  }

  lemma AddKeeps(db: Db, catalog: string, config: Config)
    requires ValidDb(db) && Normal(config.name) && !HasName(db, config.name)
    ensures ValidDb(AddMember(db, catalog, config)) && Touches(db, AddMember(db, catalog, config), catalog)
  {
    AddKeepsValid(db, catalog, config);
    AddTouches(db, catalog, config);
  }

  lemma AddTouches(db: Db, catalog: string, config: Config)
    requires forall id | id in db.zones :: id < db.next && db.zones[id] != config.name
    ensures Touches(db, AddMember(db, catalog, config), catalog)
  {
  }

  lemma AddKeepsValid(db: Db, catalog: string, config: Config)
    requires ValidDb(db) && Normal(config.name) && !HasName(db, config.name)
    ensures ValidDb(AddMember(db, catalog, config))
  {
    NamesStayUnique(db.zones, db.next, config.name);
    IdsStayBelow(db.zones, db.next, config.name);
    var b := AddMember(db, catalog, config);
    assert b.zones == db.zones[db.next := config.name] && b.next == db.next + 1;
    assert b.owners.Keys <= b.zones.Keys && b.secondary.Keys <= b.zones.Keys;
  }

  lemma IdsStayBelow(zones: map<nat, string>, next: nat, name: string)
    requires Normal(name) && forall id | id in zones :: id < next && Normal(zones[id])
    ensures var z := zones[next := name]; forall id | id in z :: id < next + 1 && Normal(z[id])
  {
  }

  lemma NamesStayUnique(zones: map<nat, string>, id: nat, name: string)
    requires id !in zones && forall i | i in zones :: zones[i] != name
    requires UniqueNames(zones)
    ensures UniqueNames(zones[id := name])
  {
    var z := zones[id := name];
    forall i, j | i in z && j in z && z[i] == z[j]
      ensures i == j
    {
      if i != id && j != id {
        assert zones[i] == zones[j];
      }
    }
  }

  lemma RemasterKeeps(db: Db, id: nat, config: Config, catalog: string)
    requires ValidDb(db) && Owned(db, id, catalog) && db.zones[id] == config.name
    ensures ValidDb(Remaster(db, id, config)) && Touches(db, Remaster(db, id, config), catalog)
  {
    RemasterTouches(db, id, config, catalog);
  }

  lemma RemasterTouches(db: Db, id: nat, config: Config, catalog: string)
    requires Owned(db, id, catalog) && db.zones[id] == config.name
    requires forall i, j | i in db.zones && j in db.zones && db.zones[i] == db.zones[j] :: i == j
    ensures Touches(db, Remaster(db, id, config), catalog)
  {
    var b := Remaster(db, id, config);
    forall other | Foreign(db, other, catalog)
      ensures Untouched(db, b, other)
    {
      assert other != id && db.zones[other] != config.name;
    }
  }

  lemma RemoveKeeps(db: Db, id: nat, catalog: string)
    requires ValidDb(db) && Owned(db, id, catalog)
    ensures ValidDb(Remove(db, id, db.zones[id])) && Touches(db, Remove(db, id, db.zones[id]), catalog)
  {
    RemoveTouches(db, id, catalog);
    RemoveKeepsValid(db, id);
  }

  lemma RemoveKeepsValid(db: Db, id: nat)
    requires ValidDb(db) && id in db.zones
    ensures ValidDb(Remove(db, id, db.zones[id]))
  {
  }

  lemma RemoveTouches(db: Db, id: nat, catalog: string)
    requires Owned(db, id, catalog) && forall i, j | i in db.zones && j in db.zones && db.zones[i] == db.zones[j] :: i == j
    ensures Touches(db, Remove(db, id, db.zones[id]), catalog)
  {
    var b := Remove(db, id, db.zones[id]);
    forall other | Foreign(db, other, catalog)
      ensures Untouched(db, b, other)
    {
      assert other != id && db.zones[other] != db.zones[id];
    }
  }

  // ---- Stored masters in step with the refresher ------------------------------------------------

  /** A catalog's zone is secondary, from the masters its refresher configuration names. */
  predicate InStepAt(db: Db, id: nat) {
    && id in db.zones && id in db.secondary
    && (db.zones[id] in db.refresher ==>
          var config := db.refresher[db.zones[id]]; db.secondary[id] == Masters(config.masters, config.refresh))
  }

  ghost predicate InStep(db: Db) {
    forall id | id in db.owners :: InStepAt(db, id)
  }

  lemma AddInStep(db: Db, catalog: string, config: Config)
    requires ValidDb(db) && InStep(db) && !HasName(db, config.name)
    ensures InStep(AddMember(db, catalog, config))
  {
    var b := AddMember(db, catalog, config);
    forall id | id in b.owners
      ensures InStepAt(b, id)
    {
      if id != db.next {
        assert InStepAt(db, id);
      }
    }
  }

  lemma RemasterInStep(db: Db, id: nat, config: Config)
    requires ValidDb(db) && InStep(db) && id in db.zones && db.zones[id] == config.name
    ensures InStep(Remaster(db, id, config))
  {
    var b := Remaster(db, id, config);
    forall other | other in b.owners
      ensures InStepAt(b, other)
    {
      assert InStepAt(db, other);
    }
  }

  lemma RemoveInStep(db: Db, id: nat)
    requires ValidDb(db) && InStep(db) && id in db.zones
    ensures InStep(Remove(db, id, db.zones[id]))
  {
    var b := Remove(db, id, db.zones[id]);
    forall other | other in b.owners
      ensures InStepAt(b, other)
    {
      assert InStepAt(db, other);
    }
  }

  // ---- Owners -------------------------------------------------------------------------------------

  /** Owners all come from `configured`. */
  predicate OwnersIn(db: Db, configured: set<string>) {
    forall id | id in db.owners :: db.owners[id] in configured
  }

  lemma OwnersStayIn(a: Db, b: Db, catalog: string, configured: set<string>)
    requires ValidDb(b) && Touches(a, b, catalog) && catalog in configured && OwnersIn(a, configured)
    ensures OwnersIn(b, configured)
  {
    forall id | id in b.owners
      ensures b.owners[id] in configured
    {
      if id in a.zones {
        assert SameAt(a.owners, b.owners, id);
      } else {
        assert Owned(b, id, catalog);
      }
    }
  }
}
