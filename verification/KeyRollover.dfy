/**
 DNSSEC key rollover (`DnssecMaintenance::process_rollover`): what one pass
 does to a zone's keys, as the code does it and as a function of the key list.
 */
module KeyRollover {
  import opened Addresses

  const NANOS: nat := 1_000_000_000

  /** Retirement and creation times are `None` when the stored text is unreadable. */
  datatype KeyState = Active | Retired(at: Option<nat>)
  datatype Key = Key(id: nat, created: Option<nat>, state: KeyState)

  /** Thresholds in whole seconds; `rolloverAfter == 0` turns rollover off. */
  datatype Config = Config(rolloverAfter: nat, overlap: nat, retire: nat)

  /** An unreadable time counts as "now". */
  function TimeOr(t: Option<nat>, now: nat): nat {
    if t.Some? then t.value else now
  }

  function CreatedAt(k: Key, now: nat): nat {
    TimeOr(k.created, now)
  }

  /** Whole seconds since `since`, zero for a time in the future. */
  function AgeSecs(since: nat, now: nat): nat {
    if now >= since then (now - since) / NANOS else 0
  }

  /** An age reaches a threshold exactly when that much time has passed. */
  lemma AgeReached(since: nat, now: nat, threshold: nat)
    ensures threshold > 0 ==> (AgeSecs(since, now) >= threshold <==> since + threshold * 1_000_000_000 <= now)
    ensures since <= now ==> (AgeSecs(since, now) >= threshold <==> since + threshold * 1_000_000_000 <= now)
  {
  }

  predicate HasActive(keys: seq<Key>) {
    exists k :: k in keys && k.state.Active?
  }

  function CountActive(keys: seq<Key>): nat {
    if keys == [] then 0 else (if keys[0].state.Active? then 1 else 0) + CountActive(keys[1..])
  }

  /** The latest creation time of an active key. */
  function Newest(keys: seq<Key>, now: nat): nat {
    if keys == [] then 0
    else
      var rest := Newest(keys[1..], now);
      if keys[0].state.Active? && CreatedAt(keys[0], now) >= rest then CreatedAt(keys[0], now) else rest
  }

  /** It is the maximum, reached by an active key if there is one. */
  lemma {:induction false} NewestIs(keys: seq<Key>, now: nat)
    ensures forall k | k in keys && k.state.Active? :: CreatedAt(k, now) <= Newest(keys, now)
    ensures HasActive(keys) ==> exists k :: k in keys && k.state.Active? && CreatedAt(k, now) == Newest(keys, now)
    ensures !HasActive(keys) ==> Newest(keys, now) == 0
    decreases |keys|
  {
    if keys != [] {
      NewestIs(keys[1..], now);
      assert forall k :: k in keys <==> k == keys[0] || k in keys[1..];
    }
  }

  predicate Starts(keys: seq<Key>, cfg: Config, now: nat) {
    && cfg.rolloverAfter != 0
    && CountActive(keys) == 1
    && (forall k | k in keys :: k.state.Active?)
    && AgeSecs(Newest(keys, now), now) >= cfg.rolloverAfter
  }

  predicate Retires(k: Key, keys: seq<Key>, cfg: Config, now: nat) {
    && k.state.Active?
    && CreatedAt(k, now) < Newest(keys, now)
    && AgeSecs(Newest(keys, now), now) >= cfg.overlap
  }

  predicate Expires(k: Key, cfg: Config, now: nat) {
    k.state.Retired? && AgeSecs(TimeOr(k.state.at, now), now) >= cfg.retire
  }

  /** What becomes of `rest`, a part of `keys`, in one pass. */
  function Survivors(rest: seq<Key>, keys: seq<Key>, cfg: Config, now: nat): seq<Key> {
    if rest == [] then []
    else
      (if Retires(rest[0], keys, cfg, now) then [rest[0].(state := Retired(Some(now)))]
       else if Expires(rest[0], cfg, now) then []
       else [rest[0]])
      + Survivors(rest[1..], keys, cfg, now)
  }

  /** One pass over a zone: an unsigned zone, or one without an active key, is left alone. */
  function ZonePass(keys: seq<Key>, cfg: Config, now: nat, newId: nat): seq<Key> {
    if !HasActive(keys) then keys
    else Survivors(keys, keys, cfg, now) + if Starts(keys, cfg, now) then [Key(newId, Some(now), Active)] else []
  }

  /** The key events of one pass: keys retired and deleted, and a key generated. */
  function Events(keys: seq<Key>, cfg: Config, now: nat): nat {
    if !HasActive(keys) then 0
    else Changes(keys, keys, cfg, now) + if Starts(keys, cfg, now) then 1 else 0
  }

  function Changes(rest: seq<Key>, keys: seq<Key>, cfg: Config, now: nat): nat {
    if rest == [] then 0
    else (if Retires(rest[0], keys, cfg, now) || Expires(rest[0], cfg, now) then 1 else 0)
         + Changes(rest[1..], keys, cfg, now)
  }

  predicate DistinctIds(keys: seq<Key>) {
    forall i, j | 0 <= i < j < |keys| :: keys[i].id != keys[j].id
  }

  // ---- The store's two key updates -------------------------------------------

  function SetRetired(keys: seq<Key>, id: nat, now: nat): seq<Key> {
    seq(|keys|, i requires 0 <= i < |keys| =>
      if keys[i].id == id then keys[i].(state := Retired(Some(now))) else keys[i])
  }

  function DeleteKey(keys: seq<Key>, id: nat): seq<Key> {
    if keys == [] then []
    else (if keys[0].id == id then [] else [keys[0]]) + DeleteKey(keys[1..], id)
  }

  /** `keys` with the keys before `n` treated as a pass treats them. */
  function PartlyRetired(keys: seq<Key>, n: nat, cfg: Config, now: nat): (r: seq<Key>)
    requires n <= |keys|
    ensures |r| == |keys|
    ensures forall i | 0 <= i < |keys| :: r[i].id == keys[i].id
  {
    seq(|keys|, i requires 0 <= i < |keys| =>
      if i < n && Retires(keys[i], keys, cfg, now) then keys[i].(state := Retired(Some(now))) else keys[i])
  }

  /** Deleting exactly the expired keys of `keys` from the retired list is what `Survivors` says. */
  lemma {:induction false} SurvivorsAre(rest: seq<Key>, keys: seq<Key>, cfg: Config, now: nat, n: nat, r: seq<Key>)
    requires n + |rest| == |keys| && rest == keys[n..]
    requires r == PartlyRetired(keys, |keys|, cfg, now)[n..]
    ensures Survivors(rest, keys, cfg, now) == Kept(r, rest, cfg, now)
    decreases |rest|
  {
    if rest != [] {
      SurvivorsAre(rest[1..], keys, cfg, now, n + 1, r[1..]);
    }
  }

  /** `r`, position by position, without the keys that `orig` shows to be expired. */
  function Kept(r: seq<Key>, orig: seq<Key>, cfg: Config, now: nat): seq<Key>
    requires |r| == |orig|
  {
    if r == [] then [] else (if Expires(orig[0], cfg, now) then [] else [r[0]]) + Kept(r[1..], orig[1..], cfg, now)
  }

  /** The first `n` keys' expiries applied. */
  function KeptUpTo(r: seq<Key>, orig: seq<Key>, n: nat, cfg: Config, now: nat): seq<Key>
    requires |r| == |orig| && n <= |orig|
  {
    Kept(r[..n], orig[..n], cfg, now) + r[n..]
  }

  lemma {:induction false} KeptAppend(r: seq<Key>, orig: seq<Key>, n: nat, cfg: Config, now: nat)
    requires |r| == |orig| && n < |orig|
    ensures Kept(r[..n + 1], orig[..n + 1], cfg, now)
         == Kept(r[..n], orig[..n], cfg, now) + if Expires(orig[n], cfg, now) then [] else [r[n]]
    decreases n
  {
    if n > 0 {
      KeptAppend(r[1..], orig[1..], n - 1, cfg, now);
      assert r[..n + 1][1..] == r[1..][..n] && orig[..n + 1][1..] == orig[1..][..n];
      assert r[..n][1..] == r[1..][..n - 1] && orig[..n][1..] == orig[1..][..n - 1];
    } else {
      assert r[..1][1..] == [] && orig[..1][1..] == [];
    }
  }

  lemma {:induction false} DeleteAbsent(keys: seq<Key>, id: nat)
    requires forall k | k in keys :: k.id != id
    ensures DeleteKey(keys, id) == keys
    decreases |keys|
  {
    if keys != [] {
      assert keys[0] in keys;
      DeleteAbsent(keys[1..], id);
    }
  }

  lemma {:induction false} DeleteAppend(a: seq<Key>, b: seq<Key>, id: nat)
    ensures DeleteKey(a + b, id) == DeleteKey(a, id) + DeleteKey(b, id)
    decreases |a|
  {
    if a == [] {
      assert a + b == b;
    } else {
      var first := if a[0].id == id then [] else [a[0]];
      DeleteAppend(a[1..], b, id);
      assert (a + b)[0] == a[0] && (a + b)[1..] == a[1..] + b;
      assert first + (DeleteKey(a[1..], id) + DeleteKey(b, id)) == first + DeleteKey(a[1..], id) + DeleteKey(b, id);
    }
  }

  lemma {:induction false} KeptSubset(r: seq<Key>, orig: seq<Key>, cfg: Config, now: nat)
    requires |r| == |orig|
    ensures forall k | k in Kept(r, orig, cfg, now) :: k in r
    decreases |r|
  {
    if r != [] {
      KeptSubset(r[1..], orig[1..], cfg, now);
      assert r[0] in r;
    }
  }

  lemma DeleteOne(a: seq<Key>, k: Key, b: seq<Key>)
    requires forall other | other in a || other in b :: other.id != k.id
    ensures DeleteKey(a + ([k] + b), k.id) == a + b
  {
    DeleteAppend(a, [k] + b, k.id);
    DeleteAbsent(a, k.id);
    DeleteFirst(k, b);
  }

  lemma DeleteFirst(k: Key, b: seq<Key>)
    requires forall other | other in b :: other.id != k.id
    ensures DeleteKey([k] + b, k.id) == b
  {
    DeleteAbsent(b, k.id);
    assert ([k] + b)[1..] == b;
  }

  lemma OthersDiffer(all: seq<Key>, n: nat)
    requires DistinctIds(all) && n < |all|
    ensures forall k | k in all[..n] || k in all[n + 1..] :: k.id != all[n].id
  {
  }

  /** Deleting the `n`-th key, if expired, moves the deletion on by one. */
  lemma DeleteNext(r: seq<Key>, orig: seq<Key>, tail: seq<Key>, n: nat, cfg: Config, now: nat)
    requires |r| == |orig| && n < |orig| && DistinctIds(r + tail) && r[n].id == orig[n].id
    requires Expires(orig[n], cfg, now)
    ensures DeleteKey(KeptUpTo(r, orig, n, cfg, now) + tail, orig[n].id) == KeptUpTo(r, orig, n + 1, cfg, now) + tail
  {
    var head, after := Kept(r[..n], orig[..n], cfg, now), r[n + 1..] + tail;
    KeptIds(r, orig, tail, n, cfg, now);
    DeleteOne(head, r[n], after);
    assert KeptUpTo(r, orig, n, cfg, now) + tail == head + ([r[n]] + after);
    KeptAppend(r, orig, n, cfg, now);
  }

  /** No other key left has the id of the `n`-th. */
  lemma KeptIds(r: seq<Key>, orig: seq<Key>, tail: seq<Key>, n: nat, cfg: Config, now: nat)
    requires |r| == |orig| && n < |orig| && DistinctIds(r + tail)
    ensures forall k | k in Kept(r[..n], orig[..n], cfg, now) || k in r[n + 1..] + tail :: k.id != r[n].id
  {
    OthersDiffer(r + tail, n);
    assert (r + tail)[..n] == r[..n] && (r + tail)[n + 1..] == r[n + 1..] + tail;
    KeptSubset(r[..n], orig[..n], cfg, now);
  }

  lemma KeepNext(r: seq<Key>, orig: seq<Key>, n: nat, cfg: Config, now: nat)
    requires |r| == |orig| && n < |orig| && !Expires(orig[n], cfg, now)
    ensures KeptUpTo(r, orig, n + 1, cfg, now) == KeptUpTo(r, orig, n, cfg, now)
  {
    KeptAppend(r, orig, n, cfg, now);
  }

  /** Retiring the `n`-th key, if superseded, moves the retirement on by one. */
  lemma RetireNext(keys: seq<Key>, added: seq<Key>, n: nat, cfg: Config, now: nat)
    requires DistinctIds(keys + added) && n < |keys| && Retires(keys[n], keys, cfg, now)
    ensures SetRetired(PartlyRetired(keys, n, cfg, now) + added, keys[n].id, now)
         == PartlyRetired(keys, n + 1, cfg, now) + added
  {
    var was, all := PartlyRetired(keys, n, cfg, now) + added, keys + added;
    var next := PartlyRetired(keys, n + 1, cfg, now) + added;
    forall i | 0 <= i < |was|
      ensures SetRetired(was, keys[n].id, now)[i] == next[i]
    {
      assert was[i].id == all[i].id && all[n].id == keys[n].id;
    }
  }

  method RetireSuperseded(keys: seq<Key>, added: seq<Key>, cfg: Config, now: nat)
    returns (stored: seq<Key>, retired: nat)
    requires DistinctIds(keys + added)
    ensures stored == PartlyRetired(keys, |keys|, cfg, now) + added
    ensures retired == CountRetires(keys, keys, cfg, now)
  {
    stored, retired := keys + added, 0;
    assert PartlyRetired(keys, 0, cfg, now) == keys;
    for i := 0 to |keys|
      invariant stored == PartlyRetired(keys, i, cfg, now) + added
      invariant retired == CountRetires(keys[..i], keys, cfg, now)
    {
      assert keys[..i + 1] == keys[..i] + [keys[i]];
      CountRetiresAppend(keys[..i], keys[i], keys, cfg, now);
      if Retires(keys[i], keys, cfg, now) {
        RetireNext(keys, added, i, cfg, now);
        stored := SetRetired(stored, keys[i].id, now);
        retired := retired + 1;
      } else {
        assert PartlyRetired(keys, i + 1, cfg, now) == PartlyRetired(keys, i, cfg, now);
      }
    }
    assert keys[..|keys|] == keys;
  }

  method DeleteExpired(r: seq<Key>, keys: seq<Key>, added: seq<Key>, cfg: Config, now: nat)
    returns (stored: seq<Key>, deleted: nat)
    requires |r| == |keys| && DistinctIds(r + added) && forall i | 0 <= i < |r| :: r[i].id == keys[i].id
    ensures stored == Kept(r, keys, cfg, now) + added
    ensures deleted == CountExpires(keys, cfg, now)
  {
    stored, deleted := r + added, 0;
    KeptEnds(r, keys, cfg, now);
    for i := 0 to |keys|
      invariant stored == KeptUpTo(r, keys, i, cfg, now) + added
      invariant deleted == CountExpires(keys[..i], cfg, now)
    {
      CountNext(keys, i, cfg, now);
      if Expires(keys[i], cfg, now) {
        DeleteNext(r, keys, added, i, cfg, now);
        stored := DeleteKey(stored, keys[i].id);
        deleted := deleted + 1;
      } else {
        KeepNext(r, keys, i, cfg, now);
      }
    }
    assert keys[..|keys|] == keys;
  }

  lemma KeptEnds(r: seq<Key>, keys: seq<Key>, cfg: Config, now: nat)
    requires |r| == |keys|
    ensures KeptUpTo(r, keys, 0, cfg, now) == r && KeptUpTo(r, keys, |keys|, cfg, now) == Kept(r, keys, cfg, now)
  {
    assert keys[..|keys|] == keys && r[..|keys|] == r && r[|keys|..] == [];
  }

  lemma CountNext(keys: seq<Key>, i: nat, cfg: Config, now: nat)
    requires i < |keys|
    ensures CountExpires(keys[..i + 1], cfg, now) == CountExpires(keys[..i], cfg, now) + if Expires(keys[i], cfg, now) then 1 else 0
  {
    assert keys[..i + 1] == keys[..i] + [keys[i]];
    CountExpiresAppend(keys[..i], keys[i], cfg, now);
  }

  /**
   One zone's part of the pass, with the store updated key by key as the code
   does: first the new key, then the retirements, then the deletions, all
   decided on the list read at the start.
   */
  method AdvanceZone(keys: seq<Key>, cfg: Config, now: nat, newId: nat) returns (stored: seq<Key>, events: nat)
    requires DistinctIds(keys) && forall k | k in keys :: k.id != newId
    ensures stored == ZonePass(keys, cfg, now, newId)
    ensures events == Events(keys, cfg, now)
  {
    if !HasActive(keys) {
      return keys, 0;
    }
    var added := if Starts(keys, cfg, now) then [Key(newId, Some(now), Active)] else [];
    var retiredList, retired := RetireSuperseded(keys, added, cfg, now);
    RetiredIds(keys, added, cfg, now);
    var deleted;
    stored, deleted := DeleteExpired(retiredList[..|keys|], keys, added, cfg, now);
    events := |added| + retired + deleted;
    SurvivorsKept(keys, cfg, now);
    ChangesSplit(keys, keys, cfg, now);
  }

  /** Retiring keys leaves the ids as they are. */
  lemma RetiredIds(keys: seq<Key>, added: seq<Key>, cfg: Config, now: nat)
    requires DistinctIds(keys + added)
    ensures var r := PartlyRetired(keys, |keys|, cfg, now); DistinctIds(r + added) && (r + added)[..|keys|] == r
  {
    var r := PartlyRetired(keys, |keys|, cfg, now);
    assert forall i | 0 <= i < |r + added| :: (r + added)[i].id == (keys + added)[i].id;
  }

  lemma SurvivorsKept(keys: seq<Key>, cfg: Config, now: nat)
    ensures Survivors(keys, keys, cfg, now) == Kept(PartlyRetired(keys, |keys|, cfg, now), keys, cfg, now)
  {
    var r := PartlyRetired(keys, |keys|, cfg, now);
    assert keys[0..] == keys && r[0..] == r;
    SurvivorsAre(keys, keys, cfg, now, 0, r);
  }

  function CountRetires(rest: seq<Key>, keys: seq<Key>, cfg: Config, now: nat): nat {
    if rest == [] then 0
    else (if Retires(rest[0], keys, cfg, now) then 1 else 0) + CountRetires(rest[1..], keys, cfg, now)
  }

  function CountExpires(rest: seq<Key>, cfg: Config, now: nat): nat {
    if rest == [] then 0 else (if Expires(rest[0], cfg, now) then 1 else 0) + CountExpires(rest[1..], cfg, now)
  }

  lemma {:induction false} CountRetiresAppend(rest: seq<Key>, k: Key, keys: seq<Key>, cfg: Config, now: nat)
    ensures CountRetires(rest + [k], keys, cfg, now)
         == CountRetires(rest, keys, cfg, now) + if Retires(k, keys, cfg, now) then 1 else 0
    decreases |rest|
  {
    if rest == [] {
      assert rest + [k] == [k];
    } else {
      CountRetiresAppend(rest[1..], k, keys, cfg, now);
      assert (rest + [k])[1..] == rest[1..] + [k];
    }
  }

  lemma {:induction false} CountExpiresAppend(rest: seq<Key>, k: Key, cfg: Config, now: nat)
    ensures CountExpires(rest + [k], cfg, now) == CountExpires(rest, cfg, now) + if Expires(k, cfg, now) then 1 else 0
    decreases |rest|
  {
    if rest == [] {
      assert rest + [k] == [k];
    } else {
      CountExpiresAppend(rest[1..], k, cfg, now);
      assert (rest + [k])[1..] == rest[1..] + [k];
    }
  }

  lemma {:induction false} ChangesSplit(rest: seq<Key>, keys: seq<Key>, cfg: Config, now: nat)
    ensures Changes(rest, keys, cfg, now) == CountRetires(rest, keys, cfg, now) + CountExpires(rest, cfg, now)
    decreases |rest|
  {
    if rest != [] {
      ChangesSplit(rest[1..], keys, cfg, now);
    }
  }

  /** A zone without an active key is left alone, retired keys and all. */
  lemma NoActiveKey(keys: seq<Key>, cfg: Config, now: nat, newId: nat)
    requires forall i | 0 <= i < |keys| :: !keys[i].state.Active?
    ensures ZonePass(keys, cfg, now, newId) == keys && Events(keys, cfg, now) == 0
  {
  }

  lemma {:induction false} SurvivorsChange(rest: seq<Key>, keys: seq<Key>, cfg: Config, now: nat)
    ensures |Survivors(rest, keys, cfg, now)| <= |rest|
    ensures Survivors(rest, keys, cfg, now) != rest <==> Changes(rest, keys, cfg, now) > 0
    ensures (forall k | k in rest :: k.state.Active?) ==> |Survivors(rest, keys, cfg, now)| == |rest|
    decreases |rest|
  {
    if rest != [] {
      var tail := Survivors(rest[1..], keys, cfg, now);
      SurvivorsChange(rest[1..], keys, cfg, now);
      assert rest == [rest[0]] + rest[1..];
      if Retires(rest[0], keys, cfg, now) {
        assert Survivors(rest, keys, cfg, now)[0] != rest[0];
      } else if !Expires(rest[0], cfg, now) {
        assert ([rest[0]] + tail)[1..] == tail;
      }
    }
  }

  /** A pass counts an event if and only if it changes the zone's keys. */
  lemma PassChanges(keys: seq<Key>, cfg: Config, now: nat, newId: nat)
    ensures Events(keys, cfg, now) > 0 <==> ZonePass(keys, cfg, now, newId) != keys
  {
    SurvivorsChange(keys, keys, cfg, now);
  }

  /** Every key's id is below `bound`, so ids from `bound` on are new. */
  predicate IdsBelow(keys: seq<Key>, bound: nat) {
    forall k | k in keys :: k.id < bound
  }

  /** The stored keys of every zone, and the ids not handed out yet. */
  class KeyStore {
    var zones: map<string, seq<Key>>
    var nextId: nat

    ghost predicate Valid()
      reads this
    {
      forall z | z in zones :: DistinctIds(zones[z]) && IdsBelow(zones[z], nextId)
    }

    /** One zone's step of the pass. */
    method AdvanceStored(zone: string, cfg: Config, now: nat) returns (events: nat)
      requires Valid() && zone in zones
      modifies this
      ensures Valid() && nextId == old(nextId) + 1
      ensures zones == old(zones)[zone := ZonePass(old(zones)[zone], cfg, now, old(nextId))]
      ensures events == Events(old(zones)[zone], cfg, now)
    {
      var stored;
      stored, events := AdvanceZone(zones[zone], cfg, now, nextId);
      PassKeepsIds(zones[zone], cfg, now, nextId);
      zones := zones[zone := stored];
      nextId := nextId + 1;
    }

    /**
     A whole pass over the primary zones: each advances by one step of its
     own, and every other zone keeps its keys. `changed` says whether the
     catalog has to be reloaded.
     */
    method ProcessRollover(primaries: seq<string>, cfg: Config, now: nat) returns (events: nat, changed: bool)
      requires Valid()
      requires AllStored(zones, primaries) && DistinctNames(primaries)
      modifies this
      ensures Valid()
      ensures zones.Keys == old(zones).Keys
      ensures forall i | 0 <= i < |primaries| ::
                zones[primaries[i]] == ZonePass(old(zones)[primaries[i]], cfg, now, old(nextId) + i)
      ensures forall z | z in zones && z !in primaries :: zones[z] == old(zones)[z]
      ensures events == TotalEvents(old(zones), primaries, |primaries|, cfg, now)
      ensures changed <==> events > 0
      ensures changed <==> exists i :: 0 <= i < |primaries| && zones[primaries[i]] != old(zones)[primaries[i]]
    {
      events := AdvanceEach(primaries, cfg, now);
      AdvancedAll(old(zones), zones, primaries, cfg, now, old(nextId));
      EventsChange(old(zones), zones, primaries, cfg, now, old(nextId));
      changed := events > 0;
    }

    /** The step of the `n`-th primary zone, when those before it have had theirs. */
    method AdvanceNth(primaries: seq<string>, n: nat, cfg: Config, now: nat,
                      ghost first: map<string, seq<Key>>, ghost firstId: nat) returns (events: nat)
      requires Valid() && n < |primaries| && DistinctNames(primaries)
      requires Advanced(first, zones, primaries, n, cfg, now, firstId) && nextId == firstId + n
      modifies this
      ensures Valid() && nextId == firstId + n + 1
      ensures Advanced(first, zones, primaries, n + 1, cfg, now, firstId)
      ensures TotalEvents(first, primaries, n, cfg, now) + events == TotalEvents(first, primaries, n + 1, cfg, now)
    {
      AdvancedAt(first, zones, primaries, n, cfg, now, firstId);
      events := AdvanceStored(primaries[n], cfg, now);
      AdvanceNext(first, old(zones), zones, primaries, n, cfg, now, firstId);
    }

    /** The loop of the pass, zone after zone. */
    method AdvanceEach(primaries: seq<string>, cfg: Config, now: nat) returns (events: nat)
      requires Valid()
      requires AllStored(zones, primaries) && DistinctNames(primaries)
      modifies this
      ensures Valid()
      ensures Advanced(old(zones), zones, primaries, |primaries|, cfg, now, old(nextId))
      ensures events == TotalEvents(old(zones), primaries, |primaries|, cfg, now)
    {
      events := 0;
      ghost var first, firstId := zones, nextId;
      for n := 0 to |primaries|
        invariant Valid() && nextId == firstId + n
        invariant Advanced(first, zones, primaries, n, cfg, now, firstId)
        invariant events == TotalEvents(first, primaries, n, cfg, now)
      {
        var count := AdvanceNth(primaries, n, cfg, now, first, firstId);
        events := events + count;
      }
    }
  }

  predicate AllStored(zones: map<string, seq<Key>>, primaries: seq<string>) {
    forall i | 0 <= i < |primaries| :: primaries[i] in zones
  }

  predicate DistinctNames(primaries: seq<string>) {
    forall i, j | 0 <= i < j < |primaries| :: primaries[i] != primaries[j]
  }

  /** None of the first `n` names. */
  predicate NotAmong(zone: string, primaries: seq<string>, n: nat)
    requires n <= |primaries|
  {
    forall i | 0 <= i < n :: primaries[i] != zone
  }

  /** The zones that are not among the first `n` are as they were. */
  predicate Others(zones: map<string, seq<Key>>, after: map<string, seq<Key>>, primaries: seq<string>, n: nat)
    requires n <= |primaries|
  {
    after.Keys == zones.Keys && forall z | z in zones && NotAmong(z, primaries, n) :: after[z] == zones[z]
  }

  /** The first `n` primary zones have had their step; the others are as they were. */
  predicate Advanced(zones: map<string, seq<Key>>, after: map<string, seq<Key>>, primaries: seq<string>, n: nat,
                     cfg: Config, now: nat, firstId: nat)
    requires n <= |primaries|
  {
    && Others(zones, after, primaries, n) && AllStored(zones, primaries)
    && (forall i | 0 <= i < n :: after[primaries[i]] == ZonePass(zones[primaries[i]], cfg, now, firstId + i))
  }

  lemma AdvancedAt(zones: map<string, seq<Key>>, after: map<string, seq<Key>>, primaries: seq<string>, n: nat,
                   cfg: Config, now: nat, firstId: nat)
    requires n < |primaries| && Advanced(zones, after, primaries, n, cfg, now, firstId) && DistinctNames(primaries)
    ensures primaries[n] in zones && primaries[n] in after && after[primaries[n]] == zones[primaries[n]]
  {
    assert NotAmong(primaries[n], primaries, n);
  }

  lemma OthersNext(zones: map<string, seq<Key>>, before: map<string, seq<Key>>, primaries: seq<string>, n: nat,
                   keys: seq<Key>)
    requires n < |primaries| && primaries[n] in zones && Others(zones, before, primaries, n) && DistinctNames(primaries)
    ensures Others(zones, before[primaries[n] := keys], primaries, n + 1)
    ensures forall i | 0 <= i < n && primaries[i] in zones ::
              before[primaries[n] := keys][primaries[i]] == before[primaries[i]]
  {
    forall z | z in zones && NotAmong(z, primaries, n + 1)
      ensures before[primaries[n] := keys][z] == zones[z]
    {
      assert primaries[n] != z && NotAmong(z, primaries, n);
    }
  }

  lemma AdvanceNext(zones: map<string, seq<Key>>, before: map<string, seq<Key>>, after: map<string, seq<Key>>,
                    primaries: seq<string>, n: nat, cfg: Config, now: nat, firstId: nat)
    requires n < |primaries| && Advanced(zones, before, primaries, n, cfg, now, firstId) && DistinctNames(primaries)
    requires primaries[n] in zones && after == before[primaries[n] := ZonePass(zones[primaries[n]], cfg, now, firstId + n)]
    ensures Advanced(zones, after, primaries, n + 1, cfg, now, firstId)
  {
    OthersNext(zones, before, primaries, n, after[primaries[n]]);
  }

  lemma AdvancedAll(zones: map<string, seq<Key>>, after: map<string, seq<Key>>, primaries: seq<string>,
                    cfg: Config, now: nat, firstId: nat)
    requires Advanced(zones, after, primaries, |primaries|, cfg, now, firstId)
    ensures forall z | z in zones && z !in primaries :: after[z] == zones[z]
  {
    forall z | z in zones && z !in primaries
      ensures after[z] == zones[z]
    {
      assert NotAmong(z, primaries, |primaries|);
    }
  }

  lemma EventsChange(zones: map<string, seq<Key>>, after: map<string, seq<Key>>, primaries: seq<string>,
                     cfg: Config, now: nat, firstId: nat)
    requires Advanced(zones, after, primaries, |primaries|, cfg, now, firstId)
    ensures TotalEvents(zones, primaries, |primaries|, cfg, now) > 0 <==>
              exists i :: 0 <= i < |primaries| && after[primaries[i]] != zones[primaries[i]]
  {
    TotalPositive(zones, primaries, |primaries|, cfg, now);
    forall i | 0 <= i < |primaries|
      ensures Events(zones[primaries[i]], cfg, now) > 0 <==> after[primaries[i]] != zones[primaries[i]]
    {
      PassChanges(zones[primaries[i]], cfg, now, firstId + i);
    }
  }

  lemma {:induction false} TotalPositive(zones: map<string, seq<Key>>, primaries: seq<string>, n: nat, cfg: Config, now: nat)
    requires n <= |primaries| && AllStored(zones, primaries)
    ensures TotalEvents(zones, primaries, n, cfg, now) > 0 <==>
              exists i :: 0 <= i < n && Events(zones[primaries[i]], cfg, now) > 0
    decreases n
  {
    if n > 0 {
      TotalPositive(zones, primaries, n - 1, cfg, now);
    }
  }

  /** The key events of the first `n` primary zones. */
  function TotalEvents(zones: map<string, seq<Key>>, primaries: seq<string>, n: nat, cfg: Config, now: nat): nat
    requires n <= |primaries| && AllStored(zones, primaries)
  {
    if n == 0 then 0
    else TotalEvents(zones, primaries, n - 1, cfg, now) + Events(zones[primaries[n - 1]], cfg, now)
  }

  lemma {:induction false} SurvivorIds(rest: seq<Key>, keys: seq<Key>, cfg: Config, now: nat)
    requires DistinctIds(rest)
    ensures DistinctIds(Survivors(rest, keys, cfg, now))
    ensures forall k | k in Survivors(rest, keys, cfg, now) :: exists j :: 0 <= j < |rest| && rest[j].id == k.id
    decreases |rest|
  {
    if rest != [] {
      SurvivorIds(rest[1..], keys, cfg, now);
      var tail := Survivors(rest[1..], keys, cfg, now);
      forall k | k in tail
        ensures k.id != rest[0].id
        ensures exists j :: 0 <= j < |rest| && rest[j].id == k.id
      {
        var j :| 0 <= j < |rest[1..]| && rest[1..][j].id == k.id;
        assert rest[j + 1].id == k.id;
      }
      forall k | k in Survivors(rest, keys, cfg, now)
        ensures exists j :: 0 <= j < |rest| && rest[j].id == k.id
      {
        if k !in tail {
          assert rest[0].id == k.id;
        }
      }
    }
  }

  lemma PassKeepsIds(keys: seq<Key>, cfg: Config, now: nat, newId: nat)
    requires DistinctIds(keys) && IdsBelow(keys, newId)
    ensures DistinctIds(ZonePass(keys, cfg, now, newId)) && IdsBelow(ZonePass(keys, cfg, now, newId), newId + 1)
  {
    SurvivorIds(keys, keys, cfg, now);
    var kept := Survivors(keys, keys, cfg, now);
    forall k | k in kept
      ensures k.id < newId
    {
      var j :| 0 <= j < |keys| && keys[j].id == k.id;
      assert keys[j] in keys;
    }
  }

  lemma {:induction false} NewestSurvives(rest: seq<Key>, keys: seq<Key>, cfg: Config, now: nat, k: Key)
    requires k in rest && k.state.Active? && CreatedAt(k, now) == Newest(keys, now)
    ensures k in Survivors(rest, keys, cfg, now)
    decreases |rest|
  {
    if rest[0] != k {
      NewestSurvives(rest[1..], keys, cfg, now, k);
    }
  }

  /** Whatever the keys, the newest active key comes out of a pass as it went in. */
  lemma PassKeepsAnActiveKey(keys: seq<Key>, cfg: Config, now: nat, newId: nat)
    requires HasActive(keys)
    ensures exists k :: k in keys && k in ZonePass(keys, cfg, now, newId) && k.state.Active?
                     && CreatedAt(k, now) == Newest(keys, now)
  {
    NewestIs(keys, now);
    var k :| k in keys && k.state.Active? && CreatedAt(k, now) == Newest(keys, now);
    NewestSurvives(keys, keys, cfg, now, k);
  }
}
