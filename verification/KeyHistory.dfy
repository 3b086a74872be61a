/**
 A signed zone over time: rollover passes with arbitrary gaps, catalog reloads
 that sign the zone with its active keys, and answers that hand the served
 signatures out. The guarantees are about what validators can still check, the
 discipline of section 4.1.1 of RFC 6781.
 */
module KeyHistory {
  import opened Addresses
  import opened KeyRollover

  /** A signature by `key`, made or handed out at `at`. */
  datatype Sig = Sig(key: nat, at: nat)

  /**
   `signers` and `published` are what the served catalog was built with (the
   keys whose RRSIGs and whose DNSKEYs it holds); `since` says from when on
   each DNSKEY has been served without a break. `made` and `handed` are the
   history of signatures created by reloads and given to resolvers.
   */
  datatype State = State(
    keys: seq<Key>, nextId: nat, now: nat,
    signers: set<nat>, published: set<nat>, since: map<nat, nat>,
    made: set<Sig>, handed: set<Sig>)

  /** `Pass(false)`: the pass ended before its reload (an error on the way). */
  datatype Step = Tick(now: nat) | Reload | Pass(reloaded: bool) | Answer

  function Ids(keys: seq<Key>): set<nat> {
    set k | k in keys :: k.id
  }

  function ActiveIds(keys: seq<Key>): set<nat> {
    set k | k in keys && k.state.Active? :: k.id
  }

  function Reloaded(s: State): State {
    s.(signers := ActiveIds(s.keys),
       published := Ids(s.keys),
       since := map id | id in Ids(s.keys) :: if id in s.since then s.since[id] else s.now,
       made := s.made + set id | id in ActiveIds(s.keys) :: Sig(id, s.now))
  }

  function Passed(s: State, cfg: Config): State {
    s.(keys := ZonePass(s.keys, cfg, s.now, s.nextId), nextId := s.nextId + 1)
  }

  ghost predicate Next(cfg: Config, s: State, step: Step, s': State) {
    match step
    case Tick(now) => s.now <= now && s' == s.(now := now)
    case Reload => s' == Reloaded(s)
    case Pass(reloaded) =>
      s' == if reloaded && Events(s.keys, cfg, s.now) > 0 then Reloaded(Passed(s, cfg)) else Passed(s, cfg)
    case Answer => s' == s.(handed := s.handed + set id | id in s.signers :: Sig(id, s.now))
  }

  /** One active key, served. */
  ghost predicate Init(s: State) {
    && |s.keys| == 1 && s.keys[0].state.Active? && s.keys[0].id < s.nextId
    && s.keys[0].created.Some? && s.keys[0].created.value <= s.now
    && s.signers == s.published == {s.keys[0].id}
    && s.since == map[s.keys[0].id := s.now]
    && s.made == s.handed == {}
  }

  ghost predicate IsRun(cfg: Config, run: seq<State>, steps: seq<Step>) {
    && |run| == |steps| + 1
    && Init(run[0])
    && forall i | 0 <= i < |steps| :: Next(cfg, run[i], steps[i], run[i + 1])
  }

  /** No pass ended before its reload. */
  predicate AllReloaded(steps: seq<Step>) {
    forall i | 0 <= i < |steps| :: steps[i] != Pass(false)
  }

  // ---- The states a zone can be in --------------------------------------------

  predicate Born(k: Key, now: nat) {
    k.created.Some? && k.created.value <= now
  }

  predicate OneActive(keys: seq<Key>, now: nat) {
    |keys| == 1 && keys[0].state.Active? && Born(keys[0], now)
  }

  predicate TwoActive(keys: seq<Key>, now: nat) {
    && |keys| == 2 && keys[0].state.Active? && keys[1].state.Active?
    && Born(keys[0], now) && Born(keys[1], now) && keys[0].created.value < keys[1].created.value
  }

  predicate ActiveAndRetired(keys: seq<Key>, now: nat) {
    && |keys| == 2 && keys[1].state.Active? && Born(keys[1], now)
    && keys[0].state.Retired? && keys[0].state.at.Some? && keys[0].state.at.value <= now
  }

  predicate Shape(keys: seq<Key>, now: nat) {
    OneActive(keys, now) || TwoActive(keys, now) || ActiveAndRetired(keys, now)
  }

  /** From each state, what a pass does: at most one event. */
  lemma PassFromOne(keys: seq<Key>, cfg: Config, now: nat, newId: nat)
    requires OneActive(keys, now)
    ensures Starts(keys, cfg, now) <==>
              cfg.rolloverAfter != 0 && keys[0].created.value + cfg.rolloverAfter * NANOS <= now
    ensures ZonePass(keys, cfg, now, newId) ==
              keys + if Starts(keys, cfg, now) then [Key(newId, Some(now), Active)] else []
    ensures Events(keys, cfg, now) == if Starts(keys, cfg, now) then 1 else 0
  {
    var k := keys[0];
    assert keys == [k] && k in keys && keys[1..] == [];
    assert CountActive(keys[1..]) == 0 && Changes(keys[1..], keys, cfg, now) == 0;
    assert Newest(keys, now) == k.created.value;
    AgeReached(k.created.value, now, cfg.rolloverAfter);
    assert Survivors(keys[1..], keys, cfg, now) == [];
  }

  lemma PassFromTwo(keys: seq<Key>, cfg: Config, now: nat, newId: nat)
    requires TwoActive(keys, now)
    ensures var retire := keys[1].created.value + cfg.overlap * NANOS <= now;
            && ZonePass(keys, cfg, now, newId) ==
                 (if retire then [keys[0].(state := Retired(Some(now))), keys[1]] else keys)
            && Events(keys, cfg, now) == if retire then 1 else 0
  {
    var a, b := keys[0], keys[1];
    assert keys == [a, b] && a in keys && b in keys;
    assert keys[1..] == [b] && [b][1..] == [];
    assert Newest([b], now) == b.created.value && Newest(keys, now) == b.created.value;
    AgeReached(b.created.value, now, cfg.overlap);
    assert Survivors([b], keys, cfg, now) == [b];
    assert CountActive(keys) == 1 + CountActive([b]);
    assert Changes([b], keys, cfg, now) == 0;
  }

  lemma PassFromRetired(keys: seq<Key>, cfg: Config, now: nat, newId: nat)
    requires ActiveAndRetired(keys, now)
    ensures var delete := keys[0].state.at.value + cfg.retire * NANOS <= now;
            && ZonePass(keys, cfg, now, newId) == (if delete then [keys[1]] else keys)
            && Events(keys, cfg, now) == if delete then 1 else 0
  {
    var r, b := keys[0], keys[1];
    assert keys == [r, b] && r in keys && b in keys;
    assert keys[1..] == [b] && [b][1..] == [];
    assert Newest([b], now) == b.created.value && Newest(keys, now) == b.created.value;
    AgeReached(r.state.at.value, now, cfg.retire);
    assert Survivors([b], keys, cfg, now) == [b];
    assert Changes([b], keys, cfg, now) == 0;
  }

  /** Every pass keeps the zone in one of the three states and causes at most one event. */
  lemma PassKeepsShape(keys: seq<Key>, cfg: Config, now: nat, newId: nat)
    requires Shape(keys, now)
    ensures Shape(ZonePass(keys, cfg, now, newId), now)
    ensures Events(keys, cfg, now) <= 1
    ensures Events(keys, cfg, now) == 0 ==> ZonePass(keys, cfg, now, newId) == keys
  {
    if OneActive(keys, now) {
      PassFromOne(keys, cfg, now, newId);
    } else if TwoActive(keys, now) {
      PassFromTwo(keys, cfg, now, newId);
    } else {
      PassFromRetired(keys, cfg, now, newId);
    }
  }

  // ---- The invariants ----------------------------------------------------------

  /** The key that made `g` is still there, signing or retired no earlier than `g`. */
  predicate KeyKept(keys: seq<Key>, g: Sig) {
    exists k :: k in keys && k.id == g.key && (k.state.Active? || (k.state.at.Some? && g.at <= k.state.at.value))
  }

  /** `g` is from the past, and for `retire` after it its DNSKEY is served. */
  predicate Covered(cfg: Config, s: State, g: Sig) {
    && g.at <= s.now
    && (s.now < g.at + cfg.retire * NANOS ==> g.key in s.published && KeyKept(s.keys, g))
  }

  ghost predicate Inv(cfg: Config, s: State) {
    && Shape(s.keys, s.now) && DistinctIds(s.keys) && IdsBelow(s.keys, s.nextId)
    && forall g | g in s.made :: Covered(cfg, s, g)
  }

  /** With every pass followed by its reload, the catalog served is the stored keys'. */
  ghost predicate ServedInv(cfg: Config, s: State) {
    && s.signers == ActiveIds(s.keys) && s.published == Ids(s.keys) && s.since.Keys == s.published
    && (|s.keys| == 2 && s.keys[1].created.Some? ==>
          s.keys[1].id in s.since && s.since[s.keys[1].id] <= s.keys[1].created.value)
    && forall g | g in s.handed :: Covered(cfg, s, g)
  }

  lemma ActiveIsKept(keys: seq<Key>, g: Sig)
    requires g.key in ActiveIds(keys)
    ensures KeyKept(keys, g) && g.key in Ids(keys)
  {
    var k :| k in keys && k.state.Active? && k.id == g.key;
  }

  /** A pass lets a key go only once `retire` has passed since anything it signed. */
  lemma PassKeepsKey(keys: seq<Key>, cfg: Config, now: nat, newId: nat, g: Sig)
    requires Shape(keys, now) && g.at <= now < g.at + cfg.retire * NANOS && KeyKept(keys, g)
    ensures KeyKept(ZonePass(keys, cfg, now, newId), g)
  {
    var k :| k in keys && k.id == g.key && (k.state.Active? || (k.state.at.Some? && g.at <= k.state.at.value));
    var after := ZonePass(keys, cfg, now, newId);
    if OneActive(keys, now) {
      PassFromOne(keys, cfg, now, newId);
      assert k in after;
    } else if TwoActive(keys, now) {
      PassFromTwo(keys, cfg, now, newId);
      assert k == keys[0] || k == keys[1];
      assert after[0] in after && after[1] in after;
    } else {
      PassFromRetired(keys, cfg, now, newId);
      assert k == keys[0] || k == keys[1];
      assert k in after;
    }
  }

  lemma CoveredAfterReload(cfg: Config, s: State, g: Sig)
    requires Covered(cfg, s, g)
    ensures Covered(cfg, Reloaded(s), g)
  {
    if s.now < g.at + cfg.retire * NANOS {
      var k :| k in s.keys && k.id == g.key;
      assert g.key in Ids(s.keys);
    }
  }

  lemma CoveredStep(cfg: Config, s: State, step: Step, s': State, g: Sig)
    requires Shape(s.keys, s.now) && Covered(cfg, s, g) && Next(cfg, s, step, s')
    ensures Covered(cfg, s', g)
  {
    match step
    case Tick(_) =>
    case Answer =>
    case Reload => CoveredAfterReload(cfg, s, g);
    case Pass(_) =>
      if s.now < g.at + cfg.retire * NANOS {
        PassKeepsKey(s.keys, cfg, s.now, s.nextId, g);
      }
      CoveredAfterReload(cfg, Passed(s, cfg), g);
  }

  lemma StepKeepsInv(cfg: Config, s: State, step: Step, s': State)
    requires Inv(cfg, s) && Next(cfg, s, step, s')
    ensures Inv(cfg, s')
  {
    PassKeepsShape(s.keys, cfg, s.now, s.nextId);
    PassKeepsIds(s.keys, cfg, s.now, s.nextId);
    forall g | g in s'.made
      ensures Covered(cfg, s', g)
    {
      if g in s.made {
        CoveredStep(cfg, s, step, s', g);
      } else {
        ActiveIsKept(s'.keys, g);
      }
    }
  }

  lemma NewKeyServed(cfg: Config, s: State)
    requires Inv(cfg, s) && ServedInv(cfg, s)
    ensures var p := Passed(s, cfg);
            |p.keys| == 2 && p.keys[1].created.Some? ==>
              var r := Reloaded(p);
              && p.keys[1].id in r.since && r.since[p.keys[1].id] <= p.keys[1].created.value
              && (Events(s.keys, cfg, s.now) == 0 ==> p.keys == s.keys)
  {
    var p := Passed(s, cfg);
    if OneActive(s.keys, s.now) {
      PassFromOne(s.keys, cfg, s.now, s.nextId);
    } else if TwoActive(s.keys, s.now) {
      PassFromTwo(s.keys, cfg, s.now, s.nextId);
    } else {
      PassFromRetired(s.keys, cfg, s.now, s.nextId);
    }
    if |p.keys| == 2 {
      assert p.keys[1] in p.keys;
      assert p.keys[1].id in Ids(p.keys);
      if p.keys[1].id == s.nextId {
        assert s.nextId !in s.since;
      }
    }
  }

  lemma StepKeepsServed(cfg: Config, s: State, step: Step, s': State)
    requires Inv(cfg, s) && ServedInv(cfg, s) && Next(cfg, s, step, s') && step != Pass(false)
    ensures ServedInv(cfg, s')
  {
    PassKeepsShape(s.keys, cfg, s.now, s.nextId);
    if step.Pass? {
      NewKeyServed(cfg, s);
    }
    forall g | g in s'.handed
      ensures Covered(cfg, s', g)
    {
      if g in s.handed {
        CoveredStep(cfg, s, step, s', g);
      } else {
        ActiveIsKept(s.keys, g);
      }
    }
  }

  lemma {:induction false} RunKeepsInv(cfg: Config, run: seq<State>, steps: seq<Step>, n: nat)
    requires IsRun(cfg, run, steps) && n < |run|
    ensures Inv(cfg, run[n])
    decreases n
  {
    if n > 0 {
      RunKeepsInv(cfg, run, steps, n - 1);
      StepKeepsInv(cfg, run[n - 1], steps[n - 1], run[n]);
    }
  }

  lemma {:induction false} RunKeepsServed(cfg: Config, run: seq<State>, steps: seq<Step>, n: nat)
    requires IsRun(cfg, run, steps) && AllReloaded(steps) && n < |run|
    ensures ServedInv(cfg, run[n])
    decreases n
  {
    if n == 0 {
      var s := run[0];
      assert s.keys == [s.keys[0]];
      assert ActiveIds(s.keys) == Ids(s.keys) == {s.keys[0].id};
    } else {
      RunKeepsServed(cfg, run, steps, n - 1);
      RunKeepsInv(cfg, run, steps, n - 1);
      StepKeepsServed(cfg, run[n - 1], steps[n - 1], run[n]);
    }
  }

  // ---- What every run guarantees -------------------------------------------------

  /**
   Every reachable zone has one active key, two, or one active and one
   retired, and each pass causes at most one event.
   */
  lemma ReachableShape(cfg: Config, run: seq<State>, steps: seq<Step>, n: nat)
    requires IsRun(cfg, run, steps) && n < |run|
    ensures Shape(run[n].keys, run[n].now) && CountActive(run[n].keys) in {1, 2}
    ensures Events(run[n].keys, cfg, run[n].now) <= 1
  {
    RunKeepsInv(cfg, run, steps, n);
    var s := run[n];
    PassKeepsShape(s.keys, cfg, s.now, s.nextId);
    if |s.keys| == 1 {
      assert CountActive(s.keys[1..]) == 0;
    } else {
      assert CountActive(s.keys[1..][1..]) == 0;
    }
  }

  /**
   A signature made at any time can be checked against a served DNSKEY for
   `retire` after it, even when passes end without their reload.
   */
  lemma MadeSignaturesVerify(cfg: Config, run: seq<State>, steps: seq<Step>, n: nat, g: Sig)
    requires IsRun(cfg, run, steps) && n < |run| && g in run[n].made
    requires run[n].now < g.at + cfg.retire * NANOS
    ensures g.key in run[n].published
  {
    RunKeepsInv(cfg, run, steps, n);
    assert Covered(cfg, run[n], g);
  }

  /** With every reload done, so can a signature handed to a resolver at any time. */
  lemma HandedSignaturesVerify(cfg: Config, run: seq<State>, steps: seq<Step>, n: nat, g: Sig)
    requires IsRun(cfg, run, steps) && AllReloaded(steps) && n < |run| && g in run[n].handed
    requires run[n].now < g.at + cfg.retire * NANOS
    ensures g.key in run[n].published
  {
    RunKeepsServed(cfg, run, steps, n);
    assert Covered(cfg, run[n], g);
  }

  /** The zone is served from its stored keys: signed by the active ones now, every DNSKEY published. */
  ghost predicate ServedFromStore(s: State, now: nat) {
    && (forall id :: id in s.signers <==> exists k :: k in s.keys && k.state.Active? && k.id == id)
    && (forall id :: id in s.published <==> exists k :: k in s.keys && k.id == id)
    && (forall k | k in s.keys && k.state.Active? :: Sig(k.id, now) in s.made)
  }

  /**
   What the history holds: nothing in it is lost; a reload, on its own or after a pass
   that changed the keys, signs with every active key; an answer hands out the served
   signatures; a pass that ends before its reload changes nothing that is served.
   */
  lemma HistoryIsComplete(cfg: Config, run: seq<State>, steps: seq<Step>, n: nat)
    requires IsRun(cfg, run, steps) && n < |steps|
    ensures run[n].made <= run[n + 1].made && run[n].handed <= run[n + 1].handed
    ensures steps[n] == Reload || (steps[n] == Pass(true) && run[n + 1].keys != run[n].keys) ==>
              ServedFromStore(run[n + 1], run[n].now)
    ensures steps[n] == Answer ==> forall id | id in run[n].signers :: Sig(id, run[n].now) in run[n + 1].handed
    ensures steps[n] == Pass(false) || steps[n].Tick? || steps[n].Answer? ==>
              && run[n + 1].signers == run[n].signers && run[n + 1].published == run[n].published
              && run[n + 1].made == run[n].made
    ensures !steps[n].Pass? ==> run[n + 1].keys == run[n].keys
    ensures !steps[n].Tick? ==> run[n + 1].now == run[n].now
  {
    assert Next(cfg, run[n], steps[n], run[n + 1]);
    PassChanges(run[n].keys, cfg, run[n].now, run[n].nextId);
  }

  /**
   In every run, a key is retired only by a pass that finds another active key, created
   at least `overlap` before, and that key stays as it is.
   */
  lemma RetiredOnlyAfterOverlap(cfg: Config, run: seq<State>, steps: seq<Step>, n: nat, k: Key)
    requires IsRun(cfg, run, steps) && n < |steps|
    requires k in run[n].keys && k.state.Active? && k !in run[n + 1].keys
    ensures steps[n].Pass? && k.(state := Retired(Some(run[n].now))) in run[n + 1].keys
    ensures |run[n].keys| == 2 && k == run[n].keys[0]
    ensures var b := run[n].keys[1];
      && b in run[n + 1].keys && b.id != k.id && b.state.Active?
      && b.created.Some? && b.created.value + cfg.overlap * NANOS <= run[n].now
  {
    var s, after := run[n], run[n + 1].keys;
    RunKeepsInv(cfg, run, steps, n);
    if OneActive(s.keys, s.now) {
      PassFromOne(s.keys, cfg, s.now, s.nextId);
      assert false;
    } else if TwoActive(s.keys, s.now) {
      PassFromTwo(s.keys, cfg, s.now, s.nextId);
      assert after[0] in after && after[1] in after;
    } else {
      PassFromRetired(s.keys, cfg, s.now, s.nextId);
      assert false;
    }
  }

  /**
   When every pass is followed by its reload, a key is retired only while another active
   key signs the served zone and its DNSKEY has been served without a break for at least
   `overlap`.
   */
  lemma RetiredOnlyWithSuccessor(cfg: Config, run: seq<State>, steps: seq<Step>, n: nat, k: Key)
    requires IsRun(cfg, run, steps) && AllReloaded(steps) && n < |steps|
    requires k in run[n].keys && k.state.Active? && k !in run[n + 1].keys
    ensures exists b :: b in run[n].keys && b in run[n + 1].keys && b != k && b.state.Active?
                     && b.id in run[n].signers && b.id in run[n].since
                     && run[n].since[b.id] + cfg.overlap * NANOS <= run[n].now
    ensures k.(state := Retired(Some(run[n].now))) in run[n + 1].keys
  {
    RetiredOnlyAfterOverlap(cfg, run, steps, n, k);
    RunKeepsServed(cfg, run, steps, n);
    var b := run[n].keys[1];
    assert b in run[n].keys && b.id in ActiveIds(run[n].keys);
  }

  /** A key leaves the store only as a retired one, `retire` after its retirement. */
  lemma DeletedOnlyAfterRetirement(cfg: Config, run: seq<State>, steps: seq<Step>, n: nat, k: Key)
    requires IsRun(cfg, run, steps) && n < |steps|
    requires k in run[n].keys && k.id !in Ids(run[n + 1].keys)
    ensures steps[n].Pass? && k.state.Retired? && k.state.at.Some?
         && k.state.at.value + cfg.retire * NANOS <= run[n].now
  {
    var s, after := run[n], run[n + 1].keys;
    RunKeepsInv(cfg, run, steps, n);
    assert k in after ==> k.id in Ids(after);
    if steps[n].Pass? {
      if OneActive(s.keys, s.now) {
        PassFromOne(s.keys, cfg, s.now, s.nextId);
      } else if TwoActive(s.keys, s.now) {
        PassFromTwo(s.keys, cfg, s.now, s.nextId);
        assert false;
      } else {
        PassFromRetired(s.keys, cfg, s.now, s.nextId);
      }
    }
  }

  // ---- Signatures handed out: the exact condition ------------------------------------

  ghost predicate Continues(cfg: Config, s: State, run: seq<State>, steps: seq<Step>) {
    && |run| == |steps| + 1 && run[0] == s
    && forall i | 0 <= i < |steps| :: Next(cfg, run[i], steps[i], run[i + 1])
  }

  /** However `s` goes on, `g`'s DNSKEY is served until `retire` after it. */
  ghost predicate StaysVerifiable(cfg: Config, s: State, g: Sig) {
    forall run: seq<State>, steps: seq<Step> | Continues(cfg, s, run, steps) && run[|steps|].now < g.at + cfg.retire * NANOS ::
      g.key in run[|steps|].published
  }

  lemma {:induction false} CoveredForEver(cfg: Config, s: State, run: seq<State>, steps: seq<Step>, n: nat, g: Sig)
    requires Inv(cfg, s) && Covered(cfg, s, g) && Continues(cfg, s, run, steps) && n < |run|
    ensures Inv(cfg, run[n]) && Covered(cfg, run[n], g)
    decreases n
  {
    if n > 0 {
      CoveredForEver(cfg, s, run, steps, n - 1, g);
      StepKeepsInv(cfg, run[n - 1], steps[n - 1], run[n]);
      CoveredStep(cfg, run[n - 1], steps[n - 1], run[n], g);
    }
  }

  /** A signature by a key the store no longer has signing goes unverifiable too soon. */
  lemma StaleSignerFails(cfg: Config, s: State, g: Sig) returns (run: seq<State>, steps: seq<Step>)
    requires Inv(cfg, s) && cfg.retire > 0 && g.at == s.now && !KeyKept(s.keys, g)
    ensures Continues(cfg, s, run, steps) && run[|steps|].now < g.at + cfg.retire * NANOS
    ensures g.key !in run[|steps|].published
  {
    if g.key !in Ids(s.keys) {
      run, steps := [s, Reloaded(s)], [Reload];
    } else {
      var k :| k in s.keys && k.id == g.key;
      assert k == s.keys[0] && ActiveAndRetired(s.keys, s.now);
      var at := k.state.at.value;
      var later := if s.now >= at + cfg.retire * NANOS then s.now else at + cfg.retire * NANOS;
      var t := s.(now := later);
      PassFromRetired(t.keys, cfg, later, t.nextId);
      run, steps := [s, t, Reloaded(Passed(t, cfg))], [Tick(later), Pass(true)];
      assert s.keys[1].id != g.key;
    }
  }

  /**
   A signature handed out now stays verifiable for `retire`, whatever follows,
   if and only if the key that made it is still signing in the store and its
   DNSKEY is served: what a reload right after every pass provides.
   */
  lemma HandedExactly(cfg: Config, s: State, key: nat)
    requires Inv(cfg, s) && cfg.retire > 0
    ensures StaysVerifiable(cfg, s, Sig(key, s.now)) <==>
              KeyKept(s.keys, Sig(key, s.now)) && key in s.published
  {
    var g := Sig(key, s.now);
    if KeyKept(s.keys, g) && key in s.published {
      forall run: seq<State>, steps: seq<Step> | Continues(cfg, s, run, steps) && run[|steps|].now < g.at + cfg.retire * NANOS
        ensures g.key in run[|steps|].published
      {
        CoveredForEver(cfg, s, run, steps, |steps|, g);
      }
    } else if key !in s.published {
      assert Continues(cfg, s, [s], []);
    } else {
      var run, steps := StaleSignerFails(cfg, s, g);
    }
  }

  /** Thresholds the configuration check lets through with rollover on: each at least a day. */
  predicate Configurable(cfg: Config) {
    cfg.rolloverAfter >= DAY && cfg.overlap >= DAY && cfg.retire >= DAY
  }

  const DAY: nat := 86_400

  /**
   For every such configuration, a run in which two passes end before their reload, and
   the retired key still signs answers that go unverifiable too soon.
   */
  lemma UnreloadedPassLeavesStaleSigner(cfg: Config) returns (run: seq<State>, steps: seq<Step>, g: Sig)
    requires cfg.rolloverAfter >= 86_400 && cfg.overlap >= 86_400 && cfg.retire >= 86_400
    ensures IsRun(cfg, run, steps) && g in run[|steps|].handed && g.at == run[|steps|].now
    ensures !StaysVerifiable(cfg, run[|steps|], g)
  {
    var retired := (cfg.rolloverAfter + cfg.overlap) * NANOS;
    g := Sig(0, retired + 1);
    run, steps := UnreloadedRun(cfg, retired);
    RunKeepsInv(cfg, run, steps, 5);
    assert !KeyKept(run[5].keys, g);
    HandedExactly(cfg, run[5], 0);
  }

  /** The keys once the second pass, at `retired`, has retired the first key. */
  function KeysAfter(cfg: Config, retired: nat): seq<Key> {
    [Key(0, Some(0), Retired(Some(retired))), Key(1, Some(cfg.rolloverAfter * NANOS), Active)]
  }

  /** Two passes without a reload, `overlap` apart, then a tick and an answer. */
  lemma UnreloadedRun(cfg: Config, retired: nat) returns (run: seq<State>, steps: seq<Step>)
    requires Configurable(cfg) && retired == (cfg.rolloverAfter + cfg.overlap) * NANOS
    ensures IsRun(cfg, run, steps) && |steps| == 5
    ensures run[5].now == retired + 1 && Sig(0, retired + 1) in run[5].handed && run[5].keys == KeysAfter(cfg, retired)
  {
    var s0, s1, s2, s3 := UnreloadedPasses(cfg, retired);
    var s4 := s3.(now := retired + 1);
    var s5 := s4.(handed := s4.handed + set id | id in s4.signers :: Sig(id, s4.now));
    run, steps := [s0, s1, s2, s3, s4, s5], [Pass(false), Tick(retired), Pass(false), Tick(retired + 1), Answer];
    assert IsRun(cfg, run, steps);
  }

  lemma UnreloadedPasses(cfg: Config, retired: nat) returns (s0: State, s1: State, s2: State, s3: State)
    requires Configurable(cfg) && retired == (cfg.rolloverAfter + cfg.overlap) * NANOS
    ensures Init(s0) && Next(cfg, s0, Pass(false), s1) && Next(cfg, s1, Tick(retired), s2) && Next(cfg, s2, Pass(false), s3)
    ensures s3.now == retired && s3.signers == {0} && s3.keys == KeysAfter(cfg, retired)
  {
    var started := cfg.rolloverAfter * NANOS;
    var old0, new1 := Key(0, Some(0), Active), Key(1, Some(started), Active);
    s0 := State([old0], 1, started, {0}, {0}, map[0 := started], {}, {});
    s1 := s0.(keys := [old0, new1], nextId := 2);
    PassFromOne(s0.keys, cfg, started, 1);
    s2 := s1.(now := retired);
    s3 := s2.(keys := KeysAfter(cfg, retired), nextId := 3);
    PassFromTwo(s2.keys, cfg, retired, 2);
  }

  // ---- A started rollover ends ---------------------------------------------------------

  /** `states` are the keys before and after passes at the given times. */
  ghost predicate PassTrace(states: seq<seq<Key>>, cfg: Config, times: seq<nat>, newId: nat) {
    && |states| == |times| + 1
    && forall i | 0 <= i < |times| :: states[i + 1] == ZonePass(states[i], cfg, times[i], newId + i)
  }

  predicate NonDecreasing(times: seq<nat>) {
    forall i, j | 0 <= i <= j < |times| :: times[i] <= times[j]
  }

  /** None of the first `m` passes came `overlap` after the new key. */
  ghost predicate Waiting(keys: seq<Key>, cfg: Config, times: seq<nat>, m: nat)
    requires |keys| == 2 && keys[1].created.Some? && m <= |times|
  {
    forall i | 0 <= i < m :: times[i] < keys[1].created.value + cfg.overlap * NANOS
  }

  /** The `j`-th pass retired the old key, and none of the first `m` came `retire` after it. */
  ghost predicate Grace(keys: seq<Key>, cfg: Config, times: seq<nat>, j: nat, m: nat)
    requires |keys| == 2 && keys[1].created.Some? && j < m <= |times|
  {
    Waiting(keys, cfg, times, j) && forall i | j < i < m :: times[i] < times[j] + cfg.retire * NANOS
  }

  function WithRetired(keys: seq<Key>, at: nat): seq<Key>
    requires |keys| == 2
  {
    [keys[0].(state := Retired(Some(at))), keys[1]]
  }

  /** Where the rollover of `keys` stands after `m` passes, if it has not ended yet. */
  ghost predicate UnderWay(keys: seq<Key>, cfg: Config, times: seq<nat>, after: seq<Key>, m: nat)
    requires |keys| == 2 && keys[1].created.Some? && m <= |times|
  {
    || (after == keys && Waiting(keys, cfg, times, m))
    || (exists j :: 0 <= j < m && after == WithRetired(keys, times[j]) && Grace(keys, cfg, times, j, m))
  }

  /** After some of the first `m` passes only the new key is left. */
  ghost predicate Ended(keys: seq<Key>, states: seq<seq<Key>>, m: nat)
    requires |keys| == 2 && m < |states|
  {
    exists e :: 0 <= e <= m && states[e] == [keys[1]]
  }

  lemma {:induction false} Progress(states: seq<seq<Key>>, cfg: Config, times: seq<nat>, newId: nat, m: nat)
    requires PassTrace(states, cfg, times, newId) && NonDecreasing(times)
    requires m <= |times| && times != [] && TwoActive(states[0], times[0])
    ensures UnderWay(states[0], cfg, times, states[m], m) || Ended(states[0], states, m)
    decreases m
  {
    if m > 0 {
      Progress(states, cfg, times, newId, m - 1);
      if UnderWay(states[0], cfg, times, states[m - 1], m - 1) {
        PassAt(states, cfg, times, newId, m - 1);
        ProgressStep(states[0], cfg, times, newId + (m - 1), states[m - 1], m);
        NowEnded(states[0], states, m);
      } else {
        StillEnded(states[0], states, m - 1);
      }
    }
  }

  lemma StillEnded(keys: seq<Key>, states: seq<seq<Key>>, m: nat)
    requires |keys| == 2 && m + 1 < |states| && Ended(keys, states, m)
    ensures Ended(keys, states, m + 1)
  {
  }

  lemma NowEnded(keys: seq<Key>, states: seq<seq<Key>>, m: nat)
    requires |keys| == 2 && m < |states|
    ensures states[m] == [keys[1]] ==> Ended(keys, states, m)
  {
  }

  lemma PassAt(states: seq<seq<Key>>, cfg: Config, times: seq<nat>, newId: nat, n: nat)
    requires PassTrace(states, cfg, times, newId) && n < |times|
    ensures states[n + 1] == ZonePass(states[n], cfg, times[n], newId + n)
  {
  }

  lemma ProgressStep(keys: seq<Key>, cfg: Config, times: seq<nat>, newId: nat, before: seq<Key>, m: nat)
    requires 0 < m <= |times| && NonDecreasing(times) && TwoActive(keys, times[0])
    requires UnderWay(keys, cfg, times, before, m - 1)
    ensures var after := ZonePass(before, cfg, times[m - 1], newId);
            UnderWay(keys, cfg, times, after, m) || after == [keys[1]]
  {
    var now := times[m - 1];
    var after := ZonePass(before, cfg, now, newId);
    assert times[0] <= now;
    if before == keys && Waiting(keys, cfg, times, m - 1) {
      PassFromTwo(keys, cfg, now, newId);
      if after != keys {
        assert after == WithRetired(keys, times[m - 1]) && Grace(keys, cfg, times, m - 1, m);
      }
    } else {
      var j :| 0 <= j < m - 1 && before == WithRetired(keys, times[j]) && Grace(keys, cfg, times, j, m - 1);
      assert times[j] <= now;
      PassFromRetired(before, cfg, now, newId);
      if after == before {
        assert Grace(keys, cfg, times, j, m);
      }
    }
  }

  /**
   A rollover under way ends with the new key alone: one pass `overlap` after
   it was created and a later one `retire` after that are enough, whatever
   passes come in between.
   */
  lemma RolloverCompletes(states: seq<seq<Key>>, cfg: Config, times: seq<nat>, newId: nat, a: nat, b: nat)
    requires PassTrace(states, cfg, times, newId) && NonDecreasing(times)
    requires a < b < |times| && TwoActive(states[0], times[0])
    requires states[0][1].created.value + cfg.overlap * NANOS <= times[a]
    requires times[a] + cfg.retire * NANOS <= times[b]
    ensures Ended(states[0], states, b + 1)
  {
    Progress(states, cfg, times, newId, b + 1);
    if UnderWay(states[0], cfg, times, states[b + 1], b + 1) {
      assert false;
    }
  }
}
