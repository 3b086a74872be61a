/**
 The failed-login throttle (`LoginThrottle` in the API crate): failures per
 client address inside a window, in a table that is pruned lazily and never
 grows past a bound. The table is shown to refine the simple picture in which
 a window vanishes at the moment it lapses.
 */
module LoginThrottle {
  import opened Addresses
  import opened Clock

  const MAX_FAILURES: nat := 10
  const MAX_TRACKED: nat := 10_000
  const NANOS: nat := 1_000_000_000
  const WINDOW: nat := 300 * NANOS

  /** `count` failures since the window opened at `since` (clock in nanoseconds). */
  datatype Entry = Entry(count: nat, since: nat)
  type Table = map<IpAddr, Entry>

  predicate Live(e: Entry, now: nat) {
    Elapsed(e.since, now) < WINDOW
  }

  /** The entries that still count at `now`. */
  function Visible(t: Table, now: nat): Table {
    map ip | ip in t && Live(t[ip], now) :: t[ip]
  }

  function LiveCount(t: Table, ip: IpAddr, now: nat): nat {
    if ip in t && Live(t[ip], now) then t[ip].count else 0
  }

  predicate Throttled(t: Table, ip: IpAddr, now: nat) {
    LiveCount(t, ip, now) >= MAX_FAILURES
  }

  predicate IsOldest(t: Table, ip: IpAddr) {
    ip in t && forall q | q in t :: t[ip].since <= t[q].since
  }

  /** The window opened less than five minutes ago (by a clock in nanoseconds). */
  predicate Recent(e: Entry, now: nat) {
    now < e.since + 300_000_000_000
  }

  /** The same, told on the table itself: only the oldest of 10000 recent windows is ever given up. */
  ghost predicate OneMoreFailure(t: Table, ip: IpAddr, now: nat, evicted: Option<IpAddr>, t': Table) {
    && |t'| <= 10_000
    && ip in t'
    && t'[ip] == (if ip in t && Recent(t[ip], now) then Entry(t[ip].count + 1, t[ip].since) else Entry(1, now))
    && (forall q | q in t && q != ip && Recent(t[q], now) && evicted != Some(q) :: q in t' && t'[q] == t[q])
    && (forall q | q in t' && q != ip && Recent(t'[q], now) :: q in t && t[q] == t'[q] && evicted != Some(q))
    && (evicted.Some? ==> evicted.value in t && evicted.value != ip && |t| >= 10_000)
    && (evicted.Some? ==> forall q | q in t && Recent(t[q], now) :: t[evicted.value].since <= t[q].since)
  }

  lemma CountedIs(t: Table, ip: IpAddr, now: nat, evicted: Option<IpAddr>, t': Table)
    requires WithinBounds(t', now) && FailureCounted(Visible(t, now), ip, now, evicted, Visible(t', now))
    ensures OneMoreFailure(t, ip, now, evicted, t')
  {
    var v, v' := Visible(t, now), Visible(t', now);
    assert forall q | q in t :: q in v <==> Recent(t[q], now);
    assert forall q | q in t' :: q in v' <==> Recent(t'[q], now);
    SizeOfVisible(t, now);
  }

  /**
   What a recorded failure means, told on the live windows alone: `ip`'s
   window gains one (opening now if there is none), and the only other change
   is that a full table gives up its oldest window (`evicted`) for a new one.
   */
  ghost predicate FailureCounted(v: Table, ip: IpAddr, now: nat, evicted: Option<IpAddr>, v': Table) {
    && (evicted.Some? <==> ip !in v && |v| >= MAX_TRACKED)
    && (evicted.Some? ==> IsOldest(v, evicted.value))
    && ip in v'
    && v'[ip] == (if ip in v then Entry(v[ip].count + 1, v[ip].since) else Entry(1, now))
    && forall q | q != ip ::
         if evicted == Some(q) then q !in v' else (q in v' <==> q in v) && (q in v ==> v'[q] == v[q])
  }

  /** The throttle's bound, and no window opened after the clock. */
  predicate WithinBounds(t: Table, now: nat) {
    && |t| <= MAX_TRACKED
    && forall ip | ip in t :: t[ip].since <= now && t[ip].count >= 1
  }

  lemma SizeOfVisible(t: Table, now: nat)
    ensures |Visible(t, now)| <= |t|
    ensures |Visible(t, now)| == |t| ==> Visible(t, now) == t
  {
    SubsetSize(Visible(t, now).Keys, t.Keys);
  }

  lemma {:induction false} SubsetSize<T>(a: set<T>, b: set<T>)
    requires a <= b
    ensures |a| <= |b|
    ensures |a| == |b| ==> a == b
  {
    assert b == a + (b - a);
  }

  lemma {:induction false} OldestExists(t: Table) returns (oldest: IpAddr)
    requires |t| >= 1
    ensures IsOldest(t, oldest)
    decreases |t|
  {
    oldest :| oldest in t;
    var rest := t - {oldest};
    if |rest| > 0 {
      assert t.Keys == rest.Keys + {oldest};
      var r := OldestExists(rest);
      if t[r].since < t[oldest].since {
        oldest := r;
      }
      assert forall q | q in t :: q in rest || q in t.Keys - rest.Keys;
    } else {
      assert t.Keys == rest.Keys + {oldest};
    }
  }

  /** `t` with one more failure for `ip`, its window reopened if it lapsed. */
  function Bumped(t: Table, ip: IpAddr, now: nat): Table {
    var e := if ip in t && Live(t[ip], now) then t[ip] else Entry(0, now);
    t[ip := Entry(e.count + 1, e.since)]
  }

  lemma CountedWithRoom(t: Table, ip: IpAddr, now: nat)
    requires WithinBounds(t, now)
    requires ip in t || |t| < MAX_TRACKED
    ensures WithinBounds(Bumped(t, ip, now), now)
    ensures FailureCounted(Visible(t, now), ip, now, None, Visible(Bumped(t, ip, now), now))
  {
    assert Bumped(t, ip, now).Keys == t.Keys + {ip};
    SizeOfVisible(t, now);
  }

  lemma CountedAfterEviction(t: Table, ip: IpAddr, now: nat, oldest: IpAddr)
    requires WithinBounds(t, now) && Visible(t, now) == t
    requires ip !in t && |t| >= MAX_TRACKED && IsOldest(t, oldest)
    ensures WithinBounds(Bumped(t - {oldest}, ip, now), now)
    ensures FailureCounted(t, ip, now, Some(oldest), Visible(Bumped(t - {oldest}, ip, now), now))
  {
    assert t.Keys == (t - {oldest}).Keys + {oldest};
    assert Bumped(t - {oldest}, ip, now).Keys == (t - {oldest}).Keys + {ip};
    forall q | q in t
      ensures Live(t[q], now)
    {
      assert q in Visible(t, now);
    }
  }

  class Throttle {
    var failures: Table

    constructor ()
      ensures failures == map[]
    {
      failures := map[];
    }

    /** Whole seconds until `ip` may try again; none when it is not throttled. */
    method RetryAfter(ip: IpAddr, now: nat) returns (wait: Option<nat>)
      ensures wait.Some? <==> Throttled(failures, ip, now)
      ensures wait.Some? <==> ip in failures && failures[ip].count >= 10 && Recent(failures[ip], now)
      ensures wait.Some? ==>
                && 1 <= wait.value <= 300
                && (wait.value == 1 || wait.value * NANOS <= WINDOW - Elapsed(failures[ip].since, now))
                && WINDOW - Elapsed(failures[ip].since, now) < (wait.value + 1) * NANOS
    {
      if ip !in failures {
        return None;
      }
      var elapsed := Elapsed(failures[ip].since, now);
      if failures[ip].count >= MAX_FAILURES && elapsed < WINDOW {
        var secs := (WINDOW - elapsed) / NANOS;
        return Some(if secs < 1 then 1 else secs);
      }
      return None;
    }

    /** Drop lapsed windows, then the oldest, when a new address finds the table full. */
    method MakeRoom(ip: IpAddr, now: nat) returns (evicted: Option<IpAddr>)
      requires WithinBounds(failures, now)
      modifies this
      ensures WithinBounds(Bumped(failures, ip, now), now)
      ensures FailureCounted(Visible(old(failures), now), ip, now, evicted, Visible(Bumped(failures, ip, now), now))
    {
      evicted := None;
      if |failures| < MAX_TRACKED || ip in failures {
        CountedWithRoom(failures, ip, now);
        return;
      }
      ExpiredIsAbsent(failures, now, now);
      failures := Visible(failures, now);
      if |failures| < MAX_TRACKED {
        CountedWithRoom(failures, ip, now);
      } else {
        ghost var some := OldestExists(failures);
        var oldest :| oldest in failures && forall q | q in failures :: failures[oldest].since <= failures[q].since;
        CountedAfterEviction(failures, ip, now, oldest);
        evicted := Some(oldest);
        failures := failures - {oldest};
      }
    }

    method RecordFailure(ip: IpAddr, now: nat) returns (evicted: Option<IpAddr>)
      requires WithinBounds(failures, now)
      modifies this
      ensures WithinBounds(failures, now)
      ensures FailureCounted(Visible(old(failures), now), ip, now, evicted, Visible(failures, now))
      ensures OneMoreFailure(old(failures), ip, now, evicted, failures)
    {
      evicted := MakeRoom(ip, now);
      var entry := if ip in failures then failures[ip] else Entry(0, now);
      if Elapsed(entry.since, now) >= WINDOW {
        entry := Entry(0, now);
      }
      failures := failures[ip := Entry(entry.count + 1, entry.since)];
      CountedIs(old(failures), ip, now, evicted, failures);
    }

    method Clear(ip: IpAddr)
      modifies this
      ensures failures == old(failures) - {ip}
    {
      failures := failures - {ip};
    }
  }

  /**
   An expired entry behaves exactly like an absent one: dropping the expired
   entries changes neither what is throttled nor what the next failure does,
   now or later.
   */
  lemma ExpiredIsAbsent(t: Table, now: nat, later: nat)
    requires now <= later
    requires WithinBounds(t, now)
    ensures Visible(Visible(t, now), later) == Visible(t, later)
    ensures forall ip :: Throttled(t, ip, later) <==> Throttled(Visible(t, now), ip, later)
    ensures WithinBounds(Visible(t, now), now)
  {
    SizeOfVisible(t, now);
    var v := Visible(t, now);
    forall ip | ip in t && Live(t[ip], later)
      ensures Live(t[ip], now)
    {
    }
    assert Visible(v, later) == Visible(t, later);
  }
}
