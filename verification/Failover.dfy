/**
 Health-checked failover (`failover` in the authoritative catalog): which
 address records are served, given the records whose check is failing.
 */
module Failover {
  import opened Text

  datatype Record = Record(id: string, name: string, rtype: string, priority: nat, disabled: bool)
  type Key = (string, string)

  function KeyOf(r: Record): Key {
    (Lower(r.name), r.rtype)
  }

  /** Enabled address records are what failover chooses among. */
  predicate Choosable(r: Record) {
    r.rtype in {"A", "AAAA"} && !r.disabled
  }

  /** `r` is an enabled address record of the RRset `k`. */
  predicate Member(records: seq<Record>, k: Key, r: Record) {
    r in records && Choosable(r) && KeyOf(r) == k
  }

  /** The RRset has a checked record, and one that is not failing. */
  predicate FailsOver(records: seq<Record>, checked: set<string>, unhealthy: set<string>, k: Key) {
    && (exists r :: r in records && Member(records, k, r) && r.id in checked)
    && (exists r :: r in records && Member(records, k, r) && r.id !in unhealthy)
  }

  /** `r` is healthy, and no healthy record of its RRset has a lower priority. */
  predicate IsBest(records: seq<Record>, unhealthy: set<string>, r: Record) {
    && r.id !in unhealthy
    && forall q | q in records && Member(records, KeyOf(r), q) && q.id !in unhealthy :: r.priority <= q.priority
  }

  /** What is served: the healthy records of lowest priority, or the whole RRset if none is healthy. */
  predicate Served(records: seq<Record>, checked: set<string>, unhealthy: set<string>, r: Record) {
    FailsOver(records, checked, unhealthy, KeyOf(r)) && !r.disabled ==> IsBest(records, unhealthy, r)
  }

  /** The records of `rest`, in order, that are served out of `records`. */
  function Select(rest: seq<Record>, records: seq<Record>, checked: set<string>, unhealthy: set<string>): (r: seq<Record>)
    ensures forall x :: x in r <==> x in rest && Served(records, checked, unhealthy, x)
  {
    if rest == [] then []
    else
      Select(rest[..|rest| - 1], records, checked, unhealthy)
      + if Served(records, checked, unhealthy, rest[|rest| - 1]) then [rest[|rest| - 1]] else []
  }

  predicate DistinctIds(records: seq<Record>) {
    forall i, j | 0 <= i < j < |records| :: records[i].id != records[j].id
  }

  // ---- The three passes of the code ------------------------------------------------

  /** `groups` holds exactly the choosable records of `records`, by RRset. */
  ghost predicate Groups(records: seq<Record>, groups: map<Key, seq<Record>>) {
    && (forall k, r | k in groups && r in groups[k] :: Member(records, k, r))
    && (forall r | r in records && Choosable(r) :: KeyOf(r) in groups && r in groups[KeyOf(r)])
    && (forall k | k in groups :: groups[k] != [])
  }

  method GroupRecords(records: seq<Record>) returns (groups: map<Key, seq<Record>>)
    ensures Groups(records, groups)
  {
    groups := map[];
    for n := 0 to |records|
      invariant Groups(records[..n], groups)
    {
      var r := records[n];
      assert records[..n + 1] == records[..n] + [r];
      if Choosable(r) {
        var k := KeyOf(r);
        groups := groups[k := (if k in groups then groups[k] else []) + [r]];
      }
    }
    assert records[..|records|] == records;
  }

  /** The lowest priority of a healthy record of `group`, if any is healthy. */
  method LowestHealthy(group: seq<Record>, unhealthy: set<string>) returns (found: bool, best: nat)
    ensures found <==> exists r :: r in group && r.id !in unhealthy
    ensures found ==> (exists r :: r in group && r.id !in unhealthy && r.priority == best)
    ensures found ==> forall r | r in group && r.id !in unhealthy :: best <= r.priority
  {
    found, best := false, 0;
    for n := 0 to |group|
      invariant found <==> exists r :: r in group[..n] && r.id !in unhealthy
      invariant found ==> (exists r :: r in group[..n] && r.id !in unhealthy && r.priority == best)
      invariant found ==> forall r | r in group[..n] && r.id !in unhealthy :: best <= r.priority
    {
      assert group[..n + 1] == group[..n] + [group[n]];
      if group[n].id !in unhealthy && (!found || group[n].priority < best) {
        found, best := true, group[n].priority;
      }
    }
    assert group[..|group|] == group;
  }

  /** The ids of the best records of the RRsets in `done`. */
  function BestIds(records: seq<Record>, unhealthy: set<string>, done: set<Key>): set<string> {
    set r | r in records && Choosable(r) && KeyOf(r) in done && IsBest(records, unhealthy, r) :: r.id
  }

  method ChooseIds(records: seq<Record>, groups: map<Key, seq<Record>>, checked: set<string>, unhealthy: set<string>)
    returns (filtered: set<Key>, keep: set<string>)
    requires Groups(records, groups)
    ensures forall k :: k in filtered <==> FailsOver(records, checked, unhealthy, k)
    ensures keep == BestIds(records, unhealthy, filtered)
  {
    filtered, keep := {}, {};
    var todo := groups.Keys;
    while todo != {}
      invariant todo <= groups.Keys
      invariant forall k :: k in filtered <==> k in groups && k !in todo && FailsOver(records, checked, unhealthy, k)
      invariant keep == BestIds(records, unhealthy, filtered)
      decreases |todo|
    {
      var k :| k in todo;
      var group := groups[k];
      assert forall r :: r in group <==> Member(records, k, r);
      if exists r :: r in group && r.id in checked {
        var found, best := LowestHealthy(group, unhealthy);
        if found {
          ghost var was := filtered;
          filtered := filtered + {k};
          var more := set r | r in group && r.id !in unhealthy && r.priority == best :: r.id;
          BestOf(records, group, unhealthy, k, best);
          assert BestIds(records, unhealthy, filtered) == BestIds(records, unhealthy, was) + more;
          keep := keep + more;
        }
      }
      todo := todo - {k};
    }
    forall k | FailsOver(records, checked, unhealthy, k)
      ensures k in groups
    {
      var r :| r in records && Member(records, k, r);
    }
  }

  lemma BestOf(records: seq<Record>, group: seq<Record>, unhealthy: set<string>, k: Key, best: nat)
    requires forall r :: r in group <==> Member(records, k, r)
    requires exists r :: r in group && r.id !in unhealthy && r.priority == best
    requires forall r | r in group && r.id !in unhealthy :: best <= r.priority
    ensures (set r | r in group && r.id !in unhealthy && r.priority == best :: r.id)
         == BestIds(records, unhealthy, {k})
  {
    forall r | r in records && Choosable(r) && KeyOf(r) == k
      ensures IsBest(records, unhealthy, r) <==> r.id !in unhealthy && r.priority == best
    {
      assert r in group;
    }
  }

  method Apply(records: seq<Record>, checked: set<string>, unhealthy: set<string>) returns (served: seq<Record>)
    requires DistinctIds(records)
    ensures served == Select(records, records, checked, unhealthy)
  {
    if checked == {} {
      NothingChecked(records, unhealthy);
      return records;
    }
    var groups := GroupRecords(records);
    var filtered, keep := ChooseIds(records, groups, checked, unhealthy);
    served := [];
    for n := 0 to |records|
      invariant served == Select(records[..n], records, checked, unhealthy)
    {
      var r := records[n];
      assert records[..n + 1][..n] == records[..n] && r in records;
      KeepMeansBest(records, checked, unhealthy, filtered, r);
      if KeyOf(r) !in filtered || r.disabled || r.id in keep {
        served := served + [r];
      }
    }
    assert records[..|records|] == records;
  }

  lemma KeepMeansBest(records: seq<Record>, checked: set<string>, unhealthy: set<string>, filtered: set<Key>, r: Record)
    requires DistinctIds(records) && r in records
    requires forall k :: k in filtered <==> FailsOver(records, checked, unhealthy, k)
    ensures (KeyOf(r) !in filtered || r.disabled || r.id in BestIds(records, unhealthy, filtered))
        <==> Served(records, checked, unhealthy, r)
  {
    if KeyOf(r) in filtered && !r.disabled {
      var q :| q in records && Member(records, KeyOf(r), q);
      assert Choosable(r);
      if r.id in BestIds(records, unhealthy, filtered) {
        var p :| p in records && IsBest(records, unhealthy, p) && p.id == r.id;
        assert p == r;
      }
    }
  }

  lemma NoneFailsOver(records: seq<Record>, unhealthy: set<string>, r: Record)
    ensures Served(records, {}, unhealthy, r)
  {
    assert !FailsOver(records, {}, unhealthy, KeyOf(r));
  }

  lemma NothingChecked(records: seq<Record>, unhealthy: set<string>)
    ensures Select(records, records, {}, unhealthy) == records
  {
    forall r | r in records
      ensures Served(records, {}, unhealthy, r)
    {
      NoneFailsOver(records, unhealthy, r);
    }
    SelectAll(records, records, {}, unhealthy);
  }

  // ---- What it promises ---------------------------------------------------------------

  /** An RRset with an enabled address record is never served empty. */
  lemma NeverEmpties(records: seq<Record>, checked: set<string>, unhealthy: set<string>, r: Record)
    requires r in records && Choosable(r)
    ensures exists q :: Member(Select(records, records, checked, unhealthy), KeyOf(r), q)
  {
    var k, served := KeyOf(r), Select(records, records, checked, unhealthy);
    if FailsOver(records, checked, unhealthy, k) {
      var q := SomeBest(records, records, unhealthy, k);
      assert Member(served, k, q);
    } else {
      assert Member(served, k, r);
    }
  }

  lemma {:induction false} SomeBest(rest: seq<Record>, records: seq<Record>, unhealthy: set<string>, k: Key)
    returns (best: Record)
    requires forall r | r in rest :: r in records
    requires exists r :: r in rest && Member(records, k, r) && r.id !in unhealthy
    ensures best in rest && Member(records, k, best) && best.id !in unhealthy
    ensures forall q | q in rest && Member(records, k, q) && q.id !in unhealthy :: best.priority <= q.priority
    decreases |rest|
  {
    var first, tail := rest[0], rest[1..];
    assert forall q :: q in rest <==> q == first || q in tail;
    var usable := Member(records, k, first) && first.id !in unhealthy;
    if exists r :: r in tail && Member(records, k, r) && r.id !in unhealthy {
      best := SomeBest(tail, records, unhealthy, k);
      if usable && first.priority < best.priority {
        best := first;
      }
    } else {
      best := first;
    }
  }

  /** When no record of an RRset is healthy, or none is checked, it is served whole. */
  lemma ServedWhole(records: seq<Record>, checked: set<string>, unhealthy: set<string>, r: Record)
    requires r in records
    requires || !Choosable(r)
             || (forall q | Member(records, KeyOf(r), q) :: q.id in unhealthy)
             || (forall q | Member(records, KeyOf(r), q) :: q.id !in checked)
    ensures r in Select(records, records, checked, unhealthy)
  {
    if FailsOver(records, checked, unhealthy, KeyOf(r)) && !r.disabled {
      assert false;
    }
  }

  /** An enabled record of the RRset of `r`: same name ignoring case, same type. */
  predicate SameSet(r: Record, q: Record) {
    !q.disabled && Lower(q.name) == Lower(r.name) && q.rtype == r.rtype
  }

  /**
   What is served, told on the records alone: a disabled record or one of another type
   than A and AAAA as it is; an address record if no record of its RRset is checked, or all
   of them are failing, or it is not failing itself and none that is not failing has a
   lower priority.
   */
  lemma ServedExactly(records: seq<Record>, checked: set<string>, unhealthy: set<string>, r: Record)
    ensures r in Select(records, records, checked, unhealthy) <==>
      && r in records
      && (|| r.disabled || (r.rtype != "A" && r.rtype != "AAAA")
          || (forall q | q in records && SameSet(r, q) :: q.id !in checked)
          || (forall q | q in records && SameSet(r, q) :: q.id in unhealthy)
          || (r.id !in unhealthy
              && forall q | q in records && SameSet(r, q) && q.id !in unhealthy :: r.priority <= q.priority))
  {
    if r.rtype == "A" || r.rtype == "AAAA" {
      assert forall q :: Member(records, KeyOf(r), q) <==> q in records && SameSet(r, q);
    } else {
      assert forall q :: !Member(records, KeyOf(r), q);
    }
  }

  lemma {:induction false} SelectAll(rest: seq<Record>, records: seq<Record>, checked: set<string>, unhealthy: set<string>)
    requires forall r | r in rest :: Served(records, checked, unhealthy, r)
    ensures Select(rest, records, checked, unhealthy) == rest
    decreases |rest|
  {
    if rest != [] {
      var head, last := rest[..|rest| - 1], rest[|rest| - 1];
      assert rest == head + [last] && last in rest;
      SelectAll(head, records, checked, unhealthy);
    }
  }

  /** Serving twice is serving once. */
  lemma Idempotent(records: seq<Record>, checked: set<string>, unhealthy: set<string>)
    ensures var served := Select(records, records, checked, unhealthy);
            Select(served, served, checked, unhealthy) == served
  {
    var served := Select(records, records, checked, unhealthy);
    forall r | r in served
      ensures Served(served, checked, unhealthy, r)
    {
      assert forall k, q :: Member(served, k, q) ==> Member(records, k, q);
      if FailsOver(served, checked, unhealthy, KeyOf(r)) && !r.disabled {
        assert FailsOver(records, checked, unhealthy, KeyOf(r));
      }
    }
    SelectAll(served, served, checked, unhealthy);
  }
}
