/**
 Weighted answers (`index_records` and `pick_weighted` in the authoritative
 catalog): which records can be picked, and how often each one is.
 */
module WeightedAnswers {
  import opened Text
  import Failover

  type Record = Failover.Record
  type Key = (string, string)
  type Choices = seq<(Record, nat)>

  function Total(choices: Choices): nat {
    if choices == [] then 0 else Total(choices[..|choices| - 1]) + choices[|choices| - 1].1
  }

  /** The points below `Total(choices)` that fall to the `i`-th record. */
  function Points(choices: Choices, i: nat): set<nat>
    requires i < |choices|
  {
    Range(Total(choices[..i]), choices[i].1)
  }

  function Range(from: nat, n: nat): (r: set<nat>)
    ensures forall p: nat :: p in r <==> from <= p < from + n
    ensures |r| == n
  {
    if n == 0 then {} else Range(from, n - 1) + {from + n - 1}
  }

  lemma {:induction false} TotalGrows(choices: Choices, i: nat, j: nat)
    requires i <= j <= |choices|
    ensures Total(choices[..i]) <= Total(choices[..j])
    decreases j
  {
    if i < j {
      TotalGrows(choices, i, j - 1);
      assert choices[..j][..j - 1] == choices[..j - 1];
    }
  }

  /**
   The pick for a random number: none when every weight is zero, otherwise the
   record whose points hold the random point. The loop's final fallback is
   never reached.
   */
  method PickWeighted(choices: Choices, random: nat) returns (picked: int)
    ensures Total(choices) == 0 <==> picked == -1
    ensures Total(choices) > 0 ==> 0 <= picked < |choices| && random % Total(choices) in Points(choices, picked)
  {
    var total := 0;
    for i := 0 to |choices|
      invariant total == Total(choices[..i])
    {
      assert choices[..i + 1][..i] == choices[..i];
      total := total + choices[i].1;
    }
    assert choices[..|choices|] == choices;
    if total == 0 {
      return -1;
    }
    var point := random % total;
    for i := 0 to |choices|
      invariant point == random % total - Total(choices[..i]) >= 0
    {
      assert choices[..i + 1][..i] == choices[..i];
      if point < choices[i].1 {
        return i;
      }
      point := point - choices[i].1;
    }
    assert false;
  }

  /** Each record has as many points as its weight, all of them below the total. */
  lemma PointsMatchWeight(choices: Choices, i: nat)
    requires i < |choices|
    ensures |Points(choices, i)| == choices[i].1
    ensures forall p | p in Points(choices, i) :: p < Total(choices)
  {
    assert choices[..i + 1][..i] == choices[..i] && choices[..|choices|] == choices;
    TotalGrows(choices, i + 1, |choices|);
  }

  lemma PointsDisjoint(choices: Choices, i: nat, j: nat)
    requires i < j < |choices|
    ensures Points(choices, i) !! Points(choices, j)
  {
    assert choices[..i + 1][..i] == choices[..i];
    TotalGrows(choices, i + 1, j);
  }

  /** The points 0..total are dealt out without gap or overlap. */
  lemma PointsArePartition(choices: Choices, point: nat)
    requires point < Total(choices)
    ensures exists i: nat :: i < |choices| && point in Points(choices, i)
                          && forall j: nat | j < |choices| && j != i :: point !in Points(choices, j)
  {
    var i := SomePoint(choices, point);
    forall j: nat | j < |choices| && j != i
      ensures point !in Points(choices, j)
    {
      PointsDisjoint(choices, if i < j then i else j, if i < j then j else i);
    }
  }

  lemma {:induction false} SomePoint(choices: Choices, point: nat) returns (i: nat)
    requires point < Total(choices)
    ensures i < |choices| && point in Points(choices, i)
    decreases |choices|
  {
    var n := |choices| - 1;
    if point < Total(choices[..n]) {
      i := SomePoint(choices[..n], point);
      assert choices[..n][..i] == choices[..i];
    } else {
      i := n;
    }
  }

  // ---- What the index holds --------------------------------------------------------

  function OwnerKey(r: Record): Key {
    (Lower(TrimEnd(r.name, '.')), r.rtype)
  }

  /** Enabled, an address record that can be served, with a positive weight. */
  predicate Weighted(r: Record, weights: map<string, nat>, unreadable: set<string>) {
    && !r.disabled && r.rtype in {"A", "AAAA"}
    && r.id in weights && weights[r.id] > 0 && r.id !in unreadable
  }

  /** The weighted records of one RRset, in stored order. */
  function Candidates(records: seq<Record>, weights: map<string, nat>, unreadable: set<string>, k: Key): (c: Choices)
    ensures forall x | x in c :: x.0 in records && Weighted(x.0, weights, unreadable) && OwnerKey(x.0) == k
                              && x.1 == weights[x.0.id]
    ensures forall r | r in records && Weighted(r, weights, unreadable) && OwnerKey(r) == k :: (r, weights[r.id]) in c
  {
    if records == [] then []
    else
      var n := |records| - 1;
      assert records == records[..n] + [records[n]];
      Candidates(records[..n], weights, unreadable, k)
      + if Weighted(records[n], weights, unreadable) && OwnerKey(records[n]) == k
        then [(records[n], weights[records[n].id])] else []
  }

  /**
   Which records can be picked for a name and type, each with its weight: enabled A and
   AAAA records of that owner, ignoring case and trailing dots, that have a positive
   weight and can be read.
   */
  lemma CandidatesAre(records: seq<Record>, weights: map<string, nat>, unreadable: set<string>, name: string, rtype: string,
                      r: Record, w: nat)
    ensures (r, w) in Candidates(records, weights, unreadable, (name, rtype)) <==>
      && r in records && !r.disabled && (r.rtype == "A" || r.rtype == "AAAA")
      && r.rtype == rtype && Lower(TrimEnd(r.name, '.')) == name
      && r.id !in unreadable && r.id in weights && weights[r.id] == w && w >= 1
  {
    var c := Candidates(records, weights, unreadable, (name, rtype));
    if (r, w) in c {
      assert (r, w).0 == r;
    }
  }

  /** They are in stored order: a record stored last comes last. */
  lemma OneMoreCandidate(records: seq<Record>, r: Record, weights: map<string, nat>, unreadable: set<string>, k: Key)
    ensures Candidates(records + [r], weights, unreadable, k) == Candidates(records, weights, unreadable, k)
      + if Weighted(r, weights, unreadable) && OwnerKey(r) == k then [(r, weights[r.id])] else []
  {
    assert (records + [r])[..|records|] == records;
  }

  function Lookup(index: map<Key, Choices>, k: Key): Choices {
    if k in index then index[k] else []
  }

  ghost predicate Indexes(index: map<Key, Choices>, records: seq<Record>, weights: map<string, nat>, unreadable: set<string>) {
    forall k :: Lookup(index, k) == Candidates(records, weights, unreadable, k)
  }

  /** One zone's part of the index; `weights` are not used when the zone is served signed. */
  method IndexRecords(records: seq<Record>, weights: map<string, nat>, signed: bool, unreadable: set<string>)
    returns (index: map<Key, Choices>)
    ensures signed ==> index == map[]
    ensures !signed ==> Indexes(index, records, weights, unreadable)
    ensures !signed ==> forall name, rtype, r, w :: (r, w) in Lookup(index, (name, rtype)) <==>
              && r in records && !r.disabled && (r.rtype == "A" || r.rtype == "AAAA")
              && r.rtype == rtype && Lower(TrimEnd(r.name, '.')) == name
              && r.id !in unreadable && r.id in weights && weights[r.id] == w && w >= 1
  {
    index := map[];
    if signed {
      return;
    }
    for n := 0 to |records|
      invariant Indexes(index, records[..n], weights, unreadable)
    {
      var r := records[n];
      ghost var before := index;
      if !r.disabled && r.rtype in {"A", "AAAA"} && r.id in weights && weights[r.id] != 0 && r.id !in unreadable {
        var k := OwnerKey(r);
        index := index[k := Lookup(index, k) + [(r, weights[r.id])]];
      }
      IndexStep(records, n, weights, unreadable, before, index);
    }
    assert records[..|records|] == records;
    forall name, rtype, r, w
      ensures (r, w) in Lookup(index, (name, rtype)) <==> (r, w) in Candidates(records, weights, unreadable, (name, rtype))
    {
      assert Lookup(index, (name, rtype)) == Candidates(records, weights, unreadable, (name, rtype));
    }
    forall name, rtype, r, w {
      CandidatesAre(records, weights, unreadable, name, rtype, r, w);
    }
  }

  lemma IndexStep(records: seq<Record>, n: nat, weights: map<string, nat>, unreadable: set<string>,
                  before: map<Key, Choices>, after: map<Key, Choices>)
    requires n < |records| && Indexes(before, records[..n], weights, unreadable)
    requires var r := records[n];
             after == if Weighted(r, weights, unreadable)
                      then before[OwnerKey(r) := Lookup(before, OwnerKey(r)) + [(r, weights[r.id])]] else before
    ensures Indexes(after, records[..n + 1], weights, unreadable)
  {
    assert records[..n + 1][..n] == records[..n];
    forall k
      ensures Lookup(after, k) == Candidates(records[..n + 1], weights, unreadable, k)
    {
      assert Lookup(before, k) == Candidates(records[..n], weights, unreadable, k);
    }
  }

  /**
   Served together with failover: every candidate of an unsigned zone is an
   enabled record that survived failover, of that RRset, with a weight of at
   least one, so a zone's indexed RRset always yields one of its records.
   */
  lemma CandidatesSurviveFailover(
      stored: seq<Record>, checked: set<string>, unhealthy: set<string>,
      weights: map<string, nat>, unreadable: set<string>, k: Key, i: nat)
    requires var records := Failover.Select(stored, stored, checked, unhealthy);
             i < |Candidates(records, weights, unreadable, k)|
    ensures var records := Failover.Select(stored, stored, checked, unhealthy);
            var c := Candidates(records, weights, unreadable, k);
            && c[i].0 in stored && !c[i].0.disabled && OwnerKey(c[i].0) == k
            && Failover.Served(stored, checked, unhealthy, c[i].0)
            && c[i].1 >= 1 && Total(c) >= 1
  {
    var records := Failover.Select(stored, stored, checked, unhealthy);
    var c := Candidates(records, weights, unreadable, k);
    assert c[i] in c;
    assert c[..|c|] == c && c[..i + 1][..i] == c[..i];
    TotalGrows(c, i + 1, |c|);
  }
}
