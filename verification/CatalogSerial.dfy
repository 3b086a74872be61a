/**
 The serial of the published catalog: it moves exactly when the member list does.
 The list is put in order, printed as a digest and compared with the last one.
 */
module CatalogSerial {
  import opened Addresses
  import opened Text
  import opened MemberStore
  import opened CatalogPublish

  // ---- The order ----------------------------------------------------------------------------------

  predicate Increasing(ms: seq<Member>) {
    forall i, j | 0 <= i < j < |ms| :: Less(ms[i].owner, ms[j].owner)
  }

  predicate DistinctOwners(ms: seq<Member>) {
    forall i, j | 0 <= i < |ms| && 0 <= j < |ms| && ms[i].owner == ms[j].owner :: i == j
  }

  function Inserted(m: Member, ms: seq<Member>): (r: seq<Member>)
    ensures forall x :: x in r <==> x == m || x in ms
  {
    if ms == [] || !Less(ms[0].owner, m.owner) then [m] + ms
    else
      assert ms == [ms[0]] + ms[1..];
      [ms[0]] + Inserted(m, ms[1..])
  }

  function Sorted(ms: seq<Member>): (r: seq<Member>)
    ensures forall x :: x in r <==> x in ms
  {
    if ms == [] then []
    else
      assert ms == [ms[0]] + ms[1..];
      Inserted(ms[0], Sorted(ms[1..]))
  }

  lemma {:induction false} InsertKeepsOrder(m: Member, ms: seq<Member>)
    requires Increasing(ms) && forall x | x in ms :: x.owner != m.owner
    ensures Increasing(Inserted(m, ms))
    decreases |ms|
  {
    if ms == [] {
      return;
    }
    var r := Inserted(m, ms);
    if Less(ms[0].owner, m.owner) {
      InsertKeepsOrder(m, ms[1..]);
      HeadFirst(ms[0], r[1..]);
    } else {
      LessTotal(ms[0].owner, m.owner);
      forall j | 0 <= j < |ms|
        ensures Less(m.owner, ms[j].owner)
      {
        if j > 0 {
          LessThen(m.owner, ms[0].owner, ms[j].owner);
        }
      }
      HeadFirst(m, ms);
    }
  }

  lemma HeadFirst(m: Member, ms: seq<Member>)
    requires Increasing(ms) && forall x | x in ms :: Less(m.owner, x.owner)
    ensures Increasing([m] + ms)
  {
  }

  lemma {:induction false} SortKeepsOrder(ms: seq<Member>)
    requires DistinctOwners(ms)
    ensures Increasing(Sorted(ms))
    decreases |ms|
  {
    if ms != [] {
      SortKeepsOrder(ms[1..]);
      InsertKeepsOrder(ms[0], Sorted(ms[1..]));
    }
  }

  /** There is one way to put a set of members in order. */
  lemma {:induction false} OneOrder(a: seq<Member>, b: seq<Member>)
    requires Increasing(a) && Increasing(b) && forall x :: x in a <==> x in b
    ensures a == b
    decreases |a|
  {
    if b == [] {
      if a != [] {
        HasElement(a);
        assert false;
      }
    } else {
      assert b[0] in a && a[0] in b;
      SameHead(a, b);
      forall x
        ensures x in a[1..] <==> x in b[1..]
      {
        TailElements(a, x);
        TailElements(b, x);
      }
      OneOrder(a[1..], b[1..]);
      assert a == [a[0]] + a[1..] && b == [b[0]] + b[1..];
    }
  }

  lemma HasElement(a: seq<Member>)
    requires a != []
    ensures exists x :: x in a
  {
    assert a[0] in a;
  }

  lemma SameHead(a: seq<Member>, b: seq<Member>)
    requires Increasing(a) && Increasing(b) && a != [] && b != [] && a[0] in b && b[0] in a
    ensures a[0] == b[0]
  {
    var i :| 0 <= i < |b| && b[i] == a[0];
    var j :| 0 <= j < |a| && a[j] == b[0];
    if i > 0 && j > 0 {
      LessThen(a[0].owner, b[0].owner, a[0].owner);
      LessTotal(a[0].owner, a[0].owner);
    }
  }

  lemma TailElements(a: seq<Member>, x: Member)
    requires Increasing(a) && a != []
    ensures x in a[1..] <==> x in a && x != a[0]
  {
    assert a == [a[0]] + a[1..];
    if x in a[1..] {
      var i :| 0 <= i < |a[1..]| && a[1..][i] == x;
      assert Less(a[0].owner, a[i + 1].owner);
      LessTotal(x.owner, x.owner);
    }
  }

  // ---- The digest -------------------------------------------------------------------------------------

  function Entry(m: Member, idna: Idna): string {
    m.owner + "=" + Shown(m.zone, idna)
  }

  function Entries(ms: seq<Member>, idna: Idna): (es: seq<string>)
    ensures |es| == |ms| && forall i | 0 <= i < |ms| :: es[i] == Entry(ms[i], idna)
  {
    seq(|ms|, i requires 0 <= i < |ms| => Entry(ms[i], idna))
  }

  function Digest(ms: seq<Member>, idna: Idna): string {
    Join(Entries(ms, idna), ",")
  }

  /** A member with its zone's labels as they are printed. */
  function Printed(m: Member, idna: Idna): Member {
    Member(m.owner, ShownLabels(m.zone, idna))
  }

  function PrintedAll(ms: seq<Member>, idna: Idna): (ps: seq<Member>)
    ensures |ps| == |ms| && forall i | 0 <= i < |ms| :: ps[i] == Printed(ms[i], idna)
  {
    seq(|ms|, i requires 0 <= i < |ms| => Printed(ms[i], idna))
  }

  /** A member as the publisher makes them: a label of letters and digits, a checked zone name. */
  predicate PlainMember(m: Member) {
    (forall i | 0 <= i < |m.owner| :: IsAlnum(m.owner[i])) && PlainLabels(m.zone)
  }

  predicate AllPlain(ms: seq<Member>) {
    forall i | 0 <= i < |ms| :: PlainMember(ms[i])
  }

  lemma ShownCharsAre(n: Name, idna: Idna)
    requires PlainLabels(n) && Decodes(idna)
    ensures ',' !in Shown(n, idna) && forall p | p in ShownLabels(n, idna) :: '.' !in p
  {
    var parts := ShownLabels(n, idna);
    forall p | p in parts
      ensures '.' !in p && ',' !in p
    {
      var i :| 0 <= i < |parts| && parts[i] == p;
      ShownPlain(n[i], idna);
    }
    if ',' in Join(parts, ".") {
      JoinChars(parts, ".", ',');
      assert false;
    }
  }

  /** Printed names are the same exactly when their printed labels are. */
  lemma ShownSame(a: Name, b: Name, idna: Idna)
    requires PlainLabels(a) && PlainLabels(b) && Decodes(idna)
    ensures Shown(a, idna) == Shown(b, idna) <==> ShownLabels(a, idna) == ShownLabels(b, idna)
  {
    ShownCharsAre(a, idna);
    ShownCharsAre(b, idna);
    JoinedSame(ShownLabels(a, idna), ShownLabels(b, idna));
  }

  lemma JoinedSame(a: seq<string>, b: seq<string>)
    requires a != [] && b != [] && (forall p | p in a :: '.' !in p) && forall p | p in b :: '.' !in p
    ensures Join(a, ".") + "." == Join(b, ".") + "." <==> a == b
  {
    var x, y := Join(a, "."), Join(b, ".");
    assert (x + ".")[..|x|] == x && (y + ".")[..|y|] == y;
    SplitJoin(a, '.');
    SplitJoin(b, '.');
  }

  lemma EntryParts(m: Member, idna: Idna)
    requires PlainMember(m) && Decodes(idna)
    ensures var e := Entry(m, idna);
      && ',' !in e && IndexOf(e, '=') == |m.owner|
      && e[..|m.owner|] == m.owner && e[|m.owner| + 1..] == Shown(m.zone, idna)
  {
    ShownCharsAre(m.zone, idna);
    OwnerFirst(m.owner, Shown(m.zone, idna));
  }

  lemma OwnerFirst(owner: string, text: string)
    requires (forall i | 0 <= i < |owner| :: IsAlnum(owner[i])) && ',' !in text
    ensures var e := owner + "=" + text;
      ',' !in e && IndexOf(e, '=') == |owner| && e[..|owner|] == owner && e[|owner| + 1..] == text
  {
    var e := owner + "=" + text;
    assert !IsAlnum('=') && !IsAlnum(',');
    IndexOfFirst(e, '=', |owner|);
  }

  lemma EntrySame(a: Member, b: Member, idna: Idna)
    requires PlainMember(a) && PlainMember(b) && Decodes(idna)
    ensures Entry(a, idna) == Entry(b, idna) <==> Printed(a, idna) == Printed(b, idna)
  {
    ShownSame(a.zone, b.zone, idna);
    if Entry(a, idna) == Entry(b, idna) {
      EntryParts(a, idna);
      EntryParts(b, idna);
    }
  }

  /** Two member lists have the same digest exactly when they are printed the same. */
  lemma DigestDiffers(a: seq<Member>, b: seq<Member>, idna: Idna)
    requires AllPlain(a) && AllPlain(b) && Decodes(idna)
    ensures Digest(a, idna) == Digest(b, idna) <==> PrintedAll(a, idna) == PrintedAll(b, idna)
  {
    EntriesBack(a, idna);
    EntriesBack(b, idna);
    assert Digest(a, idna) == Digest(b, idna) <==> Entries(a, idna) == Entries(b, idna);
    EntriesSame(a, b, idna);
  }

  lemma EntriesSame(a: seq<Member>, b: seq<Member>, idna: Idna)
    requires AllPlain(a) && AllPlain(b) && Decodes(idna)
    ensures Entries(a, idna) == Entries(b, idna) <==> PrintedAll(a, idna) == PrintedAll(b, idna)
  {
    var e, f, p, q := Entries(a, idna), Entries(b, idna), PrintedAll(a, idna), PrintedAll(b, idna);
    if |a| == |b| {
      forall i | 0 <= i < |a|
        ensures e[i] == f[i] <==> p[i] == q[i]
      {
        EntrySame(a[i], b[i], idna);
      }
      if e == f {
        assert forall i | 0 <= i < |a| :: e[i] == f[i];
      }
      if p == q {
        assert forall i | 0 <= i < |a| :: p[i] == q[i];
      }
    } else {
      assert |e| != |f| && |p| != |q|;
    }
  }

  /** The entries can be read back from the digest. */
  lemma EntriesBack(a: seq<Member>, idna: Idna)
    requires AllPlain(a) && Decodes(idna)
    ensures Entries(a, idna) == if Digest(a, idna) == "" then [] else Split(Digest(a, idna), ',')
  {
    if a != [] {
      var es := Entries(a, idna);
      forall e | e in es
        ensures ',' !in e
      {
        var i :| 0 <= i < |a| && es[i] == e;
        EntryParts(a[i], idna);
      }
      SplitJoin(es, ',');
      FirstEntry(es);
    }
  }

  lemma FirstEntry(es: seq<string>)
    requires es != [] && es[0] != ""
    ensures Join(es, ",") != ""
  {
  }

  /** No two plain labels are printed alike. */
  ghost predicate TellsApart(idna: Idna) {
    forall k, l | PlainLabel(k) && PlainLabel(l) && ShownLabel(k, idna) == ShownLabel(l, idna) :: k == l
  }

  ghost predicate DigestsTellApart(idna: Idna) {
    forall a, b | AllPlain(a) && AllPlain(b) && Digest(a, idna) == Digest(b, idna) :: a == b
  }

  /** Lists that share a digest are the same list, for all lists, if and only if no two labels are printed alike. */
  lemma DigestsExact(idna: Idna)
    requires Decodes(idna)
    ensures DigestsTellApart(idna) <==> TellsApart(idna)
  {
    if TellsApart(idna) {
      forall a, b | AllPlain(a) && AllPlain(b) && Digest(a, idna) == Digest(b, idna)
        ensures a == b
      {
        DigestDiffers(a, b, idna);
        PrintedApart(a, b, idna);
      }
    }
    if DigestsTellApart(idna) {
      forall k, l | PlainLabel(k) && PlainLabel(l) && ShownLabel(k, idna) == ShownLabel(l, idna)
        ensures k == l
      {
        LabelsShare(k, l, idna);
      }
    }
  }

  lemma LabelsShare(k: string, l: string, idna: Idna)
    requires Decodes(idna) && DigestsTellApart(idna)
    requires PlainLabel(k) && PlainLabel(l) && ShownLabel(k, idna) == ShownLabel(l, idna)
    ensures k == l
  {
    var a, b := [Member("a", [k])], [Member("a", [l])];
    assert ShownLabels([k], idna) == ShownLabels([l], idna);
    assert PrintedAll(a, idna) == PrintedAll(b, idna);
    DigestDiffers(a, b, idna);
    assert a[0].zone[0] == b[0].zone[0];
  }

  lemma PrintedApart(a: seq<Member>, b: seq<Member>, idna: Idna)
    requires AllPlain(a) && AllPlain(b) && TellsApart(idna) && PrintedAll(a, idna) == PrintedAll(b, idna)
    ensures a == b
  {
    assert |a| == |PrintedAll(a, idna)| == |b|;
    forall i | 0 <= i < |a|
      ensures a[i] == b[i]
    {
      assert PrintedAll(a, idna)[i] == PrintedAll(b, idna)[i];
      LabelsApart(a[i].zone, b[i].zone, idna);
    }
  }

  lemma LabelsApart(a: Name, b: Name, idna: Idna)
    requires PlainLabels(a) && PlainLabels(b) && TellsApart(idna) && ShownLabels(a, idna) == ShownLabels(b, idna)
    ensures a == b
  {
    assert |a| == |ShownLabels(a, idna)| == |b|;
    forall i | 0 <= i < |a|
      ensures a[i] == b[i]
    {
      assert ShownLabels(a, idna)[i] == ShownLabels(b, idna)[i];
    }
  }

  // ---- The serial ---------------------------------------------------------------------------------------

  const U32 := 0x1_0000_0000

  datatype Row = Row(digest: string, serial: nat)

  /** The row for this digest, and whether it is a new one. */
  function NextRow(current: Option<Row>, digest: string, now: nat): (Row, bool) {
    if current.Some? && current.value.digest == digest then (current.value, false)
    else
      var serial := if current.Some? then (current.value.serial + 1) % U32 else if now < U32 then now else U32 - 1;
      (Row(digest, if serial < 1 then 1 else serial), true)
  }

  class CatalogState {
    var rows: map<string, Row>

    constructor ()
      ensures rows == map[]
    {
      rows := map[];
    }

    method CatalogSerial(name: string, digest: string, now: nat) returns (serial: nat, changed: bool)
      modifies this
      ensures name in rows && serial == rows[name].serial && rows == old(rows)[name := rows[name]]
      ensures (rows[name], changed) == NextRow(if name in old(rows) then Some(old(rows)[name]) else None, digest, now)
      ensures rows[name].digest == digest && (changed ==> 1 <= serial)
      ensures name !in old(rows) ==> changed && (1 <= now <= 4_294_967_295 ==> serial == now)
      ensures name !in old(rows) ==> (now == 0 ==> serial == 1) && (now > 4_294_967_295 ==> serial == 4_294_967_295)
      ensures name in old(rows) ==> (changed <==> old(rows)[name].digest != digest)
      ensures name in old(rows) && !changed ==> serial == old(rows)[name].serial
      ensures name in old(rows) && changed && old(rows)[name].serial < 4_294_967_295 ==> serial == old(rows)[name].serial + 1
      ensures name in old(rows) && changed && old(rows)[name].serial == 4_294_967_295 ==> serial == 1
    {
      var current := if name in rows then Some(rows[name]) else None;
      if current.Some? && current.value.digest == digest {
        assert rows == rows[name := rows[name]];
        return current.value.serial, false;
      }
      serial := if now < U32 then now else U32 - 1;
      if current.Some? {
        serial := (current.value.serial + 1) % U32;
      }
      if serial < 1 {
        serial := 1;
      }
      rows := rows[name := Row(digest, serial)];
      changed := true;
    }
  }

  /** What the publisher lists for these zones, in order. */
  function MemberList(zones: seq<Zone>, catalog: string): seq<Member> {
    Sorted(Gathered(zones, catalog))
  }

  lemma OwnerIsNew(zones: seq<Zone>, catalog: string, n: nat, m: Member)
    requires StoredZones(zones) && n < |zones| && m in Gathered(zones[..n], catalog)
    ensures m.owner != LabelOf(zones[n].id)
  {
    GatheredExactly(zones[..n], catalog, m);
    var z :| z in zones[..n] && Publishes(z, catalog) && MemberFor(z) == m;
    var k :| 0 <= k < n && zones[k] == z;
    assert Stored(zones[k]) && Stored(zones[n]);
    if LabelOf(z.id) == LabelOf(zones[n].id) {
      LabelsDiffer(z.id, zones[n].id);
    }
  }

  lemma {:induction false} GatheredDistinct(zones: seq<Zone>, catalog: string)
    requires StoredZones(zones)
    ensures DistinctOwners(Gathered(zones, catalog))
    decreases |zones|
  {
    if zones != [] {
      var n := |zones| - 1;
      var before := Gathered(zones[..n], catalog);
      GatheredDistinct(zones[..n], catalog);
      forall m | m in before
        ensures m.owner != LabelOf(zones[n].id)
      {
        OwnerIsNew(zones, catalog, n, m);
      }
      OneMoreOwner(before, MemberFor(zones[n]));
    }
  }

  lemma OneMoreOwner(ms: seq<Member>, m: Member)
    requires DistinctOwners(ms) && forall x | x in ms :: x.owner != m.owner
    ensures DistinctOwners(ms + [m])
  {
  }

  lemma PlainZoneMember(z: Zone)
    requires Stored(z)
    ensures PlainMember(MemberFor(z))
  {
    LabelOfUuid(z.id);
    LabelsArePlain(z.name);
  }

  lemma ListIsPlain(zones: seq<Zone>, catalog: string)
    requires StoredZones(zones)
    ensures AllPlain(MemberList(zones, catalog)) && Increasing(MemberList(zones, catalog))
  {
    var ms := MemberList(zones, catalog);
    forall i | 0 <= i < |ms|
      ensures PlainMember(ms[i])
    {
      assert ms[i] in ms;
      GatheredExactly(zones, catalog, ms[i]);
      var z :| z in zones && Publishes(z, catalog) && MemberFor(z) == ms[i];
      PlainZoneMember(z);
    }
    GatheredDistinct(zones, catalog);
    SortKeepsOrder(Gathered(zones, catalog));
  }

  /** The same members are published. */
  ghost predicate SamePublished(a: seq<Zone>, b: seq<Zone>, catalog: string) {
    forall m :: m in Gathered(a, catalog) <==> m in Gathered(b, catalog)
  }

  /** The same members are published as far as printing tells. */
  ghost predicate SamePrinted(a: seq<Zone>, b: seq<Zone>, catalog: string, idna: Idna) {
    forall p :: p in PrintedAll(Gathered(a, catalog), idna) <==> p in PrintedAll(Gathered(b, catalog), idna)
  }

  /** A zone that is in both has the same name: the store never renames one. */
  predicate KeepNames(a: seq<Zone>, b: seq<Zone>) {
    forall y, z | y in a && z in b && y.id == z.id :: y.name == z.name
  }

  lemma PrintedElements(ms: seq<Member>, idna: Idna, p: Member)
    ensures p in PrintedAll(ms, idna) <==> exists m :: m in ms && Printed(m, idna) == p
  {
    if p in PrintedAll(ms, idna) {
      var i :| 0 <= i < |ms| && PrintedAll(ms, idna)[i] == p;
      assert ms[i] in ms && Printed(ms[i], idna) == p;
    }
    if m :| m in ms && Printed(m, idna) == p {
      var i :| 0 <= i < |ms| && ms[i] == m;
      assert PrintedAll(ms, idna)[i] == p;
    }
  }

  /** Printing a sorted list gives a sorted list of the same members printed. */
  lemma PrintedSorted(zones: seq<Zone>, catalog: string, idna: Idna)
    requires StoredZones(zones)
    ensures var ps := PrintedAll(MemberList(zones, catalog), idna);
      Increasing(ps) && forall p :: p in ps <==> p in PrintedAll(Gathered(zones, catalog), idna)
  {
    ListIsPlain(zones, catalog);
    var ms := MemberList(zones, catalog);
    forall p
      ensures p in PrintedAll(ms, idna) <==> p in PrintedAll(Gathered(zones, catalog), idna)
    {
      PrintedElements(ms, idna, p);
      PrintedElements(Gathered(zones, catalog), idna, p);
    }
  }

  /** Two digests are the same exactly when the published zones are printed the same, whatever order they are listed in. */
  lemma DigestFollowsMembers(a: seq<Zone>, b: seq<Zone>, catalog: string, idna: Idna)
    requires StoredZones(a) && StoredZones(b) && Decodes(idna)
    ensures Digest(MemberList(a, catalog), idna) == Digest(MemberList(b, catalog), idna) <==> SamePrinted(a, b, catalog, idna)
    ensures KeepNames(a, b) ==> (SamePrinted(a, b, catalog, idna) <==> SamePublished(a, b, catalog))
  {
    var x, y := MemberList(a, catalog), MemberList(b, catalog);
    ListIsPlain(a, catalog);
    ListIsPlain(b, catalog);
    DigestDiffers(x, y, idna);
    PrintedSorted(a, catalog, idna);
    PrintedSorted(b, catalog, idna);
    if SamePrinted(a, b, catalog, idna) {
      OneOrder(PrintedAll(x, idna), PrintedAll(y, idna));
    }
    if PrintedAll(x, idna) == PrintedAll(y, idna) {
      SameElements(a, b, catalog, idna);
    }
    if KeepNames(a, b) {
      PrintedIsPublished(a, b, catalog, idna);
    }
  }

  lemma SameElements(a: seq<Zone>, b: seq<Zone>, catalog: string, idna: Idna)
    requires StoredZones(a) && StoredZones(b)
    requires PrintedAll(MemberList(a, catalog), idna) == PrintedAll(MemberList(b, catalog), idna)
    ensures SamePrinted(a, b, catalog, idna)
  {
    PrintedSorted(a, catalog, idna);
    PrintedSorted(b, catalog, idna);
    var ps := PrintedAll(MemberList(a, catalog), idna);
    forall p
      ensures p in PrintedAll(Gathered(a, catalog), idna) <==> p in PrintedAll(Gathered(b, catalog), idna)
    {
      assert p in ps <==> p in PrintedAll(Gathered(a, catalog), idna);
      assert p in ps <==> p in PrintedAll(Gathered(b, catalog), idna);
    }
  }

  lemma PrintedIsPublished(a: seq<Zone>, b: seq<Zone>, catalog: string, idna: Idna)
    requires StoredZones(a) && StoredZones(b) && KeepNames(a, b)
    ensures SamePrinted(a, b, catalog, idna) <==> SamePublished(a, b, catalog)
  {
    if SamePublished(a, b, catalog) {
      forall p
        ensures p in PrintedAll(Gathered(a, catalog), idna) <==> p in PrintedAll(Gathered(b, catalog), idna)
      {
        PrintedElements(Gathered(a, catalog), idna, p);
        PrintedElements(Gathered(b, catalog), idna, p);
      }
    }
    if SamePrinted(a, b, catalog, idna) {
      forall m
        ensures m in Gathered(a, catalog) <==> m in Gathered(b, catalog)
      {
        if m in Gathered(a, catalog) {
          PublishedThere(a, b, catalog, idna, m);
        }
        if m in Gathered(b, catalog) {
          PublishedThere(b, a, catalog, idna, m);
        }
      }
    }
  }

  /** A member printed on both sides is the same zone on both. */
  lemma PublishedThere(a: seq<Zone>, b: seq<Zone>, catalog: string, idna: Idna, m: Member)
    requires StoredZones(a) && StoredZones(b) && KeepNames(a, b) && SamePrinted(a, b, catalog, idna)
    requires m in Gathered(a, catalog)
    ensures m in Gathered(b, catalog)
  {
    var p := Printed(m, idna);
    PrintedElements(Gathered(a, catalog), idna, p);
    PrintedElements(Gathered(b, catalog), idna, p);
    assert p in PrintedAll(Gathered(b, catalog), idna);
    var n :| n in Gathered(b, catalog) && Printed(n, idna) == p;
    GatheredExactly(a, catalog, m);
    GatheredExactly(b, catalog, n);
    var y :| y in a && Publishes(y, catalog) && MemberFor(y) == m;
    var z :| z in b && Publishes(z, catalog) && MemberFor(z) == n;
    LabelsDiffer(y.id, z.id);
  }

  /** How far `b` is ahead of `a` in serial arithmetic. */
  function Ahead(a: nat, b: nat): int {
    (b - a) % U32
  }

  lemma NextRowIs(row: Row, digest: string, now: nat)
    requires row.serial < U32
    ensures var (next, changed) := NextRow(Some(row), digest, now);
      && next.digest == digest && next.serial < U32
      && (changed <==> digest != row.digest) && (changed <==> next.serial != row.serial)
      && (changed ==> Ahead(row.serial, next.serial) == 1 || Ahead(row.serial, next.serial) == 2)
  {
  }

  /**
   The published serial: from one build of the catalog to the next it stays exactly
   when the published zones stay, and otherwise moves one or two ahead.
   */
  lemma SerialFollowsMembers(a: seq<Zone>, b: seq<Zone>, catalog: string, serial: nat, now: nat, idna: Idna)
    requires StoredZones(a) && StoredZones(b) && Decodes(idna) && serial < U32
    ensures var before, after := Digest(MemberList(a, catalog), idna), Digest(MemberList(b, catalog), idna);
      var (row, changed) := NextRow(Some(Row(before, serial)), after, now);
      && row.digest == after && row.serial < U32
      && (row.serial == serial <==> SamePrinted(a, b, catalog, idna))
      && (KeepNames(a, b) ==> (row.serial == serial <==> SamePublished(a, b, catalog)))
      && (changed <==> row.serial != serial)
      && (changed ==> Ahead(serial, row.serial) == 1 || Ahead(serial, row.serial) == 2)
  {
    DigestFollowsMembers(a, b, catalog, idna);
    NextRowIs(Row(Digest(MemberList(a, catalog), idna), serial), Digest(MemberList(b, catalog), idna), now);
  }
}
