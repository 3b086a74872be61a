/**
 Catalog zones (RFC 9432) as they are published and read: the records this server
 publishes for its primary zones, and the member list read from a transferred catalog.
 */
module CatalogPublish {
  import opened Addresses
  import opened Text
  import opened MemberStore

  // ---- Names and records --------------------------------------------------------------------

  /** A domain name as its labels, the lowest first. */
  type Name = seq<string>

  datatype RData = Soa(serial: nat) | Ns(host: Name) | Txt(strings: seq<string>) | Ptr(target: Name)

  datatype Rr = Rr(name: Name, data: RData)

  function LowerLabels(n: Name): (r: Name)
    ensures |r| == |n| && forall i | 0 <= i < |n| :: r[i] == Lower(n[i])
  {
    seq(|n|, i requires 0 <= i < |n| => Lower(n[i]))
  }

  /** A leading `*` is not counted. */
  function NumLabels(n: Name): nat {
    if n != [] && n[0] == "*" then |n| - 1 else |n|
  }

  /** `name` is `zone` or below it, ignoring case. */
  predicate ZoneOf(zone: Name, name: Name) {
    |zone| <= |name| && LowerLabels(name[|name| - |zone|..]) == LowerLabels(zone)
  }

  /** A character of a label as it is printed: white space and dots escaped. */
  function Escaped(c: char): (s: string)
    ensures s != "" && Spaceless(s)
  {
    if c == ' ' then "\\032"
    else if c == '\t' then "\\009"
    else if c == '\n' then "\\010"
    else if c == '\r' then "\\013"
    else if c == '.' then "\\."
    else [c]
  }

  /** A label as it is printed when it is not decoded. */
  function EscapedLabel(l: string): (s: string)
    ensures Spaceless(s)
  {
    if l == "" then "" else Escaped(l[0]) + EscapedLabel(l[1..])
  }

  /** White space and dots are printed as escapes, any other character as itself. */
  lemma EscapesAre(c: char)
    ensures Escaped(' ') == "\\032" && Escaped('\t') == "\\009" && Escaped('\n') == "\\010" && Escaped('\r') == "\\013"
    ensures Escaped('.') == "\\."
    ensures c !in " \t\n\r." ==> Escaped(c) == [c]
  {
    var s := " \t\n\r.";
    assert s[0] == ' ' && s[1] == '\t' && s[2] == '\n' && s[3] == '\r' && s[4] == '.';
  }

  /** The Unicode form of an internationalised label, if it has one. */
  type Idna = string -> Option<string>

  /** A label in the ASCII form of an internationalised one. */
  predicate HasAce(l: string) {
    |l| >= 4 && l[..4] == "xn--"
  }

  lemma AcePrefix(l: string)
    ensures HasAce(l) <==> exists rest :: l == "xn--" + rest
  {
    if HasAce(l) {
      assert l == "xn--" + l[4..];
    }
  }

  predicate Decoded(l: string, idna: Idna) {
    HasAce(l) && idna(l).Some?
  }

  /** What printing relies on: a decoded label is not empty, holds no white space, dot or comma, and is not in the ASCII form. */
  ghost predicate Decodes(idna: Idna) {
    forall l | Decoded(l, idna) :: DecodedText(idna(l).value)
  }

  predicate DecodedText(t: string) {
    t != "" && !HasAce(Lower(t)) && Spaceless(t) && forall i | 0 <= i < |t| :: t[i] != '.' && t[i] != ','
  }

  /** A label as `to_string` prints it: `xn--` labels in Unicode. */
  function ShownLabel(l: string, idna: Idna): string {
    if Decoded(l, idna) then idna(l).value else EscapedLabel(l)
  }

  function ShownLabels(n: Name, idna: Idna): (parts: seq<string>)
    ensures |parts| == |n| && forall i | 0 <= i < |n| :: parts[i] == ShownLabel(n[i], idna)
  {
    seq(|n|, i requires 0 <= i < |n| => ShownLabel(n[i], idna))
  }

  /** The name as it is printed, with the trailing dot. */
  function Shown(n: Name, idna: Idna): string {
    Join(ShownLabels(n, idna), ".") + "."
  }

  // ---- Reading a catalog ---------------------------------------------------------------------

  function Concat(strings: seq<string>): string {
    if strings == [] then "" else strings[0] + Concat(strings[1..])
  }

  function TrimQuotesLeft(s: string): string {
    if s != "" && s[0] == '"' then TrimQuotesLeft(s[1..]) else s
  }

  function TrimQuotes(s: string): string {
    TrimEnd(TrimQuotesLeft(s), '"')
  }

  predicate IsVersion(catalog: Name, r: Rr) {
    r.data.Txt? && r.name == ["version"] + catalog
  }

  function VersionTexts(catalog: Name, records: seq<Rr>): seq<string> {
    if records == [] then []
    else
      var n := |records| - 1;
      VersionTexts(catalog, records[..n]) +
      if IsVersion(catalog, records[n]) then [Concat(records[n].data.strings)] else []
  }

  /** Schema version 2 is declared, and nothing else. */
  predicate DeclaresTwo(catalog: Name, records: seq<Rr>) {
    var texts := VersionTexts(catalog, records);
    |texts| == 1 && TrimQuotes(texts[0]) == "2"
  }

  /** A PTR one label below `zones.<catalog>`. */
  predicate ListsMember(zones: Name, r: Rr) {
    r.data.Ptr? && NumLabels(r.name) == NumLabels(zones) + 1 && ZoneOf(zones, r.name)
  }

  function MemberOf(r: Rr, idna: Idna): string
    requires r.data.Ptr?
  {
    Normalize(Shown(r.data.target, idna))
  }

  /** The names, lowercase, that list a member. */
  function SeenLabels(zones: Name, records: seq<Rr>): set<Name> {
    set r | r in records && ListsMember(zones, r) :: LowerLabels(r.name)
  }

  function Members(zones: Name, records: seq<Rr>, idna: Idna): seq<string> {
    if records == [] then []
    else
      var n := |records| - 1;
      var before, r := Members(zones, records[..n], idna), records[n];
      if ListsMember(zones, r) && LowerLabels(r.name) !in SeenLabels(zones, records[..n])
         && MemberOf(r, idna) != "" && MemberOf(r, idna) !in before
      then before + [MemberOf(r, idna)] else before
  }

  function ZonesName(catalog: Name): Name {
    ["zones"] + catalog
  }

  method ReadVersions(catalog: Name, records: seq<Rr>) returns (versions: seq<string>)
    ensures versions == VersionTexts(catalog, records)
  {
    versions := [];
    for i := 0 to |records|
      invariant versions == VersionTexts(catalog, records[..i])
    {
      assert records[..i + 1][..i] == records[..i];
      if IsVersion(catalog, records[i]) {
        versions := versions + [Concat(records[i].data.strings)];
      }
    }
    assert records[..|records|] == records;
  }

  method ReadMembers(zones: Name, records: seq<Rr>, idna: Idna) returns (members: seq<string>)
    ensures members == Members(zones, records, idna)
  {
    var seen: set<Name> := {};
    members := [];
    for i := 0 to |records|
      invariant seen == SeenLabels(zones, records[..i]) && members == Members(zones, records[..i], idna)
    {
      ghost var before := records[..i];
      assert records[..i + 1] == before + [records[i]];
      SeenGrows(zones, before, records[i]);
      MembersGrow(zones, before, records[i], idna);
      if ListsMember(zones, records[i]) {
        var owner := LowerLabels(records[i].name);
        if owner !in seen {
          seen := seen + {owner};
          var member := MemberOf(records[i], idna);
          if member != "" && member !in members {
            members := members + [member];
          }
        }
      }
    }
    assert records[..|records|] == records;
  }

  /** The member zones a catalog lists, or nothing when it is not of schema version 2. */
  method CatalogMembers(catalog: Name, records: seq<Rr>, idna: Idna) returns (r: Option<seq<string>>)
    ensures r == if DeclaresTwo(catalog, records) then Some(Members(ZonesName(catalog), records, idna)) else None
    ensures r.Some? <==> exists i :: OnlyVersion(catalog, records, i) && SaysTwo(records[i])
    ensures r.Some? ==> forall m :: m in r.value <==> exists k :: FirstToList(catalog, records, k, m, idna)
  {
    DeclaresTwoIs(catalog, records);
    forall m
      ensures m in Members(ZonesName(catalog), records, idna) <==> exists k :: FirstToList(catalog, records, k, m, idna)
    {
      MembersAre(catalog, records, m, idna);
    }
    var versions := ReadVersions(catalog, records);
    if |versions| != 1 || TrimQuotes(versions[0]) != "2" {
      return None;
    }
    var members := ReadMembers(ZonesName(catalog), records, idna);
    r := Some(members);
  }

  lemma MembersGrow(zones: Name, before: seq<Rr>, r: Rr, idna: Idna)
    ensures Members(zones, before + [r], idna) ==
      var ms := Members(zones, before, idna);
      if Adds(zones, before, r, idna) && MemberOf(r, idna) !in ms then ms + [MemberOf(r, idna)] else ms
  {
    assert (before + [r])[..|before|] == before;
  }

  /** `r` is the first record of its label and names a zone. */
  predicate Adds(zones: Name, before: seq<Rr>, r: Rr, idna: Idna) {
    && ListsMember(zones, r) && LowerLabels(r.name) !in SeenLabels(zones, before)
    && MemberOf(r, idna) != ""
  }

  lemma SeenGrows(zones: Name, before: seq<Rr>, r: Rr)
    ensures SeenLabels(zones, before + [r]) ==
      SeenLabels(zones, before) + if ListsMember(zones, r) then {LowerLabels(r.name)} else {}
  {
    var all := before + [r];
    assert forall x :: x in all <==> x in before || x == r;
  }

  // ---- What is read ----------------------------------------------------------------------------

  /** The `k`-th record is the first of its label and names `m`. */
  predicate Introduces(zones: Name, records: seq<Rr>, k: nat, m: string, idna: Idna) {
    k < |records| && Adds(zones, records[..k], records[k], idna) && m == MemberOf(records[k], idna)
  }

  predicate Introduced(zones: Name, records: seq<Rr>, m: string, idna: Idna) {
    exists k: nat | k < |records| :: Introduces(zones, records, k, m, idna)
  }

  /** The list holds exactly the members introduced by the first record of some label, each once. */
  lemma {:induction false} MembersExactly(zones: Name, records: seq<Rr>, idna: Idna)
    ensures var ms := Members(zones, records, idna);
      && (forall i, j | 0 <= i < j < |ms| :: ms[i] != ms[j])
      && (forall m :: m in ms <==> Introduced(zones, records, m, idna))
    decreases |records|
  {
    if records != [] {
      var n := |records| - 1;
      var before, r := records[..n], records[n];
      MembersExactly(zones, before, idna);
      assert records == before + [r];
      MembersGrow(zones, before, r, idna);
      forall m
        ensures m in Members(zones, records, idna) <==> Introduced(zones, records, m, idna)
      {
        IntroducedBefore(zones, before, r, m, idna);
      }
    }
  }

  lemma IntroducesSame(zones: Name, before: seq<Rr>, r: Rr, k: nat, m: string, idna: Idna)
    requires k <= |before|
    ensures Introduces(zones, before + [r], k, m, idna) <==>
      if k < |before| then Introduces(zones, before, k, m, idna) else Adds(zones, before, r, idna) && m == MemberOf(r, idna)
  {
    var records := before + [r];
    if k < |before| {
      assert records[..k] == before[..k] && records[k] == before[k];
    } else {
      assert records[..k] == before && records[k] == r;
    }
  }

  lemma IntroducedBefore(zones: Name, before: seq<Rr>, r: Rr, m: string, idna: Idna)
    ensures Introduced(zones, before + [r], m, idna) <==>
      Introduced(zones, before, m, idna) || (Adds(zones, before, r, idna) && m == MemberOf(r, idna))
  {
    forall k: nat | k <= |before|
      ensures Introduces(zones, before + [r], k, m, idna) <==>
        if k < |before| then Introduces(zones, before, k, m, idna) else Adds(zones, before, r, idna) && m == MemberOf(r, idna)
    {
      IntroducesSame(zones, before, r, k, m, idna);
    }
    if Adds(zones, before, r, idna) && m == MemberOf(r, idna) {
      assert Introduces(zones, before + [r], |before|, m, idna);
    }
  }

  // ---- The same, told on the names -------------------------------------------------------------------

  /**
   One label below `zones.<catalog>`, ignoring case; or two labels below when the first is
   a `*`, which is not counted.
   */
  predicate JustBelowZones(name: Name, catalog: Name) {
    || (|name| == |catalog| + 2 && name[0] != "*" && LowerLabels(name[1..]) == LowerLabels(["zones"] + catalog))
    || (|name| == |catalog| + 3 && name[0] == "*" && LowerLabels(name[2..]) == LowerLabels(["zones"] + catalog))
  }

  lemma ListsMemberIs(catalog: Name, r: Rr)
    ensures ListsMember(ZonesName(catalog), r) <==> r.data.Ptr? && JustBelowZones(r.name, catalog)
  {
    var zones := ["zones"] + catalog;
    assert zones[0] != "*" && NumLabels(zones) == |catalog| + 1;
  }

  /** The `k`-th record is a PTR just below the catalog's zones to `m`, and the first with its name. */
  predicate FirstToList(catalog: Name, records: seq<Rr>, k: int, m: string, idna: Idna) {
    && 0 <= k < |records| && records[k].data.Ptr? && JustBelowZones(records[k].name, catalog)
    && m == Normalize(Shown(records[k].data.target, idna)) && m != ""
    && forall j | 0 <= j < k && records[j].data.Ptr? && JustBelowZones(records[j].name, catalog) ::
         LowerLabels(records[j].name) != LowerLabels(records[k].name)
  }

  lemma SeenIs(catalog: Name, records: seq<Rr>, k: nat)
    requires k < |records|
    ensures LowerLabels(records[k].name) in SeenLabels(ZonesName(catalog), records[..k]) <==>
      exists j :: 0 <= j < k && records[j].data.Ptr? && JustBelowZones(records[j].name, catalog)
               && LowerLabels(records[j].name) == LowerLabels(records[k].name)
  {
    var before, zones := records[..k], ZonesName(catalog);
    forall r
      ensures ListsMember(zones, r) <==> r.data.Ptr? && JustBelowZones(r.name, catalog)
    {
      ListsMemberIs(catalog, r);
    }
    if LowerLabels(records[k].name) in SeenLabels(zones, before) {
      var x := SeenBy(zones, before, LowerLabels(records[k].name));
      var j :| 0 <= j < k && before[j] == x;
      assert records[j] == x;
    }
    if j :| 0 <= j < k && records[j].data.Ptr? && JustBelowZones(records[j].name, catalog)
            && LowerLabels(records[j].name) == LowerLabels(records[k].name) {
      assert before[j] == records[j];
      SeenHas(zones, before, records[j]);
    }
  }

  lemma IntroducesIs(catalog: Name, records: seq<Rr>, k: nat, m: string, idna: Idna)
    ensures Introduces(ZonesName(catalog), records, k, m, idna) <==> FirstToList(catalog, records, k, m, idna)
  {
    if k < |records| {
      ListsMemberIs(catalog, records[k]);
      SeenIs(catalog, records, k);
    }
  }

  /** For any records: what is listed, by the names of the PTR records. */
  lemma MembersAre(catalog: Name, records: seq<Rr>, m: string, idna: Idna)
    ensures m in Members(ZonesName(catalog), records, idna) <==> exists k :: FirstToList(catalog, records, k, m, idna)
  {
    MembersExactly(ZonesName(catalog), records, idna);
    if k: nat :| k < |records| && Introduces(ZonesName(catalog), records, k, m, idna) {
      IntroducesIs(catalog, records, k, m, idna);
    }
    if k :| FirstToList(catalog, records, k, m, idna) {
      IntroducesIs(catalog, records, k, m, idna);
    }
  }

  /** A record that is no PTR, or whose name is not just below the zones, such as a member property, lists nothing. */
  lemma PropertiesListNothing(catalog: Name, records: seq<Rr>, r: Rr, idna: Idna)
    requires !r.data.Ptr? || |r.name| < |catalog| + 2 || |r.name| > |catalog| + 3
      || (|r.name| == |catalog| + 3 && r.name[0] != "*")
    ensures Members(ZonesName(catalog), records + [r], idna) == Members(ZonesName(catalog), records, idna)
  {
    ListsMemberIs(catalog, r);
    MembersGrow(ZonesName(catalog), records, r, idna);
  }

  predicate VersionAt(catalog: Name, records: seq<Rr>, i: int) {
    0 <= i < |records| && records[i].data.Txt? && records[i].name == ["version"] + catalog
  }

  /** The `i`-th record is the catalog's only version record. */
  ghost predicate OnlyVersion(catalog: Name, records: seq<Rr>, i: int) {
    VersionAt(catalog, records, i) && forall j | VersionAt(catalog, records, j) :: j == i
  }

  /** Its text, in quotes or not, is a 2. */
  predicate SaysTwo(r: Rr) {
    r.data.Txt? && TrimQuotes(Concat(r.data.strings)) == "2"
  }

  lemma {:induction false} VersionTextsAre(catalog: Name, records: seq<Rr>)
    ensures |VersionTexts(catalog, records)| == 0 <==> forall i :: !VersionAt(catalog, records, i)
    ensures forall i | OnlyVersion(catalog, records, i) ::
              VersionTexts(catalog, records) == [Concat(records[i].data.strings)]
    ensures |VersionTexts(catalog, records)| == 1 ==> exists i :: OnlyVersion(catalog, records, i)
    decreases |records|
  {
    if records != [] {
      var n := |records| - 1;
      var before := records[..n];
      VersionTextsAre(catalog, before);
      forall i | i < n
        ensures VersionAt(catalog, before, i) <==> VersionAt(catalog, records, i)
      {
      }
      if IsVersion(catalog, records[n]) {
        assert VersionAt(catalog, records, n);
        if VersionTexts(catalog, before) == [] {
          assert forall i | VersionAt(catalog, records, i) :: i == n || VersionAt(catalog, before, i);
          assert OnlyVersion(catalog, records, n);
        }
      } else {
        assert !VersionAt(catalog, records, n);
        assert forall i :: VersionAt(catalog, before, i) <==> VersionAt(catalog, records, i);
        assert forall i :: OnlyVersion(catalog, before, i) <==> OnlyVersion(catalog, records, i);
      }
    }
  }

  /** A catalog is read if and only if it has one version record, and that says 2. */
  lemma DeclaresTwoIs(catalog: Name, records: seq<Rr>)
    ensures DeclaresTwo(catalog, records) <==> exists i :: OnlyVersion(catalog, records, i) && SaysTwo(records[i])
  {
    VersionTextsAre(catalog, records);
    if DeclaresTwo(catalog, records) {
      var i :| OnlyVersion(catalog, records, i);
      assert SaysTwo(records[i]);
    }
  }

  function VersionOf(catalog: Name, text: string): Rr {
    Rr(["version"] + catalog, Txt([text]))
  }

  lemma OneVersionTexts(catalog: Name, others: seq<Rr>, text: string)
    requires forall r | r in others :: !IsVersion(catalog, r)
    ensures VersionTexts(catalog, others + [VersionOf(catalog, text)]) == [text]
  {
    NoVersions(catalog, others);
    ConcatOne(text);
    assert (others + [VersionOf(catalog, text)])[..|others|] == others;
  }

  lemma TrimmedTwo()
    ensures TrimQuotes("2") == "2" && TrimQuotes("\"2\"") == "2"
  {
    TrimEndOf("2", '"');
    assert "\"2\""[1..] == "2\"" && TrimQuotesLeft("2\"") == "2\"";
    assert "2\""[..1] == "2" && TrimEnd("2\"", '"') == TrimEnd("2", '"');
  }

  /** Quotes around the text are not told apart, and without any version record, or with two, a catalog is refused. */
  lemma Versions(catalog: Name, others: seq<Rr>, text: string)
    requires forall r | r in others :: !IsVersion(catalog, r)
    ensures DeclaresTwo(catalog, others + [VersionOf(catalog, "2")])
    ensures DeclaresTwo(catalog, others + [VersionOf(catalog, "\"2\"")])
    ensures !DeclaresTwo(catalog, others)
    ensures TrimQuotes(text) != "2" ==> !DeclaresTwo(catalog, others + [VersionOf(catalog, text)])
    ensures !DeclaresTwo(catalog, others + [VersionOf(catalog, "2")] + [VersionOf(catalog, text)])
  {
    NoVersions(catalog, others);
    OneVersionTexts(catalog, others, "2");
    OneVersionTexts(catalog, others, "\"2\"");
    OneVersionTexts(catalog, others, text);
    TrimmedTwo();
    TwoVersionTexts(catalog, others + [VersionOf(catalog, "2")], VersionOf(catalog, text));
  }

  lemma TwoVersionTexts(catalog: Name, before: seq<Rr>, r: Rr)
    requires |VersionTexts(catalog, before)| == 1 && IsVersion(catalog, r)
    ensures |VersionTexts(catalog, before + [r])| == 2
  {
    assert (before + [r])[..|before|] == before;
  }

  lemma ConcatOne(s: string)
    ensures Concat([s]) == s
  {
    assert [s][1..] == [];
  }

  lemma {:induction false} NoVersions(catalog: Name, records: seq<Rr>)
    requires forall r | r in records :: !IsVersion(catalog, r)
    ensures VersionTexts(catalog, records) == []
    decreases |records|
  {
    if records != [] {
      assert records[|records| - 1] in records;
      NoVersions(catalog, records[..|records| - 1]);
    }
  }

  /** Printed names hold no white space, so what is read is a normal name. */
  lemma NormalMember(r: Rr, idna: Idna)
    requires r.data.Ptr? && Decodes(idna)
    ensures Normal(MemberOf(r, idna))
  {
    SpacelessShown(r.data.target, idna);
    NormalOnce(Shown(r.data.target, idna));
  }

  lemma NormalOnce(text: string)
    requires Spaceless(text)
    ensures Normal(Normalize(text))
  {
    SpacelessTrim(text);
    var t := TrimEnd(text, '.');
    var m := Lower(t);
    forall i | 0 <= i < |m|
      ensures !IsSpace(m[i])
    {
      assert t[i] == text[i] && m[i] == LowerChar(t[i]);
    }
    SpacelessTrim(m);
    if m != "" {
      assert m[|m| - 1] == LowerChar(t[|t| - 1]);
    }
    TrimEndOf(m, '.');
    LowerOfLower(m);
  }

  lemma SpacelessShown(n: Name, idna: Idna)
    requires Decodes(idna)
    ensures Spaceless(Shown(n, idna)) && Spaceless(Join(ShownLabels(n, idna), "."))
  {
    var parts := ShownLabels(n, idna);
    forall i | 0 <= i < |parts|
      ensures Spaceless(parts[i])
    {
      if Decoded(n[i], idna) {
        assert DecodedText(idna(n[i]).value);
      }
    }
    SpacelessJoin(parts);
  }

  // ---- Publishing --------------------------------------------------------------------------------

  datatype Zone = Zone(id: string, name: string, enabled: bool, secondary: bool)

  /** An enabled primary zone other than the catalog. */
  predicate Publishes(z: Zone, catalog: string) {
    z.enabled && !z.secondary && !SameIgnoringCase(z.name, catalog)
  }

  predicate IsAlnum(c: char) {
    IsDigit(c) || 'a' <= c <= 'z' || 'A' <= c <= 'Z'
  }

  function Alnum(s: string): (r: string)
    ensures |r| <= |s| && forall i | 0 <= i < |r| :: IsAlnum(r[i])
  {
    if s == "" then ""
    else Alnum(s[..|s| - 1]) + if IsAlnum(s[|s| - 1]) then [s[|s| - 1]] else ""
  }

  function LabelOf(id: string): string {
    var a := Alnum(id);
    Lower(if |a| <= 63 then a else a[..63])
  }

  /** A name text as labels. */
  function NameOf(text: string): (n: Name)
    ensures |n| >= 1
  {
    Split(TrimEnd(Trim(text), '.'), '.')
  }

  datatype Member = Member(owner: string, zone: Name)

  function MemberFor(z: Zone): Member {
    Member(LabelOf(z.id), NameOf(z.name))
  }

  /** The members gathered in the order the zones are listed. */
  function Gathered(zones: seq<Zone>, catalog: string): seq<Member> {
    if zones == [] then []
    else
      var n := |zones| - 1;
      Gathered(zones[..n], catalog) + if Publishes(zones[n], catalog) then [MemberFor(zones[n])] else []
  }

  method Gather(zones: seq<Zone>, catalog: string) returns (members: seq<Member>)
    ensures members == Gathered(zones, catalog)
    ensures forall m :: m in members <==> exists z :: z in zones && PublishedAs(z, catalog, m)
  {
    members := [];
    for i := 0 to |zones|
      invariant members == Gathered(zones[..i], catalog)
    {
      assert zones[..i + 1][..i] == zones[..i];
      var z := zones[i];
      if !z.enabled || z.secondary || SameIgnoringCase(z.name, catalog) {
        continue;
      }
      members := members + [MemberFor(z)];
    }
    assert zones[..|zones|] == zones;
    forall m
      ensures m in members <==> exists z :: z in zones && PublishedAs(z, catalog, m)
    {
      GatheredAre(zones, catalog, m);
    }
  }

  /** An enabled primary zone, not of the catalog's own name in any case, as the member it is published as. */
  predicate PublishedAs(z: Zone, catalog: string, m: Member) {
    && z.enabled && !z.secondary && Lower(z.name) != Lower(catalog)
    && m == Member(LabelOf(z.id), NameOf(z.name))
  }

  /** Exactly the enabled primary zones are gathered, but for one of the catalog's own name in any case. */
  lemma GatheredAre(zones: seq<Zone>, catalog: string, m: Member)
    ensures m in Gathered(zones, catalog) <==> exists z :: z in zones && PublishedAs(z, catalog, m)
  {
    GatheredExactly(zones, catalog, m);
    if z :| z in zones && PublishedAs(z, catalog, m) {
      assert Publishes(z, catalog) && MemberFor(z) == m;
    }
  }

  /** Some zone to publish gives this member. */
  ghost predicate GivesMember(zones: seq<Zone>, catalog: string, m: Member) {
    exists z :: z in zones && Publishes(z, catalog) && MemberFor(z) == m
  }

  lemma {:induction false} GatheredExactly(zones: seq<Zone>, catalog: string, m: Member)
    ensures m in Gathered(zones, catalog) <==> GivesMember(zones, catalog, m)
    decreases |zones|
  {
    if zones != [] {
      var n := |zones| - 1;
      GatheredExactly(zones[..n], catalog, m);
      OneMoreZone(zones[..n], zones[n], catalog, m);
      assert zones == zones[..n] + [zones[n]];
    }
  }

  lemma OneMoreZone(before: seq<Zone>, last: Zone, catalog: string, m: Member)
    ensures GivesMember(before + [last], catalog, m) <==>
      GivesMember(before, catalog, m) || (Publishes(last, catalog) && MemberFor(last) == m)
  {
    assert forall z :: z in before + [last] <==> z in before || z == last;
  }

  function PtrFor(origin: Name, m: Member): Rr {
    Rr([m.owner] + ZonesName(origin), Ptr(m.zone))
  }

  /** The records of the catalog zone; transfers send them in any order, the SOA twice. */
  function Published(origin: Name, serial: nat, members: seq<Member>): (records: seq<Rr>)
    ensures |records| == 3 + |members|
  {
    [Rr(origin, Soa(serial)), Rr(origin, Ns(["invalid"])), VersionRecord(origin)]
    + seq(|members|, i requires 0 <= i < |members| => PtrFor(origin, members[i]))
  }

  function VersionRecord(origin: Name): Rr {
    Rr(["version"] + origin, Txt(["2"]))
  }

  /** What is published, record by record. */
  lemma PublishedAre(origin: Name, serial: nat, members: seq<Member>, r: Rr)
    ensures r in Published(origin, serial, members) <==>
      || r == Rr(origin, Soa(serial)) || r == Rr(origin, Ns(["invalid"]))
      || r == Rr(["version"] + origin, Txt(["2"]))
      || exists m :: m in members && r == Rr([m.owner, "zones"] + origin, Ptr(m.zone))
  {
    var all := Published(origin, serial, members);
    assert forall m :: PtrFor(origin, m) == Rr([m.owner, "zones"] + origin, Ptr(m.zone)) by {
      forall m: Member
        ensures [m.owner] + (["zones"] + origin) == [m.owner, "zones"] + origin
      {
      }
    }
    if r in all {
      var i :| 0 <= i < |all| && all[i] == r;
      if i >= 3 {
        assert r == PtrFor(origin, members[i - 3]) && members[i - 3] in members;
      }
    }
    assert all[0] in all && all[1] in all && all[2] in all;
    if m :| m in members && r == Rr([m.owner, "zones"] + origin, Ptr(m.zone)) {
      PublishedHas(origin, serial, members, m);
    }
  }

  /** `records` are the published ones in some order, perhaps repeated, the version just once. */
  ghost predicate Transfers(records: seq<Rr>, origin: Name, serial: nat, members: seq<Member>) {
    && (forall r :: r in records <==> r in Published(origin, serial, members))
    && multiset(records)[VersionRecord(origin)] == 1
  }

  // ---- Zones as they are stored --------------------------------------------------------------------

  predicate IsDash(i: nat) {
    i == 8 || i == 13 || i == 18 || i == 23
  }

  /** A printed UUID: 32 lowercase hexadecimal digits with dashes between groups. */
  predicate IsUuid(id: string) {
    |id| == 36 && forall i | 0 <= i < 36 :: if IsDash(i) then id[i] == '-' else IsHex(id[i])
  }

  predicate PlainChar(c: char) {
    IsAlnum(c) || c == '-' || c == '_' || c == '.'
  }

  /** A stored zone name: lowercase, of the characters names are checked for, no dot at the end. */
  predicate PlainName(name: string) {
    && name != "" && name[|name| - 1] != '.' && Lower(name) == name
    && forall i | 0 <= i < |name| :: PlainChar(name[i])
  }

  predicate Stored(z: Zone) {
    IsUuid(z.id) && PlainName(z.name)
  }

  predicate StoredZones(zones: seq<Zone>) {
    && (forall i | 0 <= i < |zones| :: Stored(zones[i]))
    && (forall i, j | 0 <= i < |zones| && 0 <= j < |zones| && zones[i].id == zones[j].id :: i == j)
  }

  // ---- Labels ------------------------------------------------------------------------------------

  lemma {:induction false} AlnumAppend(a: string, b: string)
    ensures Alnum(a + b) == Alnum(a) + Alnum(b)
    decreases |b|
  {
    if b == "" {
      assert a + b == a;
    } else {
      var n := |b| - 1;
      assert (a + b)[..|a + b| - 1] == a + b[..n];
      AlnumAppend(a, b[..n]);
    }
  }

  lemma {:induction false} AlnumOfHex(a: string)
    requires forall i | 0 <= i < |a| :: IsHex(a[i])
    ensures Alnum(a) == a
    decreases |a|
  {
    if a != "" {
      AlnumOfHex(a[..|a| - 1]);
      assert a == a[..|a| - 1] + [a[|a| - 1]];
    }
  }

  function Undashed(id: string): string
    requires |id| == 36
  {
    id[..8] + (id[9..13] + (id[14..18] + (id[19..23] + id[24..])))
  }

  lemma DropDash(a: string, dash: string, rest: string)
    requires (forall i | 0 <= i < |a| :: IsHex(a[i])) && |dash| == 1 && dash[0] == '-'
    ensures Alnum(a + dash + rest) == a + Alnum(rest)
  {
    var head := a + dash;
    assert Alnum(head) == a by {
      AlnumAppend(a, dash);
      AlnumOfHex(a);
      AlnumOfDash(dash);
    }
    AlnumAppend(head, rest);
  }

  lemma AlnumOfDash(s: string)
    requires |s| == 1 && s[0] == '-'
    ensures Alnum(s) == ""
  {
    assert s[..0] == "";
  }

  predicate AllHex(s: string) {
    forall i | 0 <= i < |s| :: IsHex(s[i])
  }

  lemma AlnumOfUuid(id: string)
    requires IsUuid(id)
    ensures Alnum(id) == Undashed(id)
  {
    Redashed(id);
    assert AllHex(id[..8]) && AllHex(id[9..13]) && AllHex(id[14..18]) && AllHex(id[19..23]) && AllHex(id[24..]);
    FiveGroups(id[..8], id[9..13], id[14..18], id[19..23], id[24..], "-");
  }

  lemma FiveGroups(a: string, b: string, c: string, d: string, e: string, dash: string)
    requires AllHex(a) && AllHex(b) && AllHex(c) && AllHex(d) && AllHex(e) && |dash| == 1 && dash[0] == '-'
    ensures Alnum(a + dash + (b + dash + (c + dash + (d + dash + e)))) == a + (b + (c + (d + e)))
  {
    AlnumOfHex(e);
    DropDash(d, dash, e);
    DropDash(c, dash, d + dash + e);
    DropDash(b, dash, c + dash + (d + dash + e));
    DropDash(a, dash, b + dash + (c + dash + (d + dash + e)));
  }

  lemma LabelOfUuid(id: string)
    requires IsUuid(id)
    ensures LabelOf(id) == Undashed(id) && IsLower(LabelOf(id)) && LabelOf(id) != "*"
    ensures forall i | 0 <= i < |LabelOf(id)| :: IsHex(LabelOf(id)[i])
  {
    AlnumOfUuid(id);
    var u := Undashed(id);
    assert |u| == 32;
    HexPieces(id);
    LowerOfLower(u);
  }

  lemma HexPieces(id: string)
    requires IsUuid(id)
    ensures forall i | 0 <= i < |Undashed(id)| :: IsHex(Undashed(id)[i])
    ensures IsLower(Undashed(id))
  {
    var u := Undashed(id);
    forall i | 0 <= i < |u|
      ensures IsHex(u[i])
    {
      if i < 8 {
        assert u[i] == id[i];
      } else if i < 12 {
        assert u[i] == id[i + 1];
      } else if i < 16 {
        assert u[i] == id[i + 2];
      } else if i < 20 {
        assert u[i] == id[i + 3];
      } else {
        assert u[i] == id[i + 4];
      }
    }
  }

  /** Different zones get different labels. */
  lemma LabelsDiffer(a: string, b: string)
    requires IsUuid(a) && IsUuid(b) && LabelOf(a) == LabelOf(b)
    ensures a == b
  {
    LabelOfUuid(a);
    LabelOfUuid(b);
    var u, w := Undashed(a), Undashed(b);
    PiecesAre(a);
    PiecesAre(b);
    Redashed(a);
    Redashed(b);
  }

  lemma PiecesAre(id: string)
    requires IsUuid(id)
    ensures var u := Undashed(id);
      u[..8] == id[..8] && u[8..12] == id[9..13] && u[12..16] == id[14..18] && u[16..20] == id[19..23] && u[20..] == id[24..]
  {
  }

  lemma Redashed(id: string)
    requires IsUuid(id)
    ensures id == id[..8] + "-" + (id[9..13] + "-" + (id[14..18] + "-" + (id[19..23] + "-" + id[24..])))
  {
  }

  // ---- Printed names -------------------------------------------------------------------------------

  predicate PlainLabel(l: string) {
    forall j | 0 <= j < |l| :: PlainChar(l[j]) && l[j] != '.'
  }

  predicate PlainLabels(n: Name) {
    n != [] && forall i | 0 <= i < |n| :: PlainLabel(n[i])
  }

  lemma {:induction false} EscapedPlain(l: string)
    requires PlainLabel(l)
    ensures EscapedLabel(l) == l
    decreases |l|
  {
    if l != "" {
      EscapedPlain(l[1..]);
      assert l == [l[0]] + l[1..];
    }
  }

  /** A plain label is printed as it is exactly when it is not decoded, and then it keeps the ASCII form it may have. */
  lemma ShownPlain(l: string, idna: Idna)
    requires PlainLabel(l) && Decodes(idna)
    ensures if Decoded(l, idna) then DecodedText(ShownLabel(l, idna)) && ShownLabel(l, idna) != l else ShownLabel(l, idna) == l
    ensures '.' !in ShownLabel(l, idna) && ',' !in ShownLabel(l, idna)
  {
    if Decoded(l, idna) {
      assert DecodedText(idna(l).value);
      if idna(l).value == l {
        LowerKeepsAce(l);
      }
    } else {
      EscapedPlain(l);
    }
  }

  lemma LowerKeepsAce(l: string)
    requires HasAce(l)
    ensures HasAce(Lower(l))
  {
    assert l[0] == l[..4][0] && l[1] == l[..4][1] && l[2] == l[..4][2] && l[3] == l[..4][3];
    assert Lower(l)[..4] == "xn--";
  }

  lemma PlainTrims(name: string)
    requires PlainName(name)
    ensures Trim(name) == name && TrimEnd(name, '.') == name
  {
    PlainIsSpaceless(name);
    SpacelessTrim(name);
    TrimEndOf(name, '.');
  }

  lemma PlainIsSpaceless(name: string)
    requires forall i | 0 <= i < |name| :: PlainChar(name[i])
    ensures Spaceless(name)
  {
  }

  lemma NormalizeDotted(text: string)
    requires text != "" && text[|text| - 1] != '.' && Spaceless(text)
    ensures Normalize(text + ".") == Lower(text)
  {
    SpacelessTrim(text + ".");
    TrimEndOf(text, '.');
  }

  lemma PlainNameIs(name: string)
    requires PlainName(name)
    ensures NameOf(name) == Split(name, '.')
  {
    PlainTrims(name);
  }

  lemma {:induction false} SplitFromText(s: string, i: nat, j: nat)
    requires i < |Split(s, '.')| && j < |Split(s, '.')[i]|
    ensures Split(s, '.')[i][j] in s
    decreases |s|
  {
    var k := IndexOf(s, '.');
    if k == |s| {
      assert Split(s, '.')[i] == s;
    } else if i == 0 {
      assert Split(s, '.')[i][j] == s[j];
    } else {
      SplitFromText(s[k + 1..], i - 1, j);
    }
  }

  predicate LowerName(n: Name) {
    forall i | 0 <= i < |n| :: Lower(n[i]) == n[i]
  }

  /** The labels of a stored name. */
  predicate StoredLabels(n: Name) {
    PlainLabels(n) && LowerName(n) && n[|n| - 1] != ""
  }

  lemma LabelsArePlain(name: string)
    requires PlainName(name)
    ensures StoredLabels(NameOf(name)) && Join(NameOf(name), ".") == name
  {
    PlainNameIs(name);
    EveryPiecePlain(name);
    LastPiece(name);
  }

  lemma LastPiece(name: string)
    requires name != "" && name[|name| - 1] != '.'
    ensures var n := Split(name, '.'); n[|n| - 1] != "" && Join(n, ".") == name
  {
    JoinSplit(name, '.');
    LastLabel(Split(name, '.'));
  }

  lemma EveryPiecePlain(name: string)
    requires Lower(name) == name && forall j | 0 <= j < |name| :: PlainChar(name[j])
    ensures PlainLabels(Split(name, '.')) && LowerName(Split(name, '.'))
  {
    var labels := Split(name, '.');
    forall i | 0 <= i < |labels|
      ensures PlainLabel(labels[i]) && Lower(labels[i]) == labels[i]
    {
      LabelIsPlain(name, i);
    }
  }

  lemma LabelIsPlain(name: string, i: nat)
    requires (forall j | 0 <= j < |name| :: PlainChar(name[j])) && Lower(name) == name && i < |Split(name, '.')|
    ensures PlainLabel(Split(name, '.')[i]) && Lower(Split(name, '.')[i]) == Split(name, '.')[i]
  {
    var l := Split(name, '.')[i];
    SplitParts(name, '.');
    assert l in Split(name, '.');
    forall j | 0 <= j < |l|
      ensures PlainChar(l[j]) && l[j] != '.' && Lower(l)[j] == l[j]
    {
      SplitFromText(name, i, j);
      var k :| 0 <= k < |name| && name[k] == l[j];
      assert Lower(name)[k] == name[k];
    }
  }

  /** Joined labels end as the last one does. */
  lemma {:induction false} LastLabel(labels: seq<string>)
    requires labels != []
    ensures var s, last := Join(labels, "."), labels[|labels| - 1];
      && (last != "" ==> s != "" && s[|s| - 1] == last[|last| - 1])
      && (last == "" ==> s == "" || s[|s| - 1] == '.')
    decreases |labels|
  {
    if |labels| > 1 {
      LastLabel(labels[1..]);
    }
  }

  // ---- What a stored name is read as --------------------------------------------------------------------

  /** The name a consumer reads where a zone of this name was published. */
  function ReadAs(name: string, idna: Idna): string {
    Normalize(Shown(NameOf(name), idna))
  }

  lemma ShownLabelsAre(n: Name, idna: Idna)
    requires PlainLabels(n) && Decodes(idna) && n[|n| - 1] != ""
    ensures var parts := ShownLabels(n, idna);
      && (forall p | p in parts :: '.' !in p) && parts[|parts| - 1] != ""
  {
    var parts := ShownLabels(n, idna);
    forall p | p in parts
      ensures '.' !in p
    {
      var i :| 0 <= i < |parts| && parts[i] == p;
      ShownPlain(n[i], idna);
    }
    ShownPlain(n[|n| - 1], idna);
  }

  lemma {:induction false} LowerJoin(parts: seq<string>)
    ensures Lower(Join(parts, ".")) == Join(LowerLabels(parts), ".")
    decreases |parts|
  {
    if |parts| > 1 {
      LowerJoin(parts[1..]);
      assert LowerLabels(parts)[1..] == LowerLabels(parts[1..]);
      LowerSum(parts[0], Join(parts[1..], "."));
    } else if |parts| == 1 {
      assert LowerLabels(parts) == [Lower(parts[0])];
    }
  }

  lemma LowerSum(a: string, b: string)
    ensures Lower(a + "." + b) == Lower(a) + "." + Lower(b)
  {
  }

  /** The labels read are the printed ones in lowercase. */
  lemma ReadLabels(name: string, idna: Idna)
    requires PlainName(name) && Decodes(idna)
    ensures ReadAs(name, idna) == Join(LowerLabels(ShownLabels(NameOf(name), idna)), ".")
    ensures Split(ReadAs(name, idna), '.') == LowerLabels(ShownLabels(NameOf(name), idna))
    ensures ReadAs(name, idna) != ""
  {
    LabelsArePlain(name);
    ReadLabelsFor(name, NameOf(name), idna);
  }

  lemma ReadLabelsFor(name: string, n: Name, idna: Idna)
    requires n == NameOf(name) && StoredLabels(n) && Decodes(idna)
    ensures ReadAs(name, idna) == Join(LowerLabels(ShownLabels(n, idna)), ".")
    ensures Split(ReadAs(name, idna), '.') == LowerLabels(ShownLabels(n, idna)) && ReadAs(name, idna) != ""
  {
    ReadLabelsOf(n, idna);
  }

  lemma ReadLabelsOf(n: Name, idna: Idna)
    requires StoredLabels(n) && Decodes(idna)
    ensures var read := Normalize(Shown(n, idna));
      && read == Join(LowerLabels(ShownLabels(n, idna)), ".") && read != ""
      && Split(read, '.') == LowerLabels(ShownLabels(n, idna))
  {
    ShownLabelsAre(n, idna);
    SpacelessShown(n, idna);
    JoinedIsRead(ShownLabels(n, idna));
  }

  lemma JoinedIsRead(parts: seq<string>)
    requires parts != [] && parts[|parts| - 1] != "" && (forall p | p in parts :: '.' !in p)
    requires Spaceless(Join(parts, "."))
    ensures var read := Normalize(Join(parts, ".") + ".");
      read == Join(LowerLabels(parts), ".") && read != "" && Split(read, '.') == LowerLabels(parts)
  {
    var text := Join(parts, ".");
    assert parts[|parts| - 1] in parts;
    LastLabel(parts);
    NormalizeDotted(text);
    LowerJoin(parts);
    NoDotsLowered(parts);
    SplitJoin(LowerLabels(parts), '.');
  }

  lemma NoDotsLowered(parts: seq<string>)
    requires forall p | p in parts :: '.' !in p
    ensures forall p | p in LowerLabels(parts) :: '.' !in p
  {
    var low := LowerLabels(parts);
    forall p | p in low
      ensures '.' !in p
    {
      var i :| 0 <= i < |low| && low[i] == p;
      assert parts[i] in parts;
    }
  }

  /** A name with a label that is printed in Unicode. */
  predicate Rendered(name: string, idna: Idna) {
    exists i | 0 <= i < |NameOf(name)| :: Decoded(NameOf(name)[i], idna)
  }

  /** A name is read as itself exactly when none of its labels is printed in Unicode. */
  lemma ReadAsItself(name: string, idna: Idna)
    requires PlainName(name) && Decodes(idna)
    ensures ReadAs(name, idna) == name <==> !Rendered(name, idna)
  {
    if Rendered(name, idna) {
      NotReadAs(name, name, idna);
    } else {
      ReadLabels(name, idna);
      LabelsArePlain(name);
      ShownAsTheyAre(NameOf(name), idna);
    }
  }

  lemma ShownAsTheyAre(n: Name, idna: Idna)
    requires PlainLabels(n) && LowerName(n) && Decodes(idna)
    requires forall i | 0 <= i < |n| :: !Decoded(n[i], idna)
    ensures LowerLabels(ShownLabels(n, idna)) == n
  {
    forall i | 0 <= i < |n|
      ensures LowerLabels(ShownLabels(n, idna))[i] == n[i]
    {
      ShownPlain(n[i], idna);
    }
  }

  /** No name is read as one that would be printed in Unicode. */
  lemma NotReadAs(name: string, other: string, idna: Idna)
    requires PlainName(name) && PlainName(other) && Decodes(idna) && Rendered(name, idna)
    ensures ReadAs(other, idna) != name
  {
    LabelsArePlain(other);
    PlainNameIs(name);
    ReadLabels(other, idna);
    NotShownAs(NameOf(name), NameOf(other), idna);
  }

  lemma NotShownAs(n: Name, other: Name, idna: Idna)
    requires PlainLabels(other) && LowerName(other) && Decodes(idna)
    requires exists i | 0 <= i < |n| :: Decoded(n[i], idna)
    ensures LowerLabels(ShownLabels(other, idna)) != n
  {
    var i :| 0 <= i < |n| && Decoded(n[i], idna);
    if |other| == |n| {
      LabelNotRead(n[i], other[i], idna);
      assert LowerLabels(ShownLabels(other, idna))[i] != n[i];
    }
  }

  lemma LabelNotRead(l: string, k: string, idna: Idna)
    requires PlainLabel(k) && Lower(k) == k && Decodes(idna) && Decoded(l, idna)
    ensures Lower(ShownLabel(k, idna)) != l
  {
    ShownPlain(k, idna);
  }

  lemma ListsEveryMember(origin: Name, z: Zone)
    requires Stored(z)
    ensures ListsMember(ZonesName(origin), PtrFor(origin, MemberFor(z)))
  {
    LabelOfUuid(z.id);
    var zones, r := ZonesName(origin), PtrFor(origin, MemberFor(z));
    assert r.name[|r.name| - |zones|..] == zones;
    assert zones[0] != "*" by { assert |"zones"| != |"*"|; }
    assert |zones| == 1 + |origin|;
    assert NumLabels(zones) == |zones| && NumLabels(r.name) == |zones| + 1;
  }

  // ---- Reading what was published ------------------------------------------------------------------------

  lemma PublishedPtr(origin: Name, serial: nat, members: seq<Member>, r: Rr)
    requires r in Published(origin, serial, members)
    ensures r.data.Ptr? ==> exists m :: m in members && r == PtrFor(origin, m)
    ensures IsVersion(origin, r) ==> r == VersionRecord(origin)
  {
    var k :| 0 <= k < 3 + |members| && Published(origin, serial, members)[k] == r;
    if k >= 3 {
      assert r == PtrFor(origin, members[k - 3]);
    }
  }

  lemma PublishedHas(origin: Name, serial: nat, members: seq<Member>, m: Member)
    requires m in members
    ensures PtrFor(origin, m) in Published(origin, serial, members)
  {
    var i :| 0 <= i < |members| && members[i] == m;
    assert Published(origin, serial, members)[3 + i] == PtrFor(origin, m);
  }

  lemma {:induction false} OneVersion(catalog: Name, records: seq<Rr>)
    requires forall r | r in records && IsVersion(catalog, r) :: r == VersionRecord(catalog)
    ensures |VersionTexts(catalog, records)| == multiset(records)[VersionRecord(catalog)]
    ensures forall i | 0 <= i < |VersionTexts(catalog, records)| :: VersionTexts(catalog, records)[i] == Concat(["2"])
    decreases |records|
  {
    if records != [] {
      var n := |records| - 1;
      var before, last := records[..n], records[n];
      assert records == before + [last] && last in records;
      OneVersion(catalog, before);
      assert multiset(records) == multiset(before) + multiset{last};
    }
  }

  lemma VersionRead(records: seq<Rr>, origin: Name, serial: nat, members: seq<Member>)
    requires Transfers(records, origin, serial, members)
    ensures DeclaresTwo(origin, records)
  {
    forall r | r in records && IsVersion(origin, r)
      ensures r == VersionRecord(origin)
    {
      PublishedPtr(origin, serial, members, r);
    }
    OneVersion(origin, records);
    assert Concat(["2"]) == "2" by { assert ["2"][1..] == []; }
    TrimEndOf("2", '"');
  }

  lemma SeenBy(zones: Name, records: seq<Rr>, labels: Name) returns (x: Rr)
    requires labels in SeenLabels(zones, records)
    ensures x in records && ListsMember(zones, x) && LowerLabels(x.name) == labels
  {
    x :| x in records && ListsMember(zones, x) && LowerLabels(x.name) == labels;
  }

  lemma SeenHas(zones: Name, records: seq<Rr>, r: Rr)
    requires r in records && ListsMember(zones, r)
    ensures LowerLabels(r.name) in SeenLabels(zones, records)
  {
  }

  /** Where a label first occurs, it introduces its member. */
  lemma {:induction false} FirstOfLabel(zones: Name, records: seq<Rr>, r: Rr) returns (k: nat)
    requires r in records && ListsMember(zones, r)
    ensures k < |records| && ListsMember(zones, records[k]) && LowerLabels(records[k].name) == LowerLabels(r.name)
    ensures LowerLabels(r.name) !in SeenLabels(zones, records[..k])
    decreases |records|
  {
    var n := |records| - 1;
    var before := records[..n];
    if LowerLabels(r.name) in SeenLabels(zones, before) {
      var x := SeenBy(zones, before, LowerLabels(r.name));
      k := FirstOfLabel(zones, before, x);
      assert records[..k] == before[..k] && records[k] == before[k];
    } else {
      k := n;
      if r in before {
        SeenHas(zones, before, r);
      } else {
        assert records == before + [records[n]];
      }
    }
  }

  /** The members listed are the published zones, as a set of members. */
  ghost predicate SameMembers(members: seq<Member>, zones: seq<Zone>, catalog: string) {
    forall m :: m in members <==> m in Gathered(zones, catalog)
  }

  /** An enabled primary zone of that name, other than the catalog, is there. */
  ghost predicate IsPublished(zones: seq<Zone>, catalog: string, name: string) {
    exists z :: z in zones && Publishes(z, catalog) && z.name == name
  }

  /** A published zone is read under that name. */
  ghost predicate IsRead(zones: seq<Zone>, catalog: string, name: string, idna: Idna) {
    exists z :: z in zones && Publishes(z, catalog) && ReadAs(z.name, idna) == name
  }

  lemma ZoneOfRecord(zones: seq<Zone>, catalog: string, serial: nat, members: seq<Member>, r: Rr) returns (z: Zone)
    requires SameMembers(members, zones, catalog)
    requires r in Published(NameOf(catalog), serial, members) && r.data.Ptr?
    ensures z in zones && Publishes(z, catalog) && r == PtrFor(NameOf(catalog), MemberFor(z))
  {
    PublishedPtr(NameOf(catalog), serial, members, r);
    var m :| m in members && r == PtrFor(NameOf(catalog), m);
    GatheredExactly(zones, catalog, m);
    z :| z in zones && Publishes(z, catalog) && MemberFor(z) == m;
  }

  lemma SameLabelSameZone(origin: Name, y: Zone, z: Zone)
    requires Stored(y) && Stored(z)
    requires LowerLabels(PtrFor(origin, MemberFor(y)).name) == LowerLabels(PtrFor(origin, MemberFor(z)).name)
    ensures y.id == z.id
  {
    LabelOfUuid(y.id);
    LabelOfUuid(z.id);
    LowerOfLower(LabelOf(y.id));
    LowerOfLower(LabelOf(z.id));
    var a, b := PtrFor(origin, MemberFor(y)).name, PtrFor(origin, MemberFor(z)).name;
    assert LowerLabels(a)[0] == LabelOf(y.id) && LowerLabels(b)[0] == LabelOf(z.id);
    LabelsDiffer(y.id, z.id);
  }

  lemma EveryZoneRead(
    zones: seq<Zone>, catalog: string, serial: nat, members: seq<Member>, records: seq<Rr>, z: Zone, idna: Idna)
    requires StoredZones(zones) && SameMembers(members, zones, catalog) && Decodes(idna)
    requires Transfers(records, NameOf(catalog), serial, members)
    requires z in zones && Publishes(z, catalog)
    ensures Introduced(ZonesName(NameOf(catalog)), records, ReadAs(z.name, idna), idna)
  {
    var origin := NameOf(catalog);
    var r := PtrFor(origin, MemberFor(z));
    GatheredExactly(zones, catalog, MemberFor(z));
    PublishedHas(origin, serial, members, MemberFor(z));
    ListsEveryMember(origin, z);
    var k := FirstOfLabel(ZonesName(origin), records, r);
    assert records[k] in records;
    var y := ZoneOfRecord(zones, catalog, serial, members, records[k]);
    SameLabelSameZone(origin, y, z);
    assert y == z;
    ReadLabels(z.name, idna);
    assert Introduces(ZonesName(origin), records, k, ReadAs(z.name, idna), idna);
  }

  /**
   From the published records in any order the consumer reads each enabled primary
   zone other than the catalog, once, under the name its labels are printed as.
   */
  lemma ConsumerReads(
    zones: seq<Zone>, catalog: string, serial: nat, members: seq<Member>, records: seq<Rr>, idna: Idna)
    requires StoredZones(zones) && SameMembers(members, zones, catalog) && Decodes(idna)
    requires Transfers(records, NameOf(catalog), serial, members)
    ensures DeclaresTwo(NameOf(catalog), records)
    ensures var ms := Members(ZonesName(NameOf(catalog)), records, idna);
      && (forall i, j | 0 <= i < j < |ms| :: ms[i] != ms[j])
      && (forall name :: name in ms <==> IsRead(zones, catalog, name, idna))
  {
    var origin := NameOf(catalog);
    VersionRead(records, origin, serial, members);
    MembersExactly(ZonesName(origin), records, idna);
    forall name
      ensures Introduced(ZonesName(origin), records, name, idna) <==> IsRead(zones, catalog, name, idna)
    {
      if Introduced(ZonesName(origin), records, name, idna) {
        var k: nat :| k < |records| && Introduces(ZonesName(origin), records, k, name, idna);
        assert records[k] in records;
        var z := ZoneOfRecord(zones, catalog, serial, members, records[k]);
      }
      if z :| z in zones && Publishes(z, catalog) && ReadAs(z.name, idna) == name {
        EveryZoneRead(zones, catalog, serial, members, records, z, idna);
      }
    }
  }

  /** A published zone is read under its own name exactly when none of its labels is printed in Unicode. */
  lemma ZoneIsRead(zones: seq<Zone>, catalog: string, z: Zone, idna: Idna)
    requires StoredZones(zones) && Decodes(idna) && z in zones && Publishes(z, catalog)
    ensures IsRead(zones, catalog, z.name, idna) <==> !Rendered(z.name, idna)
  {
    ReadAsItself(z.name, idna);
    if Rendered(z.name, idna) {
      forall y | y in zones
        ensures ReadAs(y.name, idna) != z.name
      {
        NotReadAs(z.name, y.name, idna);
      }
    }
  }

  /**
   The consumer undoes the publisher, reading exactly the enabled primary zones other
   than the catalog, if and only if no published name has a label printed in Unicode.
   */
  lemma ConsumerUndoesPublisher(
    zones: seq<Zone>, catalog: string, serial: nat, members: seq<Member>, records: seq<Rr>, idna: Idna)
    requires StoredZones(zones) && SameMembers(members, zones, catalog) && Decodes(idna)
    requires Transfers(records, NameOf(catalog), serial, members)
    ensures var ms := Members(ZonesName(NameOf(catalog)), records, idna);
      (forall name :: name in ms <==> IsPublished(zones, catalog, name)) <==>
        forall z | z in zones && Publishes(z, catalog) :: !Rendered(z.name, idna)
  {
    ConsumerReads(zones, catalog, serial, members, records, idna);
    var ms := Members(ZonesName(NameOf(catalog)), records, idna);
    forall z | z in zones && Publishes(z, catalog)
      ensures z.name in ms <==> !Rendered(z.name, idna)
      ensures !Rendered(z.name, idna) ==> ReadAs(z.name, idna) == z.name
    {
      ZoneIsRead(zones, catalog, z, idna);
      ReadAsItself(z.name, idna);
    }
    if forall name :: name in ms <==> IsPublished(zones, catalog, name) {
      forall z | z in zones && Publishes(z, catalog)
        ensures !Rendered(z.name, idna)
      {
        assert IsPublished(zones, catalog, z.name);
      }
    }
  }

  /** `xn--bcher-kva.de` is a name that can be stored; a consumer reads `bücher.de`, which cannot. */
  lemma PunycodeNameIsMisread(name: string, ace: string, text: string, de: string, idna: Idna)
    requires ace == "xn--bcher-kva" && text == "b\U{fc}cher" && de == "de" && name == ace + "." + de
    requires Decodes(idna) && idna(ace) == Some(text)
    ensures PlainName(name) && ReadAs(name, idna) == text + "." + de && !PlainName(ReadAs(name, idna))
  {
    PunycodeNameIsPlain(name, ace, de);
    UmlautName(ace, text, de);
    MisreadAs(name, ace, text, de, idna);
    UmlautIsNotPlain(text + "." + de);
  }

  lemma UmlautName(ace: string, text: string, de: string)
    requires ace == "xn--bcher-kva" && text == "b\U{fc}cher" && de == "de"
    ensures HasAce(ace) && '.' !in ace && IsLower(text) && |text| > 1 && text[1] == '\U{fc}'
    ensures PlainLabel(de) && !HasAce(de) && IsLower(de) && '.' !in de
  {
  }

  lemma MisreadAs(name: string, ace: string, text: string, other: string, idna: Idna)
    requires PlainName(name) && name == ace + "." + other && '.' !in ace && '.' !in other
    requires HasAce(ace) && idna(ace) == Some(text) && IsLower(text) && Decodes(idna)
    requires PlainLabel(other) && !HasAce(other) && IsLower(other)
    ensures ReadAs(name, idna) == text + "." + other
  {
    TwoLabels(name, ace, other);
    PlainNameIs(name);
    ReadLabels(name, idna);
    TwoLabelsRead(ace, other, text, idna);
  }

  lemma TwoLabelsRead(ace: string, other: string, text: string, idna: Idna)
    requires HasAce(ace) && idna(ace) == Some(text) && IsLower(text) && Decodes(idna)
    requires PlainLabel(other) && !HasAce(other) && IsLower(other)
    ensures Join(LowerLabels(ShownLabels([ace, other], idna)), ".") == text + "." + other
  {
    ShownPlain(other, idna);
    assert ShownLabels([ace, other], idna) == [text, other];
    TwoLowerLabels(text, other);
  }

  lemma UmlautIsNotPlain(s: string)
    requires |s| > 1 && s[1] == '\U{fc}'
    ensures !PlainName(s)
  {
    assert !PlainChar(s[1]);
  }

  lemma TwoLabels(name: string, a: string, b: string)
    requires name == a + "." + b && '.' !in a && '.' !in b
    ensures Split(name, '.') == [a, b]
  {
    SplitMore(a, b, '.');
    SplitOne(b, '.');
  }

  lemma TwoLowerLabels(a: string, b: string)
    requires IsLower(a) && IsLower(b)
    ensures Join(LowerLabels([a, b]), ".") == a + "." + b
  {
    LowerOfLower(a);
    LowerOfLower(b);
    assert LowerLabels([a, b]) == [a] + [b];
    JoinMore(a, [b], ".");
  }

  lemma PunycodeNameIsPlain(name: string, ace: string, de: string)
    requires ace == "xn--bcher-kva" && de == "de" && name == ace + "." + de
    ensures PlainName(name)
  {
    assert forall i | 0 <= i < |name| :: PlainChar(name[i]) && !('A' <= name[i] <= 'Z');
    LowerOfLower(name);
  }
}
