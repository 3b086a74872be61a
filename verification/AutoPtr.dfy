/**
 AUTOPTR answers: a rule in a reverse zone makes up a PTR target for every
 address under its name that has no PTR record of its own.
 */
module AutoPtr {
  import opened Addresses
  import opened Text
  import opened ReverseNames
  import opened ReverseZones

  const PLACEHOLDER := "{ip}"

  // ---- Address text ------------------------------------------------------------------------

  /** `n` in lowercase hexadecimal, without leading zeros. */
  function Hexadecimal(n: nat): (s: string)
    ensures s != "" && forall i | 0 <= i < |s| :: IsHex(s[i])
  {
    if n < 16 then [HexDigit(n)] else Hexadecimal(n / 16) + [HexDigit(n % 16)]
  }

  /** The `k` 16-bit segments of `v`, the highest first. */
  function Segments(v: nat, k: nat): (ss: seq<nat>)
    ensures |ss| == k
  {
    if k == 0 then [] else Segments(v / 0x1_0000, k - 1) + [v % 0x1_0000]
  }

  function HexParts(ss: seq<nat>): (parts: seq<string>)
    ensures |parts| == |ss| && forall i | 0 <= i < |ss| :: parts[i] == Hexadecimal(ss[i])
  {
    seq(|ss|, i requires 0 <= i < |ss| => Hexadecimal(ss[i]))
  }

  function Parts(ip: IpAddr): (parts: seq<string>)
    ensures |parts| == if ip.V4? then 4 else 8
  {
    match ip
    case V4(a, b, c, d) => [Decimal(a), Decimal(b), Decimal(c), Decimal(d)]
    case V6(v) => HexParts(Segments(v, 8))
  }

  /** The address with dashes for separators. */
  function Dashed(ip: IpAddr): string {
    Join(Parts(ip), "-")
  }

  // ---- Templates ---------------------------------------------------------------------------

  predicate PlaceholderAt(s: string, i: nat) {
    i + 4 <= |s| && s[i..i + 4] == PLACEHOLDER
  }

  /** Every placeholder in `s` replaced by `x`, from the left. */
  function Replaced(s: string, x: string): string {
    if s == "" then ""
    else if PlaceholderAt(s, 0) then x + Replaced(s[4..], x)
    else [s[0]] + Replaced(s[1..], x)
  }

  function Expand(template: string, ip: IpAddr): string {
    Replaced(TrimEnd(template, '.'), Dashed(ip))
  }

  /** How many placeholders are replaced. */
  function Count(s: string): nat {
    if s == "" then 0
    else if PlaceholderAt(s, 0) then 1 + Count(s[4..])
    else Count(s[1..])
  }

  predicate HasPlaceholder(s: string) {
    exists i | 0 <= i < |s| :: PlaceholderAt(s, i)
  }

  predicate Around(s: string, a: string, b: string) {
    s == a + "{ip}" + b
  }

  /** `{ip}` is somewhere in `s`. */
  ghost predicate HoldsIp(s: string) {
    exists a, b :: Around(s, a, b)
  }

  lemma PlaceholderIs(s: string)
    ensures HasPlaceholder(s) <==> HoldsIp(s)
  {
    if i :| 0 <= i < |s| && PlaceholderAt(s, i) {
      assert s == s[..i] + s[i..i + 4] + s[i + 4..];
      assert Around(s, s[..i], s[i + 4..]);
    }
    if a, b :| Around(s, a, b) {
      assert s[|a|..|a| + 4] == "{ip}";
      assert PlaceholderAt(s, |a|);
    }
  }

  /** The first placeholder is replaced, and then those in what follows it. */
  lemma {:induction false} ReplacedFirst(a: string, b: string, x: string)
    requires !HoldsIp(a + "{ip")
    ensures Replaced(a + "{ip}" + b, x) == a + x + Replaced(b, x)
    decreases |a|
  {
    var s := a + "{ip}" + b;
    if a == "" {
      assert s[0..4] == "{ip}" && s[4..] == b;
    } else {
      var front := a + "{ip";
      assert !PlaceholderAt(s, 0) by {
        PlaceholderIs(front);
        assert s[0..4] == front[0..4];
        assert !PlaceholderAt(front, 0);
      }
      assert s[1..] == a[1..] + "{ip}" + b && s[0] == a[0];
      NoneInRest(front);
      assert front[1..] == a[1..] + "{ip";
      ReplacedFirst(a[1..], b, x);
      assert [a[0]] + (a[1..] + x + Replaced(b, x)) == a + x + Replaced(b, x);
    }
  }

  lemma NoneInRest(s: string)
    requires s != "" && !HoldsIp(s)
    ensures !HoldsIp(s[1..])
  {
    if a, b :| Around(s[1..], a, b) {
      assert s == [s[0]] + s[1..];
      assert Around(s, [s[0]] + a, b);
    }
  }

  /** A placeholder anywhere is replaced: none is skipped. */
  lemma {:induction false} CountPositive(s: string)
    ensures Count(s) > 0 <==> HasPlaceholder(s)
    decreases |s|
  {
    if s != "" && !PlaceholderAt(s, 0) {
      CountPositive(s[1..]);
      PlaceholderBehind(s);
    }
  }

  lemma PlaceholderBehind(s: string)
    requires s != "" && !PlaceholderAt(s, 0)
    ensures HasPlaceholder(s) <==> HasPlaceholder(s[1..])
  {
    var rest := s[1..];
    if i :| 0 <= i < |s| && PlaceholderAt(s, i) {
      OneOn(s, i - 1);
      assert PlaceholderAt(rest, i - 1);
    }
    if i :| 0 <= i < |rest| && PlaceholderAt(rest, i) {
      OneOn(s, i);
      assert PlaceholderAt(s, i + 1);
    }
  }

  lemma OneOn(s: string, i: nat)
    requires s != ""
    ensures PlaceholderAt(s[1..], i) <==> PlaceholderAt(s, i + 1)
  {
    if i + 5 <= |s| {
      assert s[1..][i..i + 4] == s[i + 1..i + 5];
    }
  }

  lemma {:induction false} ReplacedLength(s: string, x: string)
    ensures |Replaced(s, x)| == |s| + Count(s) * (|x| - 4)
    decreases |s|
  {
    if s != "" {
      if PlaceholderAt(s, 0) {
        ReplacedLength(s[4..], x);
        OneMore(Count(s[4..]), |x| - 4);
      } else {
        ReplacedLength(s[1..], x);
      }
    }
  }

  lemma OneMore(n: nat, d: int)
    ensures (1 + n) * d == d + n * d
  {
  }

  lemma {:induction false} SameLengthReplaced(s: string, x: string, y: string)
    requires |x| == |y| && Replaced(s, x) == Replaced(s, y) && Count(s) > 0
    ensures x == y
    decreases |s|
  {
    if PlaceholderAt(s, 0) {
      assert x == Replaced(s, x)[..|x|] && y == Replaced(s, y)[..|y|];
    } else {
      assert Replaced(s[1..], x) == Replaced(s, x)[1..] && Replaced(s[1..], y) == Replaced(s, y)[1..];
      SameLengthReplaced(s[1..], x, y);
    }
  }

  lemma {:induction false} NothingReplaced(s: string, x: string)
    requires Count(s) == 0
    ensures Replaced(s, x) == s
    decreases |s|
  {
    if s != "" {
      NothingReplaced(s[1..], x);
      assert s == [s[0]] + s[1..];
    }
  }

  lemma EqualProducts(n: nat, a: int, b: int)
    requires n > 0 && n * a == n * b
    ensures a == b
  {
    var d := a - b;
    assert n * d == 0;
  }

  /** Different replacements show exactly when there is something to replace. */
  lemma ReplacedDiffers(s: string, x: string, y: string)
    requires x != y
    ensures Replaced(s, x) != Replaced(s, y) <==> HasPlaceholder(s)
  {
    CountPositive(s);
    if Count(s) == 0 {
      NothingReplaced(s, x);
      NothingReplaced(s, y);
    } else if Replaced(s, x) == Replaced(s, y) {
      ReplacedLength(s, x);
      ReplacedLength(s, y);
      EqualProducts(Count(s), |x| - 4, |y| - 4);
      SameLengthReplaced(s, x, y);
    }
  }

  // ---- Different addresses, different text --------------------------------------------------------

  function HexadecimalValue(s: string): nat
    requires forall i | 0 <= i < |s| :: IsHex(s[i])
  {
    if s == "" then 0 else 16 * HexadecimalValue(s[..|s| - 1]) + HexValue(s[|s| - 1])
  }

  lemma {:induction false} HexadecimalRoundTrip(n: nat)
    ensures HexadecimalValue(Hexadecimal(n)) == n
    decreases n
  {
    var s := Hexadecimal(n);
    if n >= 16 {
      HexadecimalRoundTrip(n / 16);
      assert s[..|s| - 1] == Hexadecimal(n / 16);
      HexRoundTrip(n % 16);
    } else {
      assert s[..0] == "";
      HexRoundTrip(n);
    }
  }

  lemma {:induction false} SegmentsDiffer(v: nat, w: nat, k: nat)
    requires v < Pow16(4 * k) && w < Pow16(4 * k) && Segments(v, k) == Segments(w, k)
    ensures v == w
    decreases k
  {
    if k > 0 {
      var x, y := v / 0x1_0000, w / 0x1_0000;
      FourMore(k - 1);
      assert Segments(v, k)[..k - 1] == Segments(x, k - 1);
      assert Segments(w, k)[..k - 1] == Segments(y, k - 1);
      SegmentsDiffer(x, y, k - 1);
      assert Segments(v, k)[k - 1] == v % 0x1_0000 && Segments(w, k)[k - 1] == w % 0x1_0000;
    }
  }

  lemma FourMore(k: nat)
    ensures Pow16(4 * (k + 1)) == 0x1_0000 * Pow16(4 * k)
  {
    var n := 4 * k;
    assert Pow16(n + 4) == 16 * Pow16(n + 3) && Pow16(n + 3) == 16 * Pow16(n + 2);
    assert Pow16(n + 2) == 16 * Pow16(n + 1) && Pow16(n + 1) == 16 * Pow16(n);
  }

  lemma HexPartsDiffer(a: seq<nat>, b: seq<nat>)
    requires HexParts(a) == HexParts(b)
    ensures a == b
  {
    assert |a| == |HexParts(a)| == |b|;
    forall i | 0 <= i < |a|
      ensures a[i] == b[i]
    {
      assert HexParts(a)[i] == HexParts(b)[i];
      HexadecimalRoundTrip(a[i]);
      HexadecimalRoundTrip(b[i]);
    }
  }

  lemma PartsDiffer(a: IpAddr, b: IpAddr)
    requires WellFormed(a) && WellFormed(b) && Parts(a) == Parts(b)
    ensures a == b
  {
    assert |Parts(a)| == |Parts(b)|;
    if a.V4? {
      assert forall i | 0 <= i < 4 :: Parts(a)[i] == Parts(b)[i];
      DecimalsDiffer(a.a, b.a);
      DecimalsDiffer(a.b, b.b);
      DecimalsDiffer(a.c, b.c);
      DecimalsDiffer(a.d, b.d);
    } else {
      HexPartsDiffer(Segments(a.value, 8), Segments(b.value, 8));
      Pow16Is();
      SegmentsDiffer(a.value, b.value, 8);
    }
  }

  lemma NoDashes(ip: IpAddr)
    ensures forall p | p in Parts(ip) :: '-' !in p
  {
    forall p | p in Parts(ip)
      ensures '-' !in p
    {
      if ip.V4? {
        assert AllDigits(p);
      } else {
        var i :| 0 <= i < 8 && Parts(ip)[i] == p;
        assert p == Hexadecimal(Segments(ip.value, 8)[i]);
      }
    }
  }

  lemma DashedDiffers(a: IpAddr, b: IpAddr)
    requires WellFormed(a) && WellFormed(b) && a != b
    ensures Dashed(a) != Dashed(b)
  {
    NoDashes(a);
    NoDashes(b);
    SplitJoin(Parts(a), '-');
    SplitJoin(Parts(b), '-');
    if Parts(a) == Parts(b) {
      PartsDiffer(a, b);
    }
  }

  /** A template tells any two addresses apart exactly when it has a placeholder. */
  lemma TargetsDiffer(template: string, a: IpAddr, b: IpAddr)
    requires WellFormed(a) && WellFormed(b) && a != b
    ensures Expand(template, a) != Expand(template, b) <==> HoldsIp(TrimEnd(template, '.'))
  {
    DashedDiffers(a, b);
    PlaceholderIs(TrimEnd(template, '.'));
    ReplacedDiffers(TrimEnd(template, '.'), Dashed(a), Dashed(b));
  }

  // ---- The index -----------------------------------------------------------------------------

  datatype Rule = Rule(template: string, ttl: nat)

  /** The first of `candidate` and the names above it that has a rule. */
  function FirstOwner(rules: map<string, Rule>, candidate: string): (r: Option<string>)
    ensures r.Some? ==> r.value in rules
    decreases |candidate|
  {
    if candidate in rules then Some(candidate)
    else
      var i := IndexOf(candidate, '.');
      if i == |candidate| then None else FirstOwner(rules, candidate[i + 1..])
  }

  function Answer(rules: map<string, Rule>, ptrNames: set<string>, name: string): Option<(string, nat)> {
    if rules == map[] || name in ptrNames then None
    else
      match AddressOf(name)
      case None => None
      case Some(ip) =>
        (match FirstOwner(rules, name)
         case None => None
         case Some(owner) => Some((Expand(rules[owner].template, ip) + ".", rules[owner].ttl)))
  }

  /** Owners, templates and names are held lowercase and without trailing dots. */
  ghost predicate InOneSpelling(rules: map<string, Rule>, ptrNames: set<string>) {
    && (forall o | o in rules :: Canonical(o) == o && Canonical(rules[o].template) == rules[o].template)
    && (forall n | n in ptrNames :: Canonical(n) == n)
  }

  class AutoPtrIndex {
    var rules: map<string, Rule>
    var ptrNames: set<string>

    ghost predicate Valid()
      reads this
    {
      InOneSpelling(rules, ptrNames)
    }

    constructor ()
      ensures Valid() && rules == map[] && ptrNames == {}
    {
      rules, ptrNames := map[], {};
    }

    method AddRule(owner: string, template: string, ttl: nat)
      requires Valid()
      modifies this
      ensures Valid() && ptrNames == old(ptrNames)
      ensures rules == old(rules)[Canonical(owner) := Rule(Canonical(template), ttl)]
    {
      CanonicalTwice(owner);
      CanonicalTwice(template);
      rules := rules[Canonical(owner) := Rule(Canonical(template), ttl)];
    }

    method AddPtrName(name: string)
      requires Valid()
      modifies this
      ensures Valid() && rules == old(rules)
      ensures ptrNames == old(ptrNames) + {Canonical(name)}
    {
      CanonicalTwice(name);
      ptrNames := ptrNames + {Canonical(name)};
    }

    method Lookup(name: string) returns (r: Option<(string, nat)>)
      ensures r == Answer(rules, ptrNames, name)
    {
      if rules == map[] || name in ptrNames {
        return None;
      }
      match AddressOf(name)
      case None => return None;
      case Some(address) =>
        var candidate := name;
        while candidate !in rules
          invariant FirstOwner(rules, candidate) == FirstOwner(rules, name)
          decreases |candidate|
        {
          var i := IndexOf(candidate, '.');
          if i == |candidate| {
            return None;
          }
          candidate := candidate[i + 1..];
        }
        return Some((Expand(rules[candidate].template, address) + ".", rules[candidate].ttl));
    }
  }

  lemma CanonicalTwice(name: string)
    ensures Canonical(Canonical(name)) == Canonical(name)
  {
    var t := TrimEnd(name, '.');
    var n := Lower(t);
    if n != "" {
      assert n[|n| - 1] == LowerChar(t[|t| - 1]) && n[|n| - 1] != '.';
    }
    TrimEndOf(n, '.');
    LowerOfLower(n);
  }

  // ---- What is looked up ------------------------------------------------------------------------

  /** `owner` has the longest name among the rules at or above `name`. */
  ghost predicate Closest(rules: map<string, Rule>, name: string, owner: string) {
    && owner in rules && Covers(name, owner)
    && forall o | o in rules && Covers(name, o) :: |o| <= |owner|
  }

  /** Names above `name` are `name` itself, or above what follows its first dot. */
  lemma AboveIs(name: string, owner: string)
    ensures Covers(name, owner) <==>
      owner == name || (IndexOf(name, '.') < |name| && Covers(name[IndexOf(name, '.') + 1..], owner))
  {
    var i := IndexOf(name, '.');
    CoversByLabels(name, owner);
    JoinSplit(name, '.');
    JoinSplit(owner, '.');
    if i < |name| {
      CoversByLabels(name[i + 1..], owner);
      TailOfMore(Split(owner, '.'), name[..i], Split(name[i + 1..], '.'));
    }
  }

  lemma TailOfMore(part: seq<string>, first: string, rest: seq<string>)
    ensures TailOf(part, [first] + rest) <==> part == [first] + rest || TailOf(part, rest)
  {
    var whole := [first] + rest;
    if |part| <= |rest| {
      assert whole[|whole| - |part|..] == rest[|rest| - |part|..];
    }
  }

  /** The first owner found is the longest rule owner at or above the name. */
  lemma {:induction false} FirstIsClosest(rules: map<string, Rule>, name: string)
    ensures match FirstOwner(rules, name)
      case Some(owner) => Closest(rules, name, owner)
      case None => forall o | o in rules :: !Covers(name, o)
    decreases |name|
  {
    var i := IndexOf(name, '.');
    if name in rules {
      NameIsClosest(rules, name);
    } else {
      if i < |name| {
        FirstIsClosest(rules, name[i + 1..]);
      }
      RulesAbove(rules, name);
    }
  }

  /** Rules above a name that has none itself are above what follows its first dot. */
  lemma RulesAbove(rules: map<string, Rule>, name: string)
    requires name !in rules
    ensures forall o | o in rules ::
      Covers(name, o) <==> IndexOf(name, '.') < |name| && Covers(name[IndexOf(name, '.') + 1..], o)
  {
    forall o | o in rules
      ensures Covers(name, o) <==> IndexOf(name, '.') < |name| && Covers(name[IndexOf(name, '.') + 1..], o)
    {
      AboveIs(name, o);
    }
  }

  lemma NameIsClosest(rules: map<string, Rule>, name: string)
    requires name in rules
    ensures Closest(rules, name, name)
  {
  }

  lemma ClosestIsOne(rules: map<string, Rule>, name: string, a: string, b: string)
    requires Closest(rules, name, a) && Closest(rules, name, b)
    ensures a == b
  {
    assert |a| == |b|;
    assert name[|name| - |a|..] == a by {
      if a != name { assert name[|name| - |a|..] == name[|name| - |a| - 1..][1..]; }
    }
    assert name[|name| - |b|..] == b by {
      if b != name { assert name[|name| - |b|..] == name[|name| - |b| - 1..][1..]; }
    }
  }

  /**
   `lookup`, stated outright: an answer exactly when the name stands for an
   address, has no PTR record and lies at or under a rule; the longest such rule
   gives it.
   */
  lemma AnswerExactly(rules: map<string, Rule>, ptrNames: set<string>, name: string)
    ensures Answer(rules, ptrNames, name).Some? <==>
      name !in ptrNames && AddressOf(name).Some? && exists o :: o in rules && Covers(name, o)
    ensures forall owner | Answer(rules, ptrNames, name).Some? && Closest(rules, name, owner) ::
      Answer(rules, ptrNames, name).value == (Expand(rules[owner].template, AddressOf(name).value) + ".", rules[owner].ttl)
  {
    FirstIsClosest(rules, name);
    forall owner | Answer(rules, ptrNames, name).Some? && Closest(rules, name, owner)
      ensures FirstOwner(rules, name) == Some(owner)
    {
      ClosestIsOne(rules, name, owner, FirstOwner(rules, name).value);
    }
  }

  /**
   No spelling of an owner or a PTR name makes a difference: an address is answered for
   exactly when no name held is one of its reverse name's spellings and some owner held
   is a spelling of a name at or above it.
   */
  lemma SpellingIgnored(rules: map<string, Rule>, ptrNames: set<string>, ip: IpAddr)
    requires InOneSpelling(rules, ptrNames) && WellFormed(ip)
    ensures Answer(rules, ptrNames, ReverseName(ip)).Some? <==>
      && (forall p | p in ptrNames :: Canonical(p) != ReverseName(ip))
      && (exists o :: o in rules && Covers(ReverseName(ip), Canonical(o)))
  {
    var name := ReverseName(ip);
    AnswerExactly(rules, ptrNames, name);
    ReadsWhatIsWritten(ip);
    if o :| o in rules && Covers(name, Canonical(o)) {
      assert Covers(name, o);
    }
    if o :| o in rules && Covers(name, o) {
      assert Covers(name, Canonical(o));
    }
  }

  /**
   A rule added under any spelling of a network's zone answers for the addresses of that
   network that have no PTR name, and for no others unless another rule does; where no
   rule above the address is longer it makes up the target.
   */
  lemma RuleAnswersNetwork(rules: map<string, Rule>, ptrNames: set<string>, owner: string, rule: Rule, ip: IpAddr, k: nat,
                           other: IpAddr)
    requires InOneSpelling(rules, ptrNames) && WellFormed(ip) && WellFormed(other) && LabelCount(ip, k)
    requires Canonical(owner) == PrefixZone(ip, k) && Canonical(rule.template) == rule.template
    ensures var after, name := rules[Canonical(owner) := rule], ReverseName(other);
      && InOneSpelling(after, ptrNames)
      && (Answer(after, ptrNames, name).Some? <==>
            name !in ptrNames && (SameNetwork(ip, other, k) || exists o :: o in rules && Covers(name, o)))
      && (Answer(after, ptrNames, name).Some? && SameNetwork(ip, other, k)
          && (forall o | o in rules && Covers(name, o) :: |o| <= |PrefixZone(ip, k)|) ==>
            Answer(after, ptrNames, name) == Some((Replaced(rule.template, Dashed(other)) + ".", rule.ttl)))
  {
    var zone := Canonical(owner);
    var after, name := rules[zone := rule], ReverseName(other);
    CanonicalTwice(owner);
    PrefixZoneCoversExactly(ip, other, k);
    ReadsWhatIsWritten(other);
    AnswerExactly(after, ptrNames, name);
    OneMoreOwner(rules, zone, rule, name);
    if SameNetwork(ip, other, k) && Answer(after, ptrNames, name).Some?
       && forall o | o in rules && Covers(name, o) :: |o| <= |zone| {
      assert Closest(after, name, zone);
      NoDotAtEnd(rule.template);
    }
  }

  lemma OneMoreOwner(rules: map<string, Rule>, owner: string, rule: Rule, name: string)
    ensures (exists o :: o in rules[owner := rule] && Covers(name, o)) <==>
              Covers(name, owner) || exists o :: o in rules && Covers(name, o)
  {
    var after := rules[owner := rule];
    if Covers(name, owner) {
      assert owner in after;
    }
    if o :| o in rules && Covers(name, o) {
      assert o in after;
    }
  }

  lemma NoDotAtEnd(template: string)
    requires Canonical(template) == template
    ensures TrimEnd(template, '.') == template
  {
    var t := TrimEnd(template, '.');
    assert |Lower(t)| == |t| && template[..|t|] == t;
  }

  /** Names of different addresses answered by one rule get different targets exactly when it has a placeholder. */
  lemma AnswersDiffer(rules: map<string, Rule>, ptrNames: set<string>, m: string, n: string, owner: string)
    requires Answer(rules, ptrNames, m).Some? && Closest(rules, m, owner)
    requires Answer(rules, ptrNames, n).Some? && Closest(rules, n, owner)
    requires AddressOf(m) != AddressOf(n)
    ensures Answer(rules, ptrNames, m).value.0 != Answer(rules, ptrNames, n).value.0
      <==> HoldsIp(TrimEnd(rules[owner].template, '.'))
  {
    var a, b, t := AddressOf(m).value, AddressOf(n).value, rules[owner].template;
    AnswerExactly(rules, ptrNames, m);
    AnswerExactly(rules, ptrNames, n);
    WritesWhatIsRead(m, a);
    WritesWhatIsRead(n, b);
    TargetsDiffer(t, a, b);
    var x, y := Expand(t, a), Expand(t, b);
    assert (x + ".")[..|x|] == x && (y + ".")[..|y|] == y;
  }
}
