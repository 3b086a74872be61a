/**
 Reverse-lookup names: `reverse_name` writes an address's name, `address_of`
 reads it back, and `default_reverse_zone` gives the zone to create for it.
 */
module ReverseNames {
  import opened Addresses
  import opened Text

  const V4_SUFFIX := ".in-addr.arpa"
  const V6_SUFFIX := ".ip6.arpa"

  // ---- Nibbles --------------------------------------------------------------------

  /** The `k` lowest nibbles of `v`, lowest first. */
  function NibblesLow(v: nat, k: nat): (ns: seq<nat>)
    ensures |ns| == k && forall i | 0 <= i < k :: ns[i] < 16
  {
    if k == 0 then [] else [v % 16] + NibblesLow(v / 16, k - 1)
  }

  function FromLow(ns: seq<nat>): nat {
    if ns == [] then 0 else ns[0] + 16 * FromLow(ns[1..])
  }

  function Pow16(k: nat): (p: nat)
    ensures p >= 1
  {
    if k == 0 then 1 else 16 * Pow16(k - 1)
  }

  lemma {:induction false} NibblesRoundTrip(v: nat, k: nat)
    requires v < Pow16(k)
    ensures FromLow(NibblesLow(v, k)) == v
    decreases k
  {
    if k > 0 {
      NibblesRoundTrip(v / 16, k - 1);
      assert NibblesLow(v, k)[1..] == NibblesLow(v / 16, k - 1);
    }
  }

  lemma {:induction false} FromLowRoundTrip(ns: seq<nat>)
    requires forall i | 0 <= i < |ns| :: ns[i] < 16
    ensures NibblesLow(FromLow(ns), |ns|) == ns && FromLow(ns) < Pow16(|ns|)
    decreases |ns|
  {
    if ns != [] {
      var rest := ns[1..];
      assert ns == [ns[0]] + rest;
      FromLowRoundTrip(rest);
      OneMoreNibble(ns[0], FromLow(rest), |ns|);
    }
  }

  lemma OneMoreNibble(low: nat, high: nat, k: nat)
    requires low < 16 && k > 0
    ensures NibblesLow(low + 16 * high, k) == [low] + NibblesLow(high, k - 1)
    ensures high < Pow16(k - 1) ==> low + 16 * high < Pow16(k)
  {
    assert (low + 16 * high) % 16 == low && (low + 16 * high) / 16 == high;
  }

  lemma Pow16Is()
    ensures Pow16(32) == V6_LIMIT
  {
    assert Pow16(4) == 0x1_0000 by {
      assert Pow16(2) == 0x100;
    }
    assert Pow16(8) == 0x1_0000_0000 by {
      assert Pow16(6) == 0x100_0000;
    }
    assert Pow16(12) == 0x1_0000_0000_0000 by {
      assert Pow16(10) == 0x100_0000_0000;
    }
    assert Pow16(16) == 0x1_0000_0000_0000_0000 by {
      assert Pow16(14) == 0x100_0000_0000_0000;
    }
    assert Pow16(20) == 0x1_0000_0000_0000_0000_0000 by {
      assert Pow16(18) == 0x100_0000_0000_0000_0000;
    }
    assert Pow16(24) == 0x1_0000_0000_0000_0000_0000_0000 by {
      assert Pow16(22) == 0x100_0000_0000_0000_0000_0000;
    }
    assert Pow16(28) == 0x1_0000_0000_0000_0000_0000_0000_0000 by {
      assert Pow16(26) == 0x100_0000_0000_0000_0000_0000_0000;
    }
    assert Pow16(30) == 0x100_0000_0000_0000_0000_0000_0000_0000;
  }

  /** The `k` octets of `v`, highest first. */
  function Octets(v: nat, k: nat): (os: seq<nat>)
    ensures |os| == k
  {
    if k == 0 then [] else Octets(v / 256, k - 1) + [v % 256]
  }

  /** Each octet as its high and low nibble. */
  function Halves(os: seq<nat>): (ns: seq<nat>)
    ensures |ns| == 2 * |os|
  {
    if os == [] then []
    else Halves(os[..|os| - 1]) + [os[|os| - 1] / 16, os[|os| - 1] % 16]
  }

  /** The writer's nibbles, octet by octet and then reversed, are the lowest-first ones. */
  lemma {:induction false} HalvesReversed(v: nat, k: nat)
    ensures Reverse(Halves(Octets(v, k))) == NibblesLow(v, 2 * k)
    decreases k
  {
    if k > 0 {
      HalvesReversed(v / 256, k - 1);
      var os, rest := Octets(v, k), Halves(Octets(v / 256, k - 1));
      assert os[..k - 1] == Octets(v / 256, k - 1);
      ReverseTwoMore(rest, v % 256 / 16, v % 256 % 16);
      TwoNibbles(v, 2 * k);
    }
  }

  lemma ReverseTwoMore(s: seq<nat>, a: nat, b: nat)
    ensures Reverse(s + [a, b]) == [b, a] + Reverse(s)
  {
  }

  lemma TwoNibbles(v: nat, n: nat)
    requires n >= 2
    ensures NibblesLow(v, n) == [v % 256 % 16, v % 256 / 16] + NibblesLow(v / 256, n - 2)
  {
    assert v % 256 % 16 == v % 16 && v % 256 / 16 == v / 16 % 16 && v / 256 == v / 16 / 16;
    assert NibblesLow(v, n) == [v % 16] + ([v / 16 % 16] + NibblesLow(v / 16 / 16, n - 2));
  }

  // ---- Writing ----------------------------------------------------------------------

  function HexLabels(ns: seq<nat>): (labels: seq<string>)
    requires forall i | 0 <= i < |ns| :: ns[i] < 16
    ensures |labels| == |ns|
    ensures forall i | 0 <= i < |ns| :: labels[i] == [HexDigit(ns[i])]
  {
    seq(|ns|, i requires 0 <= i < |ns| => [HexDigit(ns[i])])
  }

  function V4Labels(ip: IpAddr): seq<string>
    requires ip.V4?
  {
    [Decimal(ip.d), Decimal(ip.c), Decimal(ip.b), Decimal(ip.a)]
  }

  function ReverseName(ip: IpAddr): string {
    match ip
    case V4(_, _, _, _) => Join(V4Labels(ip), ".") + V4_SUFFIX
    case V6(v) => Join(HexLabels(NibblesLow(v, 32)), ".") + V6_SUFFIX
  }

  /** The same with the steps of the code: octets to nibbles, reversed, joined. */
  method WriteReverseName(ip: IpAddr) returns (name: string)
    ensures name == ReverseName(ip)
  {
    match ip
    case V4(a, b, c, d) =>
      JoinFour(Decimal(d), Decimal(c), Decimal(b), Decimal(a));
      name := Decimal(d) + "." + (Decimal(c) + "." + (Decimal(b) + "." + Decimal(a))) + V4_SUFFIX;
    case V6(v) =>
      HalvesReversed(v, 16);
      var nibbles := Reverse(Halves(Octets(v, 16)));
      var labels := [];
      for i := 0 to |nibbles|
        invariant labels == HexLabels(nibbles)[..i]
      {
        labels := labels + [[HexDigit(nibbles[i])]];
      }
      assert labels == HexLabels(nibbles);
      name := Join(labels, ".") + V6_SUFFIX;
  }

  lemma JoinFour(a: string, b: string, c: string, d: string)
    ensures Join([a, b, c, d], ".") == a + "." + (b + "." + (c + "." + d))
  {
    assert [a, b, c, d][1..] == [b, c, d] && [b, c, d][1..] == [c, d] && [c, d][1..] == [d];
    assert Join([c, d], ".") == c + "." + d;
    assert Join([b, c, d], ".") == b + "." + Join([c, d], ".");
  }

  // ---- Reading ----------------------------------------------------------------------

  /** A Rust `u8` from text: an optional `+`, then digits, at most 255. */
  function ParseU8(s: string): Option<nat> {
    var digits := if s != "" && s[0] == '+' then s[1..] else s;
    if digits != "" && AllDigits(digits) && DecimalValue(digits) <= 255 then Some(DecimalValue(digits)) else None
  }

  /** An octet label: no leading zero. */
  function OctetLabel(l: string): Option<nat> {
    if |l| > 1 && l[0] == '0' then None else ParseU8(l)
  }

  function NibbleLabel(l: string): Option<nat> {
    if |l| == 1 && IsHex(l[0]) then Some(HexValue(l[0])) else None
  }

  /** All of them, or none if one fails. */
  function All(labels: seq<string>, read: string -> Option<nat>): (r: Option<seq<nat>>)
    ensures r.Some? <==> forall i | 0 <= i < |labels| :: read(labels[i]).Some?
    ensures r.Some? ==> |r.value| == |labels| && forall i | 0 <= i < |labels| :: read(labels[i]) == Some(r.value[i])
  {
    if labels == [] then Some([])
    else
      var n := |labels| - 1;
      match All(labels[..n], read)
      case None => None
      case Some(rest) =>
        (match read(labels[n]) case None => None case Some(x) => Some(rest + [x]))
  }

  /** The name as it is compared: lowercase, no trailing dot. */
  function Canonical(name: string): string {
    Lower(TrimEnd(name, '.'))
  }

  function Stem(name: string, suffix: string): string
    requires EndsWith(name, suffix)
  {
    name[..|name| - |suffix|]
  }

  function OctetsAddress(stem: string): Option<IpAddr> {
    match All(Split(stem, '.'), OctetLabel)
    case Some(o) => if |o| == 4 then Some(V4(o[3], o[2], o[1], o[0])) else None
    case None => None
  }

  function NibblesAddress(stem: string): Option<IpAddr> {
    match All(Split(stem, '.'), NibbleLabel)
    case Some(ns) => if |ns| == 32 then Some(V6(FromLow(ns))) else None
    case None => None
  }

  function AddressOf(name: string): Option<IpAddr> {
    var n := Canonical(name);
    if EndsWith(n, V4_SUFFIX) then OctetsAddress(Stem(n, V4_SUFFIX))
    else if EndsWith(n, V6_SUFFIX) then NibblesAddress(Stem(n, V6_SUFFIX))
    else None
  }

  /** The value as the code adds it up: from the highest nibble, shifting. */
  method FoldNibbles(ns: seq<nat>) returns (v: nat)
    ensures v == FromLow(ns)
  {
    v := 0;
    var i := |ns|;
    while i > 0
      invariant 0 <= i <= |ns| && v == FromLow(ns[i..])
    {
      i := i - 1;
      assert ns[i..][1..] == ns[i + 1..];
      v := v * 16 + ns[i];
    }
  }

  // ---- Writing, then reading ---------------------------------------------------------

  lemma OctetRoundTrip(n: nat)
    requires n < 256
    ensures OctetLabel(Decimal(n)) == Some(n) && '.' !in Decimal(n)
  {
    DecimalRoundTrip(n);
    assert Decimal(n)[0] != '+';
  }

  lemma StemOf(s: string, suffix: string)
    ensures EndsWith(s + suffix, suffix) && Stem(s + suffix, suffix) == s
  {
  }

  /** A lowercase name that does not end in a dot is its own canonical form. */
  lemma CanonicalOf(name: string)
    requires IsLower(name) && name != "" && name[|name| - 1] != '.'
    ensures Canonical(name) == name
  {
    TrimEndOf(name, '.');
    LowerOfLower(name);
  }

  lemma JoinedLower(labels: seq<string>, suffix: string)
    requires IsLower(suffix) && forall l | l in labels :: IsLower(l)
    ensures IsLower(Join(labels, ".") + suffix)
  {
    forall c | c in Join(labels, ".")
      ensures !('A' <= c <= 'Z')
    {
      JoinChars(labels, ".", c);
    }
  }

  lemma WrittenNameIsCanonical(ip: IpAddr)
    ensures Canonical(ReverseName(ip)) == ReverseName(ip)
  {
    match ip
    case V4(_, _, _, _) =>
      forall l | l in V4Labels(ip)
        ensures IsLower(l)
      {
        assert AllDigits(l);
      }
      JoinedLower(V4Labels(ip), V4_SUFFIX);
      CanonicalOf(ReverseName(ip));
    case V6(v) =>
      var labels := HexLabels(NibblesLow(v, 32));
      forall l | l in labels
        ensures IsLower(l)
      {
        assert IsHex(l[0]);
      }
      JoinedLower(labels, V6_SUFFIX);
      CanonicalOf(ReverseName(ip));
  }

  lemma ReadsWrittenV4(ip: IpAddr)
    requires WellFormed(ip) && ip.V4?
    ensures AddressOf(ReverseName(ip)) == Some(ip)
  {
    var stem := Join(V4Labels(ip), ".");
    WrittenNameIsCanonical(ip);
    StemOf(stem, V4_SUFFIX);
    ReadsV4Stem(ip);
  }

  lemma ReadsV4Stem(ip: IpAddr)
    requires WellFormed(ip) && ip.V4?
    ensures OctetsAddress(Join(V4Labels(ip), ".")) == Some(ip)
  {
    OctetRoundTrip(ip.a);
    OctetRoundTrip(ip.b);
    OctetRoundTrip(ip.c);
    OctetRoundTrip(ip.d);
    FourOctets(V4Labels(ip), [ip.d, ip.c, ip.b, ip.a]);
    SplitJoin(V4Labels(ip), '.');
  }

  lemma ReadLabels(ns: seq<nat>)
    requires forall i | 0 <= i < |ns| :: ns[i] < 16
    ensures All(HexLabels(ns), NibbleLabel) == Some(ns)
  {
    var labels := HexLabels(ns);
    forall i | 0 <= i < |labels|
      ensures NibbleLabel(labels[i]) == Some(ns[i])
    {
      HexRoundTrip(ns[i]);
    }
    assert All(labels, NibbleLabel).value == ns;
  }

  lemma HexRoundTrip(n: nat)
    requires n < 16
    ensures HexValue(HexDigit(n)) == n
  {
  }

  lemma ReadsWrittenV6(ip: IpAddr)
    requires WellFormed(ip) && ip.V6?
    ensures AddressOf(ReverseName(ip)) == Some(ip)
  {
    WrittenNameIsCanonical(ip);
    var ns := NibblesLow(ip.value, 32);
    var labels := HexLabels(ns);
    SplitJoin(labels, '.');
    StemOf(Join(labels, "."), V6_SUFFIX);
    NotV4(Join(labels, "."));
    ReadLabels(ns);
    Pow16Is();
    NibblesRoundTrip(ip.value, 32);
  }

  /** Reading undoes writing, for every address. */
  lemma ReadsWhatIsWritten(ip: IpAddr)
    requires WellFormed(ip)
    ensures AddressOf(ReverseName(ip)) == Some(ip)
  {
    match ip
    case V4(_, _, _, _) => ReadsWrittenV4(ip);
    case V6(_) => ReadsWrittenV6(ip);
  }

  lemma NotV4(s: string)
    ensures !EndsWith(s + V6_SUFFIX, V4_SUFFIX)
  {
    var n := s + V6_SUFFIX;
    if |V4_SUFFIX| <= |n| {
      assert n[|n| - |V4_SUFFIX|..][|V4_SUFFIX| - 6] == n[|n| - 6] == '6';
    }
  }

  // ---- Reading, then writing ---------------------------------------------------------

  /** An octet label is the decimal of its value exactly when it has no `+`. */
  lemma OctetLabelIs(l: string)
    requires OctetLabel(l).Some?
    ensures OctetLabel(l).value < 256
    ensures l == Decimal(OctetLabel(l).value) <==> '+' !in l
  {
    if l[0] == '+' {
      assert '+' in l && !AllDigits(l);
    } else {
      assert AllDigits(l);
      ValueRoundTrip(l);
    }
  }

  function DecimalLabels(o: seq<nat>): (labels: seq<string>)
    ensures |labels| == |o| && forall i | 0 <= i < |o| :: labels[i] == Decimal(o[i])
  {
    seq(|o|, i requires 0 <= i < |o| => Decimal(o[i]))
  }

  predicate NoPlus(labels: seq<string>) {
    forall i | 0 <= i < |labels| :: '+' !in labels[i]
  }

  lemma OctetLabelsAre(labels: seq<string>, o: seq<nat>)
    requires All(labels, OctetLabel) == Some(o)
    ensures |o| == |labels| && forall i | 0 <= i < |o| :: o[i] < 256
    ensures labels == DecimalLabels(o) <==> NoPlus(labels)
  {
    forall i | 0 <= i < |o|
      ensures o[i] < 256 && (labels[i] == Decimal(o[i]) <==> '+' !in labels[i])
    {
      assert OctetLabel(labels[i]) == Some(o[i]);
      OctetLabelIs(labels[i]);
    }
    LabelsSame(labels, o);
  }

  lemma LabelsSame(labels: seq<string>, o: seq<nat>)
    requires |o| == |labels|
    requires forall i | 0 <= i < |o| :: labels[i] == Decimal(o[i]) <==> '+' !in labels[i]
    ensures labels == DecimalLabels(o) <==> NoPlus(labels)
  {
    var written := DecimalLabels(o);
    if NoPlus(labels) {
      assert forall i | 0 <= i < |o| :: labels[i] == written[i];
    }
  }

  lemma PlusInJoin(labels: seq<string>)
    ensures NoPlus(labels) <==> '+' !in Join(labels, ".")
  {
    if '+' in Join(labels, ".") {
      JoinChars(labels, ".", '+');
      var l :| l in labels && '+' in l;
    } else if i :| 0 <= i < |labels| && '+' in labels[i] {
      JoinHolds(labels, ".", i, '+');
    }
  }

  lemma {:induction false} JoinHolds(parts: seq<string>, sep: string, i: nat, c: char)
    requires i < |parts| && c in parts[i]
    ensures c in Join(parts, sep)
    decreases |parts|
  {
    if |parts| > 1 && i > 0 {
      JoinHolds(parts[1..], sep, i - 1, c);
    }
  }

  lemma PlusKept(name: string)
    ensures '+' in name <==> '+' in Canonical(name)
  {
    var t := TrimEnd(name, '.');
    if '+' in name {
      var i :| 0 <= i < |name| && name[i] == '+';
      assert i < |t| && t[i] == name[i];
      assert Lower(t)[i] == '+';
    }
    if '+' in Canonical(name) {
      var i :| 0 <= i < |Lower(t)| && Lower(t)[i] == '+';
      assert t[i] == '+' && name[i] == t[i];
    }
  }

  lemma ReadLabelsAre(stem: string, ip: IpAddr)
    requires OctetsAddress(stem) == Some(ip)
    ensures ip.V4? && WellFormed(ip)
    ensures Split(stem, '.') == V4Labels(ip) <==> NoPlus(Split(stem, '.'))
  {
    var labels := Split(stem, '.');
    var o := All(labels, OctetLabel).value;
    OctetLabelsAre(labels, o);
    OctetsAre(o, ip);
  }

  lemma OctetsAre(o: seq<nat>, ip: IpAddr)
    requires |o| == 4 && (forall i | 0 <= i < |o| :: o[i] < 256) && ip == V4(o[3], o[2], o[1], o[0])
    ensures WellFormed(ip) && DecimalLabels(o) == V4Labels(ip)
  {
  }

  lemma ReadStem(stem: string, ip: IpAddr)
    requires OctetsAddress(stem) == Some(ip)
    ensures ip.V4? && WellFormed(ip)
    ensures stem + V4_SUFFIX == ReverseName(ip) <==> '+' !in stem
  {
    ReadLabelsAre(stem, ip);
    PlusInJoin(Split(stem, '.'));
    JoinSplit(stem, '.');
    WrittenStem(stem, Split(stem, '.'), ip);
  }

  lemma ReadV4IsWritten(n: string, stem: string, ip: IpAddr)
    requires n == stem + V4_SUFFIX && OctetsAddress(stem) == Some(ip)
    ensures ip.V4? && WellFormed(ip)
    ensures n == ReverseName(ip) <==> '+' !in n
  {
    ReadStem(stem, ip);
    assert '+' in n <==> '+' in stem by {
      PlusInSum(stem, V4_SUFFIX);
    }
  }

  lemma PlusInSum(a: string, b: string)
    requires '+' !in b
    ensures '+' in a + b <==> '+' in a
  {
  }

  lemma PlusInStem(n: string, suffix: string)
    requires EndsWith(n, suffix) && '+' !in suffix
    ensures Stem(n, suffix) + suffix == n
    ensures '+' in n <==> '+' in Stem(n, suffix)
  {
    assert n == Stem(n, suffix) + suffix;
  }

  lemma WrittenStem(stem: string, labels: seq<string>, ip: IpAddr)
    requires ip.V4? && labels == Split(stem, '.') && stem == Join(labels, ".")
    ensures stem + V4_SUFFIX == ReverseName(ip) <==> labels == V4Labels(ip)
  {
    var written := V4Labels(ip);
    forall l | l in written
      ensures '.' !in l
    {
      assert AllDigits(l);
    }
    SplitJoin(written, '.');
    StemOf(stem, V4_SUFFIX);
    StemOf(Join(written, "."), V4_SUFFIX);
  }

  lemma NibbleLabelIs(l: string)
    requires NibbleLabel(l).Some?
    ensures NibbleLabel(l).value < 16 && l == [HexDigit(NibbleLabel(l).value)] && '+' !in l
  {
  }

  lemma NibbleLabelsAre(labels: seq<string>, ns: seq<nat>)
    requires All(labels, NibbleLabel) == Some(ns)
    ensures |ns| == |labels| && (forall i | 0 <= i < |ns| :: ns[i] < 16) && labels == HexLabels(ns) && NoPlus(labels)
  {
    forall i | 0 <= i < |ns|
      ensures ns[i] < 16 && labels[i] == [HexDigit(ns[i])] && '+' !in labels[i]
    {
      NibbleLabelIs(labels[i]);
    }
  }

  lemma ReadV6Stem(stem: string, ip: IpAddr)
    requires NibblesAddress(stem) == Some(ip)
    ensures ip.V6? && WellFormed(ip) && stem + V6_SUFFIX == ReverseName(ip) && '+' !in stem
  {
    var labels := Split(stem, '.');
    var ns := All(labels, NibbleLabel).value;
    NibbleLabelsAre(labels, ns);
    FromLowRoundTrip(ns);
    Pow16Is();
    JoinSplit(stem, '.');
    PlusInJoin(labels);
  }

  lemma ReadV6IsWritten(n: string, ip: IpAddr)
    requires EndsWith(n, V6_SUFFIX) && NibblesAddress(Stem(n, V6_SUFFIX)) == Some(ip)
    ensures ip.V6? && WellFormed(ip) && n == ReverseName(ip) && '+' !in n
  {
    ReadV6Stem(Stem(n, V6_SUFFIX), ip);
    PlusInStem(n, V6_SUFFIX);
  }

  /**
   Writing undoes reading: a name that is read as an address is that address's
   written name up to letter case and trailing dots, exactly when it has no `+`.
   */
  lemma WritesWhatIsRead(name: string, ip: IpAddr)
    requires AddressOf(name) == Some(ip)
    ensures WellFormed(ip)
    ensures Canonical(name) == ReverseName(ip) <==> '+' !in name
  {
    PlusKept(name);
    if EndsWith(Canonical(name), V4_SUFFIX) {
      PlusInStem(Canonical(name), V4_SUFFIX);
      ReadV4IsWritten(Canonical(name), Stem(Canonical(name), V4_SUFFIX), ip);
    } else {
      ReadV6IsWritten(Canonical(name), ip);
    }
  }

  /** `+` before any IPv4 reverse name is read as the same address, though nothing writes it. */
  lemma PlusIsReadToo(ip: IpAddr)
    requires WellFormed(ip) && ip.V4?
    ensures AddressOf("+" + ReverseName(ip)) == Some(ip)
  {
    var stem := Join(PlusLabels(ip), ".");
    PlusStem(ip);
    PlusStemRead(ip);
    PlusCanonical(ip);
    StemOf(stem, V4_SUFFIX);
  }

  lemma PlusStemRead(ip: IpAddr)
    requires WellFormed(ip) && ip.V4?
    ensures OctetsAddress(Join(PlusLabels(ip), ".")) == Some(ip)
  {
    PlusLabelsRead(ip);
    SplitJoin(PlusLabels(ip), '.');
  }

  function PlusLabels(ip: IpAddr): seq<string>
    requires ip.V4?
  {
    ["+" + Decimal(ip.d), Decimal(ip.c), Decimal(ip.b), Decimal(ip.a)]
  }

  lemma PlusStem(ip: IpAddr)
    requires ip.V4?
    ensures Join(PlusLabels(ip), ".") + V4_SUFFIX == "+" + ReverseName(ip)
  {
    JoinFour(Decimal(ip.d), Decimal(ip.c), Decimal(ip.b), Decimal(ip.a));
    JoinFour("+" + Decimal(ip.d), Decimal(ip.c), Decimal(ip.b), Decimal(ip.a));
    assert Join(PlusLabels(ip), ".") == "+" + Join(V4Labels(ip), ".");
  }

  lemma PlusCanonical(ip: IpAddr)
    requires ip.V4?
    ensures Canonical("+" + ReverseName(ip)) == "+" + ReverseName(ip)
  {
    forall l | l in PlusLabels(ip)
      ensures IsLower(l)
    {
      assert AllDigits(Decimal(ip.d)) && (l != PlusLabels(ip)[0] ==> AllDigits(l));
    }
    JoinedLower(PlusLabels(ip), V4_SUFFIX);
    PlusStem(ip);
    CanonicalOf("+" + ReverseName(ip));
  }

  lemma PlusLabel(n: nat)
    requires n < 256
    ensures OctetLabel("+" + Decimal(n)) == Some(n) && '.' !in "+" + Decimal(n)
  {
    var l := "+" + Decimal(n);
    assert l[0] == '+' && l[1..] == Decimal(n);
    DecimalRoundTrip(n);
  }

  lemma PlusLabelsRead(ip: IpAddr)
    requires ip.V4? && WellFormed(ip)
    ensures All(PlusLabels(ip), OctetLabel) == Some([ip.d, ip.c, ip.b, ip.a])
    ensures forall l | l in PlusLabels(ip) :: '.' !in l
  {
    OctetRoundTrip(ip.a);
    OctetRoundTrip(ip.b);
    OctetRoundTrip(ip.c);
    PlusLabel(ip.d);
    FourOctets(PlusLabels(ip), [ip.d, ip.c, ip.b, ip.a]);
  }

  lemma FourOctets(labels: seq<string>, o: seq<nat>)
    requires |labels| == |o| && forall i | 0 <= i < |o| :: OctetLabel(labels[i]) == Some(o[i])
    ensures All(labels, OctetLabel) == Some(o)
  {
    assert All(labels, OctetLabel).value == o;
  }
}
