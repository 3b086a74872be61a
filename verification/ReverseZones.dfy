/**
 Reverse zones: the zone of a network prefix, which names lie under it, and the
 zone `default_reverse_zone` creates for an address.
 */
module ReverseZones {
  import opened Addresses
  import opened Text
  import opened ReverseNames

  // ---- Names and their labels -------------------------------------------------------

  lemma SplitAppend(u: string, t: string)
    ensures Split(u + "." + t, '.') == Split(u, '.') + Split(t, '.')
  {
    JoinSplit(u, '.');
    JoinSplit(t, '.');
    SplitParts(u, '.');
    SplitParts(t, '.');
    JoinAppend(Split(u, '.'), Split(t, '.'), ".");
    SplitJoin(Split(u, '.') + Split(t, '.'), '.');
  }

  /** `zone` is `owner` or a name above it. */
  predicate Covers(owner: string, zone: string) {
    owner == zone || EndsWith(owner, "." + zone)
  }

  predicate TailOf(part: seq<string>, whole: seq<string>) {
    |part| <= |whole| && whole[|whole| - |part|..] == part
  }

  /** A zone covers a name exactly when its labels are the last labels of the name. */
  lemma CoversByLabels(owner: string, zone: string)
    ensures Covers(owner, zone) <==> TailOf(Split(zone, '.'), Split(owner, '.'))
  {
    if owner == zone {
      return;
    }
    if EndsWith(owner, "." + zone) {
      CoverHasLabels(owner, zone);
    }
    if TailOf(Split(zone, '.'), Split(owner, '.')) {
      LabelsCover(owner, zone);
    }
  }

  lemma CoverHasLabels(owner: string, zone: string)
    requires EndsWith(owner, "." + zone)
    ensures TailOf(Split(zone, '.'), Split(owner, '.'))
  {
    var u := owner[..|owner| - |zone| - 1];
    assert owner == u + "." + zone by {
      assert owner == u + owner[|owner| - |zone| - 1..];
    }
    SplitAppend(u, zone);
    TailOfSum(Split(u, '.'), Split(zone, '.'));
  }

  lemma TailOfSum(a: seq<string>, b: seq<string>)
    ensures TailOf(b, a + b)
  {
  }

  lemma LabelsCover(owner: string, zone: string)
    requires owner != zone && TailOf(Split(zone, '.'), Split(owner, '.'))
    ensures EndsWith(owner, "." + zone)
  {
    JoinSplit(owner, '.');
    JoinSplit(zone, '.');
    JoinedBehind(Split(owner, '.'), Split(zone, '.'));
  }

  /** A list of labels that ends with another, joined. */
  lemma JoinedBehind(o: seq<string>, z: seq<string>)
    requires z != [] && TailOf(z, o) && o != z
    ensures EndsWith(Join(o, "."), "." + Join(z, "."))
  {
    var head := o[..|o| - |z|];
    assert o == head + z;
    assert head != [];
    JoinAppend(head, z, ".");
    EndAfterDot(Join(head, "."), Join(z, "."));
  }

  lemma EndAfterDot(a: string, b: string)
    ensures EndsWith(a + "." + b, "." + b)
  {
    assert a + "." + b == a + ("." + b);
  }

  // ---- The labels of a reverse name --------------------------------------------------

  function HostLabels(ip: IpAddr): (labels: seq<string>)
    ensures |labels| == if ip.V4? then 4 else 32
  {
    match ip
    case V4(_, _, _, _) => V4Labels(ip)
    case V6(v) => HexLabels(NibblesLow(v, 32))
  }

  function FamilyLabels(ip: IpAddr): (labels: seq<string>)
    ensures |labels| == 2
  {
    if ip.V4? then ["in-addr", "arpa"] else ["ip6", "arpa"]
  }

  function NameLabels(ip: IpAddr): seq<string> {
    HostLabels(ip) + FamilyLabels(ip)
  }

  lemma NoDots(ip: IpAddr)
    ensures forall l | l in NameLabels(ip) :: '.' !in l
  {
    forall l | l in HostLabels(ip)
      ensures '.' !in l
    {
      if ip.V4? {
        assert AllDigits(l);
      } else {
        assert IsHex(l[0]);
      }
    }
  }

  lemma FamilyText(ip: IpAddr)
    ensures "." + Join(FamilyLabels(ip), ".") == if ip.V4? then V4_SUFFIX else V6_SUFFIX
  {
    assert FamilyLabels(ip)[1..] == ["arpa"];
  }

  /** A reverse name is its labels joined. */
  lemma NameIs(ip: IpAddr)
    ensures Join(NameLabels(ip), ".") == ReverseName(ip)
    ensures Split(ReverseName(ip), '.') == NameLabels(ip)
  {
    NameIsJoined(ip);
    NoDots(ip);
    SplitJoin(NameLabels(ip), '.');
  }

  lemma NameIsJoined(ip: IpAddr)
    ensures Join(NameLabels(ip), ".") == ReverseName(ip)
  {
    FamilyText(ip);
    JoinedWith(HostLabels(ip), FamilyLabels(ip), if ip.V4? then V4_SUFFIX else V6_SUFFIX);
  }

  lemma JoinedWith(host: seq<string>, family: seq<string>, suffix: string)
    requires host != [] && family != [] && "." + Join(family, ".") == suffix
    ensures Join(host + family, ".") == Join(host, ".") + suffix
  {
    JoinAppend(host, family, ".");
  }

  // ---- The zone of a prefix -------------------------------------------------------------

  predicate LabelCount(ip: IpAddr, k: nat) {
    k <= if ip.V4? then 4 else 32
  }

  /** The zone of the network of `ip` that leaves out its last `k` labels' worth of bits. */
  function PrefixZone(ip: IpAddr, k: nat): string
    requires LabelCount(ip, k)
  {
    Join(NameLabels(ip)[k..], ".")
  }

  /** `v` without its `k` lowest nibbles. */
  function Shifted(v: nat, k: nat): nat
    decreases k
  {
    if k == 0 then v else Shifted(v / 16, k - 1)
  }

  /** Both addresses are in the same network once the lowest `k` octets (or nibbles) are left out. */
  predicate SameNetwork(ip: IpAddr, other: IpAddr, k: nat) {
    match (ip, other)
    case (V4(a, b, c, d), V4(a', b', c', d')) =>
      (k <= 3 ==> a == a') && (k <= 2 ==> b == b') && (k <= 1 ==> c == c') && (k == 0 ==> d == d')
    case (V6(v), V6(w)) => Shifted(v, k) == Shifted(w, k)
    case (_, _) => false
  }

  lemma PrefixLabels(ip: IpAddr, k: nat)
    requires LabelCount(ip, k)
    ensures Split(PrefixZone(ip, k), '.') == NameLabels(ip)[k..]
  {
    NoDots(ip);
    SplitJoin(NameLabels(ip)[k..], '.');
  }

  lemma {:induction false} NibblesTail(v: nat, n: nat, k: nat)
    requires k <= n
    ensures NibblesLow(v, n)[k..] == NibblesLow(Shifted(v, k), n - k)
    decreases k
  {
    if k > 0 {
      NibblesTail(v / 16, n - 1, k - 1);
      assert NibblesLow(v, n)[k..] == NibblesLow(v / 16, n - 1)[k - 1..];
    }
  }

  lemma {:induction false} ShiftedBound(v: nat, n: nat, k: nat)
    requires k <= n && v < Pow16(n)
    ensures Shifted(v, k) < Pow16(n - k)
    decreases k
  {
    if k > 0 {
      ShiftedBound(v / 16, n - 1, k - 1);
    }
  }

  /** The labels of the `m` lowest nibbles of `x`, which has no more than those. */
  predicate IsTail(ls: seq<string>, x: nat, m: nat) {
    x < Pow16(m) && ls == HexLabels(NibblesLow(x, m))
  }

  lemma SameHexLabels(a: seq<nat>, b: seq<nat>)
    requires |a| == |b|
    requires forall i | 0 <= i < |a| :: a[i] < 16 && b[i] < 16
    requires HexLabels(a) == HexLabels(b)
    ensures a == b
  {
    forall i | 0 <= i < |a|
      ensures a[i] == b[i]
    {
      assert HexLabels(a)[i] == HexLabels(b)[i];
      HexRoundTrip(a[i]);
      HexRoundTrip(b[i]);
    }
  }

  lemma TailsDiffer(a: seq<string>, b: seq<string>, x: nat, y: nat, m: nat)
    requires IsTail(a, x, m) && IsTail(b, y, m)
    ensures a == b <==> x == y
  {
    if a == b {
      SameHexLabels(NibblesLow(x, m), NibblesLow(y, m));
      NibblesRoundTrip(x, m);
      NibblesRoundTrip(y, m);
    }
  }

  lemma TailLabels(v: nat, n: nat, k: nat) returns (tail: seq<string>)
    requires k <= n && v < Pow16(n)
    ensures tail == HexLabels(NibblesLow(v, n))[k..] && IsTail(tail, Shifted(v, k), n - k)
  {
    NibblesTail(v, n, k);
    ShiftedBound(v, n, k);
    var ns := NibblesLow(v, n);
    tail := HexLabels(ns[k..]);
    assert HexLabels(ns)[k..] == tail;
  }

  lemma V6LabelsAgree(v: nat, w: nat, n: nat, k: nat)
    requires k <= n && v < Pow16(n) && w < Pow16(n)
    ensures HexLabels(NibblesLow(v, n))[k..] == HexLabels(NibblesLow(w, n))[k..] <==> Shifted(v, k) == Shifted(w, k)
  {
    var a := TailLabels(v, n, k);
    var b := TailLabels(w, n, k);
    TailsDiffer(a, b, Shifted(v, k), Shifted(w, k), n - k);
  }

  lemma DecimalsDiffer(x: nat, y: nat)
    ensures Decimal(x) == Decimal(y) <==> x == y
  {
    DecimalRoundTrip(x);
    DecimalRoundTrip(y);
  }

  lemma V4LabelsAgree(ip: IpAddr, other: IpAddr, k: nat)
    requires ip.V4? && other.V4? && k <= 4
    ensures V4Labels(ip)[k..] == V4Labels(other)[k..] <==> SameNetwork(ip, other, k)
  {
    DecimalsDiffer(ip.a, other.a);
    DecimalsDiffer(ip.b, other.b);
    DecimalsDiffer(ip.c, other.c);
    DecimalsDiffer(ip.d, other.d);
    var x, y := V4Labels(ip)[k..], V4Labels(other)[k..];
    if x == y {
      assert forall i | k <= i < 4 :: V4Labels(ip)[i] == x[i - k] == y[i - k] == V4Labels(other)[i];
    }
  }

  lemma HostLabelsAgree(ip: IpAddr, other: IpAddr, k: nat)
    requires WellFormed(ip) && WellFormed(other) && LabelCount(ip, k) && LabelCount(other, k)
    requires ip.V4? == other.V4?
    ensures HostLabels(ip)[k..] == HostLabels(other)[k..] <==> SameNetwork(ip, other, k)
  {
    if ip.V4? {
      V4LabelsAgree(ip, other, k);
    } else {
      Pow16Is();
      V6LabelsAgree(ip.value, other.value, 32, k);
    }
  }

  lemma TailsOfSums(a: seq<string>, b: seq<string>, c: seq<string>, k: nat)
    requires |a| == |b| && k <= |a|
    ensures (a + c)[k..] == (b + c)[k..] <==> a[k..] == b[k..]
  {
    assert (a + c)[k..] == a[k..] + c && (b + c)[k..] == b[k..] + c;
    assert (a[k..] + c)[..|a| - k] == a[k..] && (b[k..] + c)[..|a| - k] == b[k..];
  }

  lemma LabelsAgree(ip: IpAddr, other: IpAddr, k: nat)
    requires WellFormed(ip) && WellFormed(other) && LabelCount(ip, k) && LabelCount(other, k)
    requires ip.V4? == other.V4?
    ensures NameLabels(ip)[k..] == NameLabels(other)[k..] <==> SameNetwork(ip, other, k)
  {
    HostLabelsAgree(ip, other, k);
    TailsOfSums(HostLabels(ip), HostLabels(other), FamilyLabels(ip), k);
  }

  /** The families' names are apart: no zone of one covers a name of the other. */
  lemma FamiliesApart(ip: IpAddr, other: IpAddr, k: nat)
    requires LabelCount(ip, k) && ip.V4? != other.V4?
    ensures !Covers(ReverseName(other), PrefixZone(ip, k))
  {
    ZoneCoversByLabels(ip, other, k);
    TailsApart(ip, other, k);
  }

  lemma TailsApart(ip: IpAddr, other: IpAddr, k: nat)
    requires LabelCount(ip, k) && ip.V4? != other.V4?
    ensures !TailOf(NameLabels(ip)[k..], NameLabels(other))
  {
    FamilyAt(ip, k);
    FamilyAt(other, 0);
    assert NameLabels(other)[0..] == NameLabels(other);
    FamiliesDiffer(ip, other);
    SecondLast(NameLabels(ip)[k..], NameLabels(other), FamilyLabels(ip)[0], FamilyLabels(other)[0]);
  }

  lemma FamiliesDiffer(ip: IpAddr, other: IpAddr)
    requires ip.V4? != other.V4?
    ensures FamilyLabels(ip)[0] != FamilyLabels(other)[0]
  {
    assert |FamilyLabels(ip)[0]| != |FamilyLabels(other)[0]|;
  }

  lemma FamilyAt(ip: IpAddr, k: nat)
    requires LabelCount(ip, k)
    ensures var z := NameLabels(ip)[k..]; |z| >= 2 && z[|z| - 2] == FamilyLabels(ip)[0]
  {
    assert NameLabels(ip)[k..] == HostLabels(ip)[k..] + FamilyLabels(ip);
  }

  lemma SecondLast(part: seq<string>, whole: seq<string>, x: string, y: string)
    requires |part| >= 2 && |whole| >= 2 && part[|part| - 2] == x && whole[|whole| - 2] == y
    requires x != y
    ensures !TailOf(part, whole)
  {
  }

  /** A prefix's zone covers the names of exactly the addresses with that prefix. */
  lemma PrefixZoneCoversExactly(ip: IpAddr, other: IpAddr, k: nat)
    requires WellFormed(ip) && WellFormed(other) && LabelCount(ip, k)
    ensures Covers(ReverseName(other), PrefixZone(ip, k)) <==> SameNetwork(ip, other, k)
  {
    if ip.V4? != other.V4? {
      FamiliesApart(ip, other, k);
    } else {
      ZoneCoversByLabels(ip, other, k);
      LabelsAgree(ip, other, k);
      TailsAgree(NameLabels(ip), NameLabels(other), k);
    }
  }

  lemma ZoneCoversByLabels(ip: IpAddr, other: IpAddr, k: nat)
    requires LabelCount(ip, k)
    ensures Covers(ReverseName(other), PrefixZone(ip, k)) <==> TailOf(NameLabels(ip)[k..], NameLabels(other))
  {
    NameIs(other);
    PrefixLabels(ip, k);
    CoversByLabels(ReverseName(other), PrefixZone(ip, k));
  }

  lemma TailsAgree(a: seq<string>, b: seq<string>, k: nat)
    requires |a| == |b| && k <= |a|
    ensures TailOf(a[k..], b) <==> a[k..] == b[k..]
  {
  }

  // ---- The default zone ------------------------------------------------------------------

  /** What follows the first dot. */
  function BehindDot(s: string): Option<string> {
    if s == "" then None else if s[0] == '.' then Some(s[1..]) else BehindDot(s[1..])
  }

  /** What follows the `k`-th dot. */
  function AfterDots(s: string, k: nat): Option<string>
    decreases k
  {
    if k == 0 then Some(s)
    else
      match BehindDot(s)
      case None => None
      case Some(rest) => AfterDots(rest, k - 1)
  }

  /** One label, with the dot behind it. */
  lemma {:induction false} BehindLabel(part: string, rest: string)
    requires '.' !in part
    ensures BehindDot(part + "." + rest) == Some(rest)
    decreases |part|
  {
    var s := part + "." + rest;
    if part == "" {
      assert s[1..] == rest;
    } else {
      assert s[1..] == part[1..] + "." + rest && s[0] == part[0];
      BehindLabel(part[1..], rest);
    }
  }

  lemma AfterFirst(parts: seq<string>)
    requires |parts| >= 2 && '.' !in parts[0]
    ensures BehindDot(Join(parts, ".")) == Some(Join(parts[1..], "."))
  {
    BehindLabel(parts[0], Join(parts[1..], "."));
  }

  predicate DotFree(parts: seq<string>) {
    forall i | 0 <= i < |parts| :: '.' !in parts[i]
  }

  lemma RestDotFree(parts: seq<string>, k: nat)
    requires DotFree(parts) && 0 < k < |parts|
    ensures DotFree(parts[1..]) && '.' !in parts[0] && parts[1..][k - 1..] == parts[k..]
  {
    assert forall i | 0 <= i < |parts| - 1 :: parts[1..][i] == parts[i + 1];
  }

  lemma {:induction false} AfterDotsIs(parts: seq<string>, k: nat)
    requires k < |parts| && DotFree(parts)
    ensures AfterDots(Join(parts, "."), k) == Some(Join(parts[k..], "."))
    decreases k
  {
    if k == 0 {
      assert parts[0..] == parts;
    } else {
      RestDotFree(parts, k);
      AfterFirst(parts);
      AfterDotsIs(parts[1..], k - 1);
    }
  }

  /** How many labels the default zone leaves out: the /24 or the /64. */
  function HostPart(ip: IpAddr): nat {
    if ip.V4? then 1 else 16
  }

  function DefaultReverseZone(ip: IpAddr): string {
    var owner := ReverseName(ip);
    match AfterDots(owner, HostPart(ip))
    case Some(zone) => zone
    case None => owner
  }

  /** The default zone is the zone of the /24 or /64. */
  lemma DefaultZoneIsPrefix(ip: IpAddr)
    ensures DefaultReverseZone(ip) == PrefixZone(ip, HostPart(ip))
  {
    NameIs(ip);
    NoDots(ip);
    assert DotFree(NameLabels(ip));
    AfterDotsIs(NameLabels(ip), HostPart(ip));
  }

  /** It covers the address it was made for, and exactly the addresses of that /24 or /64. */
  lemma DefaultZoneCoversExactly(ip: IpAddr, other: IpAddr)
    requires WellFormed(ip) && WellFormed(other)
    ensures Covers(ReverseName(ip), DefaultReverseZone(ip))
    ensures Covers(ReverseName(other), DefaultReverseZone(ip)) <==> SameNetwork(ip, other, HostPart(ip))
  {
    DefaultZoneIsPrefix(ip);
    PrefixZoneCoversExactly(ip, ip, HostPart(ip));
    PrefixZoneCoversExactly(ip, other, HostPart(ip));
  }
}
