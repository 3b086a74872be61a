/**
 The console's reverse-zone helpers: they read an address or a network as an
 operator types it and write its reverse name or zone.
 */
module ReverseZoneText {
  import opened Addresses
  import opened Text
  import opened ReverseNames
  import opened ReverseZones

  // ---- Hexadecimal groups ---------------------------------------------------------------

  predicate AnyHex(c: char) {
    IsHex(LowerChar(c))
  }

  predicate HexText(s: string) {
    forall i | 0 <= i < |s| :: AnyHex(s[i])
  }

  predicate HexDigits(s: string) {
    forall i | 0 <= i < |s| :: IsHex(s[i])
  }

  /** One group of an IPv6 address: one to four hexadecimal digits of either case. */
  predicate IsGroup(g: string) {
    1 <= |g| <= 4 && HexText(g)
  }

  predicate AllGroups(gs: seq<string>) {
    forall i | 0 <= i < |gs| :: IsGroup(gs[i])
  }

  /** Lowercase and padded with zeros to four digits. */
  function Padded(g: string): (s: string)
    requires IsGroup(g)
    ensures |s| == 4 && HexDigits(s)
  {
    seq(4 - |g|, _ => '0') + Lower(g)
  }

  function Flatten(gs: seq<string>): (s: string)
    requires AllGroups(gs)
    ensures |s| == 4 * |gs| && HexDigits(s)
  {
    if gs == [] then "" else Flatten(gs[..|gs| - 1]) + Padded(gs[|gs| - 1])
  }

  // ---- Reading an IPv6 address --------------------------------------------------------------

  /** Index of the first `::`, or the length. */
  function PairAt(s: string): (i: nat)
    ensures i <= |s|
    ensures i < |s| ==> i + 1 < |s| && s[i] == ':' && s[i + 1] == ':'
  {
    if |s| < 2 then |s|
    else if s[0] == ':' && s[1] == ':' then 0
    else PairAt(s[1..]) + 1
  }

  function Pieces(s: string): seq<string> {
    if s == "" then [] else Split(s, ':')
  }

  function Zeros(n: nat): (gs: seq<string>)
    ensures |gs| == n && AllGroups(gs)
  {
    seq(n, _ => "0")
  }

  predicate AddressChars(s: string) {
    s != "" && forall i | 0 <= i < |s| :: AnyHex(s[i]) || s[i] == ':'
  }

  /** The nibbles of the groups before and after a `::`, which stands for at least one group. */
  function NibblesAround(left: seq<string>, right: seq<string>): (r: Option<string>)
    ensures r.Some? ==> |r.value| == 32 && HexDigits(r.value)
  {
    if |left| + |right| > 7 then None
    else
      var groups := left + Zeros(8 - |left| - |right|) + right;
      if AllGroups(groups) then Some(Flatten(groups)) else None
  }

  function NibblesOfAll(groups: seq<string>): (r: Option<string>)
    ensures r.Some? ==> |r.value| == 32 && HexDigits(r.value)
  {
    if |groups| == 8 && AllGroups(groups) then Some(Flatten(groups)) else None
  }

  function Ipv6Nibbles(addr: string): (r: Option<string>)
    ensures r.Some? ==> |r.value| == 32 && HexDigits(r.value)
  {
    var i := PairAt(addr);
    if !AddressChars(addr) then None
    else if i == |addr| then NibblesOfAll(Pieces(addr))
    else if PairAt(addr[i + 2..]) < |addr| - i - 2 then None
    else NibblesAround(Pieces(addr[..i]), Pieces(addr[i + 2..]))
  }

  // ---- Zone and record names -----------------------------------------------------------------

  datatype ZoneText = NotCidr | Zone(name: string) | Bad

  /** One to three digits. */
  predicate ShortNumber(s: string) {
    1 <= |s| <= 3 && AllDigits(s)
  }

  predicate IsOctet(s: string) {
    ShortNumber(s) && DecimalValue(s) <= 255
  }

  predicate AllOctets(os: seq<string>) {
    forall i | 0 <= i < |os| :: IsOctet(os[i])
  }

  function Letters(s: string): (labels: seq<string>)
    ensures |labels| == |s| && forall i | 0 <= i < |s| :: labels[i] == [s[i]]
  {
    seq(|s|, i requires 0 <= i < |s| => [s[i]])
  }

  function Numbers(os: seq<string>): (labels: seq<string>)
    requires AllOctets(os)
    ensures |labels| == |os| && forall i | 0 <= i < |os| :: labels[i] == Decimal(DecimalValue(os[i]))
  {
    seq(|os|, i requires 0 <= i < |os| => Decimal(DecimalValue(os[i])))
  }

  function ZoneOfV6(addr: string, prefix: nat): ZoneText {
    match Ipv6Nibbles(addr)
    case None => Bad
    case Some(nibbles) =>
      if prefix < 4 || prefix > 128 || prefix % 4 != 0 then Bad
      else Zone(Join(Letters(Reverse(nibbles[..prefix / 4])), ".") + V6_SUFFIX)
  }

  function ZoneOfV4(addr: string, prefix: nat): ZoneText {
    var octets := Split(addr, '.');
    if |octets| != 4 || !AllOctets(octets) then Bad
    else if prefix == 8 || prefix == 16 || prefix == 24 || prefix == 32 then
      Zone(Join(Reverse(Numbers(octets[..prefix / 8])), ".") + V4_SUFFIX)
    else Bad
  }

  function ReverseZoneName(input: string): ZoneText {
    var text := Trim(input);
    var slash := IndexOf(text, '/');
    if slash == |text| then NotCidr
    else
      var addr, prefix := text[..slash], text[slash + 1..];
      if !ShortNumber(prefix) then Bad
      else if ':' in addr then ZoneOfV6(addr, DecimalValue(prefix))
      else ZoneOfV4(addr, DecimalValue(prefix))
  }

  function ReverseRecordName(address: string): Option<string> {
    var text := Trim(address);
    if text == "" || '/' in text then None
    else
      match ReverseZoneName(text + (if ':' in text then "/128" else "/32"))
      case Zone(name) => Some(name)
      case _ => None
  }

  function DefaultReverseZoneOf(owner: string): string {
    var labels := Split(owner, '.');
    var k := if EndsWith(owner, V4_SUFFIX) then 1 else 16;
    if k <= |labels| then Join(labels[k..], ".") else ""
  }

  // ---- Address texts ---------------------------------------------------------------------------

  /** An IPv6 text: eight groups, or groups around one `::`. */
  datatype V6Text =
    | Full(groups: seq<string>)
    | Compressed(head: seq<string>, tail: seq<string>)

  predicate ValidText(t: V6Text) {
    match t
    case Full(gs) => |gs| == 8 && AllGroups(gs)
    case Compressed(head, tail) => |head| + |tail| <= 7 && AllGroups(head) && AllGroups(tail)
  }

  function Render(t: V6Text): string {
    match t
    case Full(gs) => Join(gs, ":")
    case Compressed(head, tail) => Join(head, ":") + "::" + Join(tail, ":")
  }

  /** The eight groups a text stands for. */
  function Expanded(t: V6Text): (gs: seq<string>)
    requires ValidText(t)
    ensures |gs| == 8 && AllGroups(gs)
  {
    match t
    case Full(gs) => gs
    case Compressed(head, tail) => head + Zeros(8 - |head| - |tail|) + tail
  }

  function HexNumber(s: string): nat
    requires HexText(s)
  {
    if s == "" then 0
    else
      assert AnyHex(s[|s| - 1]);
      16 * HexNumber(s[..|s| - 1]) + HexValue(LowerChar(s[|s| - 1]))
  }

  /** The number whose 16-bit groups these are, the highest first. */
  function GroupsValue(gs: seq<string>): nat
    requires AllGroups(gs)
  {
    if gs == [] then 0 else 0x1_0000 * GroupsValue(gs[..|gs| - 1]) + HexNumber(gs[|gs| - 1])
  }

  function AddressOfText(t: V6Text): IpAddr
    requires ValidText(t)
  {
    V6(GroupsValue(Expanded(t)))
  }

  predicate ValidOctets(os: seq<string>) {
    |os| == 4 && AllOctets(os)
  }

  function AddressOfOctets(os: seq<string>): IpAddr
    requires ValidOctets(os)
  {
    V4(DecimalValue(os[0]), DecimalValue(os[1]), DecimalValue(os[2]), DecimalValue(os[3]))
  }

  /** `text` is a way to write `ip`. */
  ghost predicate Denotes(text: string, ip: IpAddr) {
    || (exists t :: ValidText(t) && Render(t) == text && AddressOfText(t) == ip)
    || (exists os :: ValidOctets(os) && Join(os, ".") == text && AddressOfOctets(os) == ip)
  }

  // ---- Values of digits ---------------------------------------------------------------------------

  lemma DigitsAreText(s: string)
    requires HexDigits(s)
    ensures HexText(s)
  {
    forall i | 0 <= i < |s|
      ensures AnyHex(s[i])
    {
      assert IsHex(s[i]) && LowerChar(s[i]) == s[i];
    }
  }

  lemma {:induction false} HexNumberAppend(a: string, b: string)
    requires HexText(a) && HexText(b)
    ensures HexText(a + b)
    ensures HexNumber(a + b) == HexNumber(a) * Pow16(|b|) + HexNumber(b)
    decreases |b|
  {
    var n := |b| - 1;
    if b == "" {
      assert a + b == a;
    } else {
      var x := HexNumber(a);
      HexNumberAppend(a, b[..n]);
      assert HexText(a + b);
      assert (a + b)[..|a + b| - 1] == a + b[..n] && (a + b)[|a + b| - 1] == b[n];
      Shift(x, Pow16(n), HexNumber(b[..n]));
    }
  }

  lemma Shift(x: nat, p: nat, y: nat)
    ensures 16 * (x * p + y) == x * (16 * p) + 16 * y
  {
  }

  lemma {:induction false} LowerKeepsNumber(s: string)
    requires HexText(s)
    ensures HexText(Lower(s))
    ensures HexNumber(Lower(s)) == HexNumber(s)
    decreases |s|
  {
    if s != "" {
      var n := |s| - 1;
      LowerKeepsNumber(s[..n]);
      assert Lower(s)[..n] == Lower(s[..n]);
      assert LowerChar(LowerChar(s[n])) == LowerChar(s[n]);
    }
  }

  lemma {:induction false} ZeroDigits(n: nat)
    ensures HexText(seq(n, _ => '0')) && HexNumber(seq(n, _ => '0')) == 0
    decreases n
  {
    var s := seq(n, _ => '0');
    if n > 0 {
      ZeroDigits(n - 1);
      assert s[..n - 1] == seq(n - 1, _ => '0');
    }
  }

  lemma PaddedKeepsNumber(g: string)
    requires IsGroup(g)
    ensures HexText(Padded(g)) && HexNumber(Padded(g)) == HexNumber(g)
  {
    LowerKeepsNumber(g);
    ZeroDigits(4 - |g|);
    HexNumberAppend(seq(4 - |g|, _ => '0'), Lower(g));
  }

  lemma {:induction false} FlattenValue(gs: seq<string>)
    requires AllGroups(gs)
    ensures HexText(Flatten(gs)) && HexNumber(Flatten(gs)) == GroupsValue(gs)
    decreases |gs|
  {
    DigitsAreText(Flatten(gs));
    if gs != [] {
      var n := |gs| - 1;
      FlattenValue(gs[..n]);
      PaddedKeepsNumber(gs[n]);
      HexNumberAppend(Flatten(gs[..n]), Padded(gs[n]));
      assert Pow16(4) == 0x1_0000;
    }
  }

  function Values(s: string): (ns: seq<nat>)
    requires HexDigits(s)
    ensures |ns| == |s| && forall i | 0 <= i < |s| :: ns[i] == HexValue(s[i])
  {
    seq(|s|, i requires 0 <= i < |s| => HexValue(s[i]))
  }

  /** Digits read from the last one up are the number. */
  lemma {:induction false} ReversedValue(s: string)
    requires HexDigits(s)
    ensures HexText(s) && FromLow(Reverse(Values(s))) == HexNumber(s)
    decreases |s|
  {
    DigitsAreText(s);
    if s != "" {
      var n := |s| - 1;
      ReversedValue(s[..n]);
      assert Reverse(Values(s))[1..] == Reverse(Values(s[..n]));
      assert LowerChar(s[n]) == s[n];
    }
  }

  /** The letters of hexadecimal digits, the last first, are the labels of their number. */
  lemma LettersAreLabels(s: string)
    requires HexDigits(s)
    ensures HexText(s) && Letters(Reverse(s)) == HexLabels(NibblesLow(HexNumber(s), |s|))
    ensures HexNumber(s) < Pow16(|s|)
  {
    var ns := Reverse(Values(s));
    ReversedValue(s);
    FromLowRoundTrip(ns);
    LettersOfValues(s, ns);
  }

  lemma LettersOfValues(s: string, ns: seq<nat>)
    requires HexDigits(s) && ns == Reverse(Values(s))
    ensures (forall i | 0 <= i < |ns| :: ns[i] < 16) && Letters(Reverse(s)) == HexLabels(ns)
  {
    forall i | 0 <= i < |ns|
      ensures ns[i] < 16 && Letters(Reverse(s))[i] == [HexDigit(ns[i])]
    {
      assert ns[i] == HexValue(s[|s| - 1 - i]);
    }
  }

  // ---- Reading an IPv6 text ---------------------------------------------------------------------

  lemma {:induction false} PairAtIs(s: string, i: nat)
    requires i + 1 < |s| && s[i] == ':' && s[i + 1] == ':'
    requires forall j | 0 <= j < i :: Apart(s, j)
    ensures PairAt(s) == i
    decreases i
  {
    if i > 0 {
      assert Apart(s, 0);
      forall j | 0 <= j < i - 1
        ensures Apart(s[1..], j)
      {
        assert Apart(s, j + 1);
      }
      PairAtIs(s[1..], i - 1);
    }
  }

  /** No `::` at `j`. */
  predicate Apart(s: string, j: nat) {
    j + 1 < |s| ==> s[j] != ':' || s[j + 1] != ':'
  }

  lemma {:induction false} NoPair(s: string)
    requires forall j | 0 <= j < |s| :: Apart(s, j)
    ensures PairAt(s) == |s|
    decreases |s|
  {
    if |s| >= 2 {
      assert Apart(s, 0);
      forall j | 0 <= j < |s| - 1
        ensures Apart(s[1..], j)
      {
        assert Apart(s, j + 1);
      }
      NoPair(s[1..]);
    }
  }

  /** Joined groups hold no `::`, start and end with a digit. */
  lemma {:induction false} JoinedGroups(gs: seq<string>)
    requires AllGroups(gs)
    ensures var s := Join(gs, ":");
      && (s == "" <==> gs == [])
      && (forall j | 0 <= j < |s| :: Apart(s, j) && (AnyHex(s[j]) || s[j] == ':'))
      && (s != "" ==> AnyHex(s[0]) && AnyHex(s[|s| - 1]))
    decreases |gs|
  {
    if |gs| > 1 {
      var rest := Join(gs[1..], ":");
      JoinedGroups(gs[1..]);
      var s := gs[0] + ":" + rest;
      var n := |gs[0]|;
      assert IsGroup(gs[0]) && !AnyHex(':');
      assert s[n] == ':' && s[n + 1] == rest[0];
      forall j | 0 <= j < |s|
        ensures Apart(s, j) && (AnyHex(s[j]) || s[j] == ':')
      {
        if j < n {
          assert s[j] == gs[0][j];
        } else if j > n {
          assert s[j] == rest[j - n - 1];
          assert Apart(rest, j - n - 1);
        }
      }
    } else if |gs| == 1 {
      assert IsGroup(gs[0]) && !AnyHex(':');
      var s := gs[0];
      forall j | 0 <= j < |s|
        ensures Apart(s, j)
      {
      }
    }
  }

  lemma PiecesOfGroups(gs: seq<string>)
    requires AllGroups(gs)
    ensures Pieces(Join(gs, ":")) == gs
  {
    JoinedGroups(gs);
    if gs != [] {
      forall g | g in gs
        ensures ':' !in g
      {
        assert IsGroup(g) && !AnyHex(':');
      }
      SplitJoin(gs, ':');
    }
  }

  lemma PairInRender(head: seq<string>, tail: seq<string>)
    requires AllGroups(head) && AllGroups(tail)
    ensures var h, s := Join(head, ":"), Render(Compressed(head, tail));
      PairAt(s) == |h| && s[..|h|] == h && s[|h| + 2..] == Join(tail, ":")
  {
    var h, s := Join(head, ":"), Render(Compressed(head, tail));
    JoinedGroups(head);
    assert s[..|h|] == h && s[|h| + 2..] == Join(tail, ":");
    forall j | 0 <= j < |h|
      ensures Apart(s, j)
    {
      assert Apart(h, j) && s[j] == h[j];
      if j + 1 == |h| {
        assert h[j] != ':' by { assert !AnyHex(':'); }
      } else {
        assert s[j + 1] == h[j + 1];
      }
    }
    PairAtIs(s, |h|);
  }

  lemma RenderChars(t: V6Text)
    requires ValidText(t)
    ensures AddressChars(Render(t))
  {
    match t
    case Full(gs) => JoinedGroups(gs);
    case Compressed(head, tail) =>
      JoinedGroups(head);
      JoinedGroups(tail);
  }

  lemma NibblesOfGroups(left: seq<string>, right: seq<string>)
    requires ValidText(Compressed(left, right))
    ensures NibblesAround(left, right) == Some(Flatten(Expanded(Compressed(left, right))))
  {
  }

  lemma ReadsCompressed(head: seq<string>, tail: seq<string>)
    requires ValidText(Compressed(head, tail))
    ensures Ipv6Nibbles(Render(Compressed(head, tail))) == Some(Flatten(Expanded(Compressed(head, tail))))
  {
    RenderChars(Compressed(head, tail));
    PairInRender(head, tail);
    TailHasNoPair(tail);
    PiecesOfGroups(head);
    PiecesOfGroups(tail);
    NibblesOfGroups(head, tail);
  }

  lemma TailHasNoPair(tail: seq<string>)
    requires AllGroups(tail)
    ensures PairAt(Join(tail, ":")) == |Join(tail, ":")|
  {
    JoinedGroups(tail);
    NoPair(Join(tail, ":"));
  }

  lemma ReadsFull(gs: seq<string>)
    requires ValidText(Full(gs))
    ensures Ipv6Nibbles(Render(Full(gs))) == Some(Flatten(gs))
  {
    var s := Render(Full(gs));
    RenderChars(Full(gs));
    JoinedGroups(gs);
    NoPair(s);
    PiecesOfGroups(gs);
  }

  /** Every text of an IPv6 address is read as its groups, padded. */
  lemma ReadsText(t: V6Text)
    requires ValidText(t)
    ensures Ipv6Nibbles(Render(t)) == Some(Flatten(Expanded(t)))
  {
    match t
    case Full(gs) => ReadsFull(gs);
    case Compressed(head, tail) => ReadsCompressed(head, tail);
  }

  /** The text read back: what is accepted is a text of an address and nothing else. */
  function TextOf(addr: string): V6Text {
    var i := PairAt(addr);
    if i < |addr| then Compressed(Pieces(addr[..i]), Pieces(addr[i + 2..])) else Full(Pieces(addr))
  }

  lemma JoinPieces(s: string)
    ensures Join(Pieces(s), ":") == s
  {
    JoinSplit(s, ':');
  }

  lemma AcceptsOnlyTexts(addr: string)
    requires Ipv6Nibbles(addr).Some?
    ensures ValidText(TextOf(addr)) && Render(TextOf(addr)) == addr
  {
    if PairAt(addr) < |addr| {
      AcceptedAround(addr);
    } else {
      AcceptedWhole(addr);
    }
  }

  lemma AroundIsGroups(left: seq<string>, right: seq<string>)
    requires NibblesAround(left, right).Some?
    ensures ValidText(Compressed(left, right))
  {
    PartsAreGroups(left, Zeros(8 - |left| - |right|), right);
  }

  lemma RenderPieces(a: string, b: string)
    ensures Render(Compressed(Pieces(a), Pieces(b))) == a + "::" + b
  {
    JoinPieces(a);
    JoinPieces(b);
  }

  lemma AroundPair(s: string, i: nat)
    requires i + 1 < |s| && s[i] == ':' && s[i + 1] == ':'
    ensures s[..i] + "::" + s[i + 2..] == s
  {
  }

  lemma AcceptedAround(addr: string)
    requires Ipv6Nibbles(addr).Some? && PairAt(addr) < |addr|
    ensures ValidText(TextOf(addr)) && Render(TextOf(addr)) == addr
  {
    var i := PairAt(addr);
    var head, tail := addr[..i], addr[i + 2..];
    AroundPair(addr, i);
    RenderPieces(head, tail);
    AroundIsGroups(Pieces(head), Pieces(tail));
  }

  lemma AcceptedWhole(addr: string)
    requires Ipv6Nibbles(addr).Some? && PairAt(addr) == |addr|
    ensures ValidText(TextOf(addr)) && Render(TextOf(addr)) == addr
  {
    JoinPieces(addr);
  }

  lemma PartsAreGroups(a: seq<string>, b: seq<string>, c: seq<string>)
    requires AllGroups(a + b + c)
    ensures AllGroups(a) && AllGroups(c)
  {
    forall i | 0 <= i < |a|
      ensures IsGroup(a[i])
    {
      assert (a + b + c)[i] == a[i];
    }
    forall i | 0 <= i < |c|
      ensures IsGroup(c[i])
    {
      assert (a + b + c)[|a| + |b| + i] == c[i];
    }
  }

  // ---- What the helpers write ----------------------------------------------------------------------

  /** The first `m` nibbles, reversed, are the last `m` labels before the family. */
  lemma LettersOfPrefix(nibbles: string, m: nat)
    requires HexDigits(nibbles) && m <= |nibbles|
    ensures HexText(nibbles)
    ensures Letters(Reverse(nibbles[..m])) == HexLabels(NibblesLow(HexNumber(nibbles), |nibbles|))[|nibbles| - m..]
  {
    LettersAreLabels(nibbles);
    LettersTail(nibbles, m);
  }

  lemma LettersTail(s: string, m: nat)
    requires m <= |s|
    ensures Letters(Reverse(s[..m])) == Letters(Reverse(s))[|s| - m..]
  {
    var a, b := Letters(Reverse(s[..m])), Letters(Reverse(s))[|s| - m..];
    forall i | 0 <= i < m
      ensures a[i] == b[i]
    {
      assert Reverse(s[..m])[i] == s[m - 1 - i] == Reverse(s)[|s| - m + i];
    }
  }

  /** Labels before the family's, joined and followed by it, are the prefix's zone. */
  lemma ZoneFromLabels(ip: IpAddr, k: nat)
    requires LabelCount(ip, k) && k < |HostLabels(ip)|
    ensures PrefixZone(ip, k) == Join(HostLabels(ip)[k..], ".") + if ip.V4? then V4_SUFFIX else V6_SUFFIX
  {
    FamilyText(ip);
    JoinedTail(HostLabels(ip), k, FamilyLabels(ip), if ip.V4? then V4_SUFFIX else V6_SUFFIX);
  }

  lemma JoinedTail(host: seq<string>, k: nat, family: seq<string>, suffix: string)
    requires k < |host| && family != [] && "." + Join(family, ".") == suffix
    ensures Join((host + family)[k..], ".") == Join(host[k..], ".") + suffix
  {
    assert (host + family)[k..] == host[k..] + family;
    JoinedWith(host[k..], family, suffix);
  }

  predicate V6Prefix(prefix: nat) {
    4 <= prefix <= 128 && prefix % 4 == 0
  }

  lemma TextIsRead(t: V6Text)
    requires ValidText(t)
    ensures var nibbles := Flatten(Expanded(t));
      && Ipv6Nibbles(Render(t)) == Some(nibbles) && HexText(nibbles)
      && AddressOfText(t) == V6(HexNumber(nibbles)) && HexNumber(nibbles) < Pow16(32)
  {
    ReadsText(t);
    FlattenValue(Expanded(t));
    LettersAreLabels(Flatten(Expanded(t)));
  }

  lemma ZoneOfV6Is(t: V6Text, prefix: nat)
    requires ValidText(t)
    ensures ZoneOfV6(Render(t), prefix) ==
      if V6Prefix(prefix) then Zone(PrefixZone(AddressOfText(t), 32 - prefix / 4)) else Bad
    ensures WellFormed(AddressOfText(t))
  {
    TextIsRead(t);
    Pow16Is();
    ZoneOfRead(Render(t), Flatten(Expanded(t)), AddressOfText(t), prefix);
  }

  lemma ZoneOfRead(addr: string, nibbles: string, ip: IpAddr, prefix: nat)
    requires Ipv6Nibbles(addr) == Some(nibbles) && HexText(nibbles) && ip == V6(HexNumber(nibbles))
    ensures ZoneOfV6(addr, prefix) == if V6Prefix(prefix) then Zone(PrefixZone(ip, 32 - prefix / 4)) else Bad
  {
    ZoneOfV6Steps(addr, nibbles, prefix);
    if V6Prefix(prefix) {
      ZoneOfNibbles(nibbles, ip, prefix / 4);
    }
  }

  lemma ZoneOfV6Steps(addr: string, nibbles: string, prefix: nat)
    requires Ipv6Nibbles(addr) == Some(nibbles)
    ensures ZoneOfV6(addr, prefix) ==
      if V6Prefix(prefix) then Zone(Join(Letters(Reverse(nibbles[..prefix / 4])), ".") + V6_SUFFIX) else Bad
  {
  }

  lemma ZoneOfNibbles(nibbles: string, ip: IpAddr, m: nat)
    requires |nibbles| == 32 && HexDigits(nibbles) && HexText(nibbles) && ip == V6(HexNumber(nibbles)) && 1 <= m <= 32
    ensures Join(Letters(Reverse(nibbles[..m])), ".") + V6_SUFFIX == PrefixZone(ip, 32 - m)
  {
    LettersOfPrefix(nibbles, m);
    ZoneFromLabels(ip, 32 - m);
  }

  predicate V4Prefix(prefix: nat) {
    prefix == 8 || prefix == 16 || prefix == 24 || prefix == 32
  }

  lemma NumbersReversed(os: seq<string>, m: nat)
    requires ValidOctets(os) && m <= 4
    ensures AllOctets(os[..m])
    ensures Reverse(Numbers(os[..m])) == V4Labels(AddressOfOctets(os))[4 - m..]
  {
    NumbersAre(os);
    assert Numbers(os[..m]) == Numbers(os)[..m];
    ReverseOfPrefix(Numbers(os), m);
  }

  lemma NumbersAre(os: seq<string>)
    requires ValidOctets(os)
    ensures Reverse(Numbers(os)) == V4Labels(AddressOfOctets(os))
  {
    var labels := Reverse(Numbers(os));
    assert labels[0] == Numbers(os)[3] && labels[1] == Numbers(os)[2] && labels[2] == Numbers(os)[1] && labels[3] == Numbers(os)[0];
  }

  lemma ReverseOfPrefix(s: seq<string>, m: nat)
    requires m <= |s|
    ensures Reverse(s[..m]) == Reverse(s)[|s| - m..]
  {
  }

  lemma SplitOctets(os: seq<string>)
    requires ValidOctets(os)
    ensures Split(Join(os, "."), '.') == os
  {
    forall o | o in os
      ensures '.' !in o
    {
      assert IsOctet(o);
    }
    SplitJoin(os, '.');
  }

  lemma ZoneOfV4Is(os: seq<string>, prefix: nat)
    requires ValidOctets(os)
    ensures ZoneOfV4(Join(os, "."), prefix) ==
      if V4Prefix(prefix) then Zone(PrefixZone(AddressOfOctets(os), 4 - prefix / 8)) else Bad
    ensures WellFormed(AddressOfOctets(os))
  {
    SplitOctets(os);
    assert IsOctet(os[0]) && IsOctet(os[1]) && IsOctet(os[2]) && IsOctet(os[3]);
    if V4Prefix(prefix) {
      NumbersReversed(os, prefix / 8);
      ZoneFromLabels(AddressOfOctets(os), 4 - prefix / 8);
    }
  }

  // ---- The helpers, exactly --------------------------------------------------------------------

  function ZoneOf(addr: string, prefix: nat): ZoneText {
    if ':' in addr then ZoneOfV6(addr, prefix) else ZoneOfV4(addr, prefix)
  }

  /** Prefix lengths that end on a label boundary. */
  predicate OnBoundary(ip: IpAddr, prefix: nat) {
    if ip.V4? then V4Prefix(prefix) else V6Prefix(prefix)
  }

  /** How many labels a network of this prefix length leaves out. */
  function LeftOut(ip: IpAddr, prefix: nat): (k: nat)
    requires OnBoundary(ip, prefix)
    ensures LabelCount(ip, k)
  {
    if ip.V4? then 4 - prefix / 8 else 32 - prefix / 4
  }

  lemma RenderHasColon(t: V6Text)
    requires ValidText(t)
    ensures ':' in Render(t) && '/' !in Render(t)
  {
    RenderChars(t);
    assert !AnyHex('/');
    match t
    case Full(gs) =>
      assert Render(t) == gs[0] + ":" + Join(gs[1..], ":");
      assert Render(t)[|gs[0]|] == ':';
    case Compressed(head, tail) =>
      assert Render(t)[|Join(head, ":")|] == ':';
  }

  lemma OctetsHaveNoColon(os: seq<string>)
    requires ValidOctets(os)
    ensures ':' !in Join(os, ".") && '/' !in Join(os, ".") && Join(os, ".") != ""
  {
    forall c | c in Join(os, ".")
      ensures c != ':' && c != '/'
    {
      JoinChars(os, ".", c);
      if c != '.' {
        var o :| o in os && c in o;
        assert IsOctet(o) && IsDigit(c);
      }
    }
    assert Join(os, ".") == os[0] + "." + Join(os[1..], ".");
  }

  /** An address text is read as its address, whatever way it is written. */
  lemma ZoneOfDenoted(addr: string, ip: IpAddr, prefix: nat)
    requires Denotes(addr, ip)
    ensures WellFormed(ip) && addr != "" && '/' !in addr && (':' in addr <==> ip.V6?)
    ensures ZoneOf(addr, prefix) ==
      if OnBoundary(ip, prefix) then Zone(PrefixZone(ip, LeftOut(ip, prefix))) else Bad
  {
    if t :| ValidText(t) && Render(t) == addr && AddressOfText(t) == ip {
      RenderHasColon(t);
      ZoneOfV6Is(t, prefix);
    } else {
      var os :| ValidOctets(os) && Join(os, ".") == addr && AddressOfOctets(os) == ip;
      OctetsHaveNoColon(os);
      ZoneOfV4Is(os, prefix);
    }
  }

  /** Nothing else is read. */
  lemma ReadsOnlyAddresses(addr: string, prefix: nat)
    requires ZoneOf(addr, prefix).Zone?
    ensures exists ip :: Denotes(addr, ip)
  {
    if ':' in addr {
      AcceptsOnlyTexts(addr);
      assert Denotes(addr, AddressOfText(TextOf(addr)));
    } else {
      JoinSplit(addr, '.');
      assert Denotes(addr, AddressOfOctets(Split(addr, '.')));
    }
  }

  /** A network in CIDR notation and how many labels its zone leaves out. */
  ghost predicate IsNetwork(text: string, ip: IpAddr, k: nat) {
    exists addr, prefix ::
      && text == addr + "/" + prefix && Denotes(addr, ip)
      && ShortNumber(prefix) && OnBoundary(ip, DecimalValue(prefix)) && LeftOut(ip, DecimalValue(prefix)) == k
  }

  lemma SlashAt(text: string, addr: string, prefix: string)
    requires text == addr + "/" + prefix && '/' !in addr
    ensures IndexOf(text, '/') == |addr| && text[..|addr|] == addr && text[|addr| + 1..] == prefix
  {
    assert text[..|addr|] == addr;
    IndexOfFirst(text, '/', |addr|);
  }

  lemma NetworkHasZone(input: string, ip: IpAddr, k: nat)
    requires IsNetwork(Trim(input), ip, k)
    ensures LabelCount(ip, k) && ReverseZoneName(input) == Zone(PrefixZone(ip, k))
  {
    var text := Trim(input);
    var addr, prefix :|
      && text == addr + "/" + prefix && Denotes(addr, ip)
      && ShortNumber(prefix) && OnBoundary(ip, DecimalValue(prefix)) && LeftOut(ip, DecimalValue(prefix)) == k;
    ZoneOfDenoted(addr, ip, DecimalValue(prefix));
    SlashAt(text, addr, prefix);
  }

  lemma ZoneIsNetwork(input: string) returns (ip: IpAddr, k: nat)
    requires ReverseZoneName(input).Zone?
    ensures IsNetwork(Trim(input), ip, k)
  {
    var text := Trim(input);
    var slash := IndexOf(text, '/');
    var addr, prefix := text[..slash], text[slash + 1..];
    assert text == addr + "/" + prefix;
    var n := DecimalValue(prefix);
    ReadsOnlyAddresses(addr, n);
    ip :| Denotes(addr, ip);
    ZoneOfDenoted(addr, ip, n);
    k := LeftOut(ip, n);
  }

  /** `reverseZoneName` gives a zone for the networks on a label boundary and for nothing else. */
  lemma ZoneNameExactly(input: string, name: string)
    ensures ReverseZoneName(input) == Zone(name) <==>
      exists ip, k :: IsNetwork(Trim(input), ip, k) && LabelCount(ip, k) && name == PrefixZone(ip, k)
  {
    if ip, k :| IsNetwork(Trim(input), ip, k) && LabelCount(ip, k) && name == PrefixZone(ip, k) {
      NetworkHasZone(input, ip, k);
    }
    if ReverseZoneName(input) == Zone(name) {
      var ip, k := ZoneIsNetwork(input);
      NetworkHasZone(input, ip, k);
    }
  }

  lemma TrimOf(s: string)
    requires s != "" && !IsSpace(s[0]) && !IsSpace(s[|s| - 1])
    ensures Trim(s) == s
  {
  }

  lemma WholePrefix(ip: IpAddr)
    ensures PrefixZone(ip, 0) == ReverseName(ip)
  {
    NameIsJoined(ip);
    assert NameLabels(ip)[0..] == NameLabels(ip);
  }

  lemma HostPrefix(v6: bool, p: string)
    requires p == if v6 then "128" else "32"
    ensures ShortNumber(p) && DecimalValue(p) == if v6 then 128 else 32
  {
    if v6 {
      assert p[..2] == "12" && p[..2][..1] == "1" && p[..2][..1][..0] == "";
      assert DecimalValue("1") == 1 && DecimalValue("12") == 12;
    } else {
      assert p[..1] == "3" && p[..1][..0] == "";
      assert DecimalValue("3") == 3;
    }
  }

  lemma HostZone(text: string, p: string, n: nat)
    requires text != "" && !IsSpace(text[0]) && '/' !in text && ShortNumber(p) && DecimalValue(p) == n
    ensures ReverseZoneName(text + "/" + p) == ZoneOf(text, n)
  {
    var whole := text + "/" + p;
    assert IsDigit(p[|p| - 1]) && whole[|whole| - 1] == p[|p| - 1];
    TrimOf(whole);
    SlashAt(whole, text, p);
  }

  lemma RecordNameSteps(address: string)
    ensures var text := Trim(address);
      ReverseRecordName(address) ==
        if text == "" || '/' in text then None
        else match ZoneOf(text, if ':' in text then 128 else 32) case Zone(name) => Some(name) case _ => None
  {
    var text := Trim(address);
    if text != "" && '/' !in text {
      var v6 := ':' in text;
      var p := if v6 then "128" else "32";
      assert text + "/" + p == text + (if v6 then "/128" else "/32");
      HostPrefix(v6, p);
      HostZone(text, p, if v6 then 128 else 32);
    }
  }

  lemma RecordOfDenoted(address: string, ip: IpAddr)
    requires Denotes(Trim(address), ip)
    ensures ReverseRecordName(address) == Some(ReverseName(ip))
  {
    var text := Trim(address);
    RecordNameSteps(address);
    ZoneOfDenoted(text, ip, if ':' in text then 128 else 32);
    WholePrefix(ip);
  }

  lemma RecordDenotes(address: string)
    requires ReverseRecordName(address).Some?
    ensures exists ip :: Denotes(Trim(address), ip)
  {
    var text := Trim(address);
    RecordNameSteps(address);
    ReadsOnlyAddresses(text, if ':' in text then 128 else 32);
  }

  /** `reverseRecordName` gives the reverse name of the address a text denotes, and nothing for any other text. */
  lemma RecordNameExactly(address: string, name: string)
    ensures ReverseRecordName(address) == Some(name) <==>
      exists ip :: Denotes(Trim(address), ip) && name == ReverseName(ip)
  {
    if ip :| Denotes(Trim(address), ip) && name == ReverseName(ip) {
      RecordOfDenoted(address, ip);
    }
    if ReverseRecordName(address) == Some(name) {
      RecordDenotes(address);
      var ip :| Denotes(Trim(address), ip);
      RecordOfDenoted(address, ip);
    }
  }

  /** The console and the server agree: the server reads the name the console writes as that address. */
  lemma ConsoleAndServerAgree(address: string, ip: IpAddr)
    requires Denotes(Trim(address), ip)
    ensures ReverseRecordName(address) == Some(ReverseName(ip)) && AddressOf(ReverseName(ip)) == Some(ip)
    ensures DefaultReverseZoneOf(ReverseName(ip)) == DefaultReverseZone(ip)
  {
    RecordOfDenoted(address, ip);
    ZoneOfDenoted(Trim(address), ip, 0);
    ReadsWhatIsWritten(ip);
    DefaultZonesAgree(ip);
  }

  /** A text denotes at most one address. */
  lemma DenotesOne(text: string, a: IpAddr, b: IpAddr)
    requires Denotes(Trim(text), a) && Denotes(Trim(text), b)
    ensures a == b
  {
    ConsoleAndServerAgree(text, a);
    ConsoleAndServerAgree(text, b);
  }

  lemma DefaultZonesAgree(ip: IpAddr)
    ensures DefaultReverseZoneOf(ReverseName(ip)) == DefaultReverseZone(ip)
  {
    NameIs(ip);
    DefaultZoneIsPrefix(ip);
    FamilySeen(ip);
    assert |NameLabels(ip)| >= HostPart(ip);
  }

  lemma FamilySeen(ip: IpAddr)
    ensures EndsWith(ReverseName(ip), V4_SUFFIX) <==> ip.V4?
  {
    match ip
    case V4(_, _, _, _) => StemOf(Join(V4Labels(ip), "."), V4_SUFFIX);
    case V6(v) => NotV4(Join(HexLabels(NibblesLow(v, 32)), "."));
  }
}
