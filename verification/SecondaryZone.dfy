/**
 A secondary zone served from its stored transfer (`secondary_zone`) and
 handed on (`transfer_records`): records are filed by owner and type,
 signatures attached to the RRset they cover.
 */
module SecondaryZone {
  import opened Addresses
  import opened Text
  import TransferCodec

  const CNAME: nat := 5
  const SOA: nat := 6
  const RRSIG: nat := 46

  /** `covered` is the type a signature covers; other record data is opaque. */
  datatype Data = Soa(serial: nat) | Rrsig(covered: nat, signature: nat) | Other(rtype: nat, value: nat)
  datatype Record = Record(owner: string, ttl: nat, data: Data)
  type Key = (string, nat)

  datatype RrSet = RrSet(records: seq<Record>, sigs: seq<Record>)
  type Served = map<Key, RrSet>

  function TypeOf(r: Record): nat {
    match r.data case Soa(_) => SOA case Rrsig(_, _) => RRSIG case Other(t, _) => t
  }

  function KeyOf(r: Record): Key {
    (Lower(r.owner), TypeOf(r))
  }

  /** The RRset a signature belongs to. */
  function CoveredKey(r: Record): Key
    requires r.data.Rrsig?
  {
    (Lower(r.owner), r.data.covered)
  }

  /** Adding to an RRset as the DNS library does: one SOA (the newer) and one CNAME, no data twice. */
  function Insert(set0: seq<Record>, r: Record): seq<Record> {
    if TypeOf(r) == SOA then
      if set0 != [] && set0[0].data.Soa? && r.data.Soa? && r.data.serial <= set0[0].data.serial then set0 else [r]
    else if TypeOf(r) == CNAME then [r]
    else if r in set0 then set0
    else Without(set0, r.data) + [r]
  }

  function Without(set0: seq<Record>, data: Data): (s: seq<Record>)
    ensures forall r :: r in s <==> r in set0 && r.data != data
  {
    if set0 == [] then [] else (if set0[0].data == data then [] else [set0[0]]) + Without(set0[1..], data)
  }

  /** SOA and RRSIG data have a form of their own. */
  predicate Typed(r: Record) {
    r.data.Other? ==> r.data.rtype !in {SOA, RRSIG}
  }

  predicate WellTyped(records: seq<Record>) {
    forall r | r in records :: Typed(r)
  }

  /** Two records that cannot both be served: two SOAs, two CNAMEs of one owner, or one owner's same data twice. */
  predicate Clash(a: Record, b: Record) {
    && a != b && !a.data.Rrsig? && !b.data.Rrsig?
    && ((a.data.Soa? && b.data.Soa?) || (KeyOf(a) == KeyOf(b) && (a.data == b.data || TypeOf(a) == CNAME)))
  }

  predicate Clean(records: seq<Record>) {
    forall a, b | a in records && b in records :: !Clash(a, b)
  }

  /** `sig` is a signature over the RRset of `q`: its owner's, of the type it says it covers. */
  predicate SignsOver(sig: Record, q: Record) {
    && sig.data.Rrsig? && Lower(sig.owner) == Lower(q.owner)
    && match q.data
       case Soa(_) => sig.data.covered == 6
       case Rrsig(_, _) => false
       case Other(rtype, _) => sig.data.covered == rtype
  }

  lemma SignsOverKey(sig: Record, q: Record)
    requires sig.data.Rrsig?
    ensures SignsOver(sig, q) <==> !q.data.Rrsig? && KeyOf(q) == CoveredKey(sig)
  {
  }

  /** `r` is a signature over an RRset that `records` does not have. */
  predicate Orphaned(records: seq<Record>, r: Record) {
    r.data.Rrsig? && forall q | q in records :: !SignsOver(r, q)
  }

  /** What a clash is, written out: type 5 is CNAME. */
  lemma ClashIs(a: Record, b: Record)
    requires Typed(a) && Typed(b)
    ensures Clash(a, b) <==>
      && a != b && !a.data.Rrsig? && !b.data.Rrsig?
      && ((a.data.Soa? && b.data.Soa?)
          || (Lower(a.owner) == Lower(b.owner)
              && (a.data == b.data || (a.data.Other? && b.data.Other? && a.data.rtype == 5 && b.data.rtype == 5))))
  {
  }

  /** Of the records that are `r` or clash with it, the last one is `r`. */
  predicate LastOfItsKind(records: seq<Record>, r: Record) {
    if records == [] then false
    else
      var n := |records| - 1;
      records[n] == r || (!Clash(records[n], r) && LastOfItsKind(records[..n], r))
  }

  predicate NotNewer(r: Record, q: Record) {
    r.data.Soa? && q.data.Soa? && r.data.serial <= q.data.serial
  }

  /** Of what came, exactly the last of each kind is filed; of an owner's SOAs, the newest. */
  ghost predicate LastFiled(served: Served, records: seq<Record>) {
    && (forall r: Record | r.data.Other? :: r in At(served, KeyOf(r)) <==> LastOfItsKind(records, r))
    && (forall r, q | r in records && r.data.Soa? && q in At(served, KeyOf(r)) :: NotNewer(r, q))
  }

  /** What is filed is what came, and every RRset that came is there. */
  ghost predicate FiledFrom(served: Served, records: seq<Record>) {
    && (forall k, r | k in served && r in served[k].records :: r in records && !r.data.Rrsig? && KeyOf(r) == k)
    && (forall r | r in records && !r.data.Rrsig? :: KeyOf(r) in served)
    && (forall k | k in served :: served[k].records != [])
  }

  /** Everything that came is filed. */
  ghost predicate AllFiled(served: Served, records: seq<Record>) {
    forall r | r in records && !r.data.Rrsig? :: KeyOf(r) in served && r in served[KeyOf(r)].records
  }

  predicate NoClashIn(rs: seq<Record>) {
    forall a, b | a in rs && b in rs :: !Clash(a, b)
  }

  ghost predicate NoClashFiled(served: Served) {
    forall k | k in served :: NoClashIn(served[k].records)
  }

  // ---- Filing -------------------------------------------------------------------------------

  /** RRsets as they are filed: records of one key, which is not RRSIG. */
  predicate OneKey(rs: seq<Record>, k: Key) {
    forall q | q in rs :: KeyOf(q) == k && !q.data.Rrsig?
  }

  /** Inserting invents nothing, leaves something, and leaves no two records that clash. */
  lemma InsertKeeps(was: seq<Record>, r: Record)
    requires OneKey(was, KeyOf(r)) && NoClashIn(was) && Typed(r) && !r.data.Rrsig?
    ensures Insert(was, r) != [] && NoClashIn(Insert(was, r))
    ensures forall q | q in Insert(was, r) :: q in was || q == r
  {
  }

  /** Of an owner's SOAs with the same serial the first stays. */
  lemma SameSerialKeepsFirst(a: Record, b: Record)
    requires a.data.Soa? && b.data.Soa?
    ensures Insert([a], b) == if a.data.serial < b.data.serial then [b] else [a]
  {
  }

  /** Where nothing clashes, inserting adds the record and keeps the others. */
  lemma InsertAdds(was: seq<Record>, r: Record)
    requires OneKey(was, KeyOf(r)) && Typed(r) && !r.data.Rrsig?
    requires forall q | q in was :: !Clash(q, r) && Typed(q)
    ensures forall q :: q in Insert(was, r) <==> q in was || q == r
  {
    if TypeOf(r) in {SOA, CNAME} {
      assert forall q | q in was :: q == r;
      if was != [] {
        assert was[0] in was;
      }
    }
  }

  /** One more record filed. */
  function FiledNext(served: Served, r: Record): Served {
    var k := KeyOf(r);
    served[k := if k in served then served[k].(records := Insert(served[k].records, r)) else RrSet(Insert([], r), [])]
  }

  function At(served: Served, k: Key): seq<Record> {
    if k in served then served[k].records else []
  }

  lemma FileStep(served: Served, records: seq<Record>, r: Record)
    requires FiledFrom(served, records) && NoClashFiled(served) && Typed(r) && !r.data.Rrsig?
    ensures FiledFrom(FiledNext(served, r), records + [r]) && NoClashFiled(FiledNext(served, r))
  {
    var k, after := KeyOf(r), FiledNext(served, r);
    var was := At(served, k);
    InsertKeeps(was, r);
    assert after[k].records == Insert(was, r);
    forall j, q | j in after && q in after[j].records
      ensures q in records + [r] && !q.data.Rrsig? && KeyOf(q) == j
    {
      if j != k {
        assert q in served[j].records;
      }
    }
  }

  /** An RRset keeps what does not clash with the record that came; of SOAs it keeps the newest. */
  lemma InsertLeaves(was: seq<Record>, r: Record, q: Record)
    requires OneKey(was, KeyOf(r)) && NoClashIn(was) && Typed(r) && (forall x | x in was :: Typed(x)) && r.data.Other?
    ensures q in Insert(was, r) <==> q == r || (q in was && !Clash(r, q))
  {
    if q in was {
      assert KeyOf(q) == KeyOf(r);
      if r in was {
        assert !Clash(r, q);
      }
    }
  }

  lemma InsertNewest(was: seq<Record>, r: Record, q: Record)
    requires OneKey(was, KeyOf(r)) && NoClashIn(was) && Typed(r) && (forall x | x in was :: Typed(x)) && r.data.Soa?
    requires q in Insert(was, r)
    ensures NotNewer(r, q) && forall x | x in was :: NotNewer(x, q)
  {
    forall x | x in was
      ensures x == was[0] && x.data.Soa?
    {
      assert KeyOf(x) == KeyOf(r);
      assert !Clash(x, was[0]);
    }
  }

  lemma OneMoreKind(records: seq<Record>, r: Record, q: Record)
    ensures LastOfItsKind(records + [r], q) <==> r == q || (!Clash(r, q) && LastOfItsKind(records, q))
  {
    assert (records + [r])[..|records|] == records;
  }

  lemma LastFiledStep(served: Served, records: seq<Record>, r: Record)
    requires FiledFrom(served, records) && NoClashFiled(served) && LastFiled(served, records)
    requires WellTyped(records + [r]) && !r.data.Rrsig?
    ensures LastFiled(FiledNext(served, r), records + [r])
  {
    var all := records + [r];
    assert forall q | q in records :: q in all;
    assert r in all;
    forall q: Record | q.data.Other?
      ensures q in At(FiledNext(served, r), KeyOf(q)) <==> LastOfItsKind(all, q)
    {
      OneMoreKind(records, r, q);
      FiledStays(served, records, r, q);
    }
    forall x, q | x in all && x.data.Soa? && q in At(FiledNext(served, r), KeyOf(x))
      ensures NotNewer(x, q)
    {
      NewestStays(served, records, r, x, q);
    }
  }

  lemma FiledStays(served: Served, records: seq<Record>, r: Record, q: Record)
    requires FiledFrom(served, records) && NoClashFiled(served)
    requires WellTyped(records) && Typed(r) && !r.data.Rrsig? && q.data.Other?
    ensures q in At(FiledNext(served, r), KeyOf(q)) <==> r == q || (!Clash(r, q) && q in At(served, KeyOf(q)))
  {
    var was := At(served, KeyOf(r));
    assert forall x | x in was :: x in records;
    if KeyOf(q) == KeyOf(r) {
      if r.data.Other? {
        InsertLeaves(was, r, q);
      } else {
        SoaAlone(was, r);
      }
    }
  }

  lemma SoaAlone(was: seq<Record>, r: Record)
    requires OneKey(was, KeyOf(r)) && r.data.Soa? && forall x | x in was :: Typed(x)
    ensures forall x | x in was || x in Insert(was, r) :: x.data.Soa?
  {
    forall x | x in was
      ensures x.data.Soa?
    {
      assert KeyOf(x) == KeyOf(r);
    }
  }

  lemma NewestStays(served: Served, records: seq<Record>, r: Record, x: Record, q: Record)
    requires FiledFrom(served, records) && NoClashFiled(served) && LastFiled(served, records)
    requires WellTyped(records) && Typed(r) && !r.data.Rrsig?
    requires x in records || x == r
    requires x.data.Soa? && q in At(FiledNext(served, r), KeyOf(x))
    ensures NotNewer(x, q)
  {
    if KeyOf(x) == KeyOf(r) {
      var was := At(served, KeyOf(r));
      assert forall y | y in was :: y in records;
      assert r.data.Soa?;
      InsertNewest(was, r, q);
      if x != r {
        assert KeyOf(x) in served && was != [];
        assert was[0] in was && NotNewer(x, was[0]) && NotNewer(was[0], q);
      }
    }
  }

  lemma AllFiledStep(served: Served, records: seq<Record>, r: Record)
    requires FiledFrom(served, records) && AllFiled(served, records) && Clean(records + [r]) && WellTyped(records + [r])
    requires !r.data.Rrsig?
    ensures AllFiled(FiledNext(served, r), records + [r])
  {
    var k, all := KeyOf(r), records + [r];
    var was := At(served, k);
    assert r in all && forall q | q in records :: q in all;
    forall q | q in was
      ensures !Clash(q, r) && Typed(q)
    {
      assert q in all;
    }
    InsertAdds(was, r);
    assert FiledNext(served, r)[k].records == Insert(was, r);
  }

  /** The plain records filed one by one; the signatures put aside. */
  method FileRecords(records: seq<Record>) returns (served: Served, sigs: seq<Record>)
    requires WellTyped(records)
    ensures FiledFrom(served, records) && NoClashFiled(served)
    ensures Clean(records) ==> AllFiled(served, records)
    ensures LastFiled(served, records)
    ensures forall k | k in served :: served[k].sigs == []
    ensures forall r :: r in sigs <==> r in records && r.data.Rrsig?
  {
    served, sigs := map[], [];
    for n := 0 to |records|
      invariant FiledFrom(served, records[..n]) && NoClashFiled(served)
      invariant Clean(records) ==> AllFiled(served, records[..n])
      invariant LastFiled(served, records[..n])
      invariant forall k | k in served :: served[k].sigs == []
      invariant forall r :: r in sigs <==> r in records[..n] && r.data.Rrsig?
    {
      var r := records[n];
      assert records[..n + 1] == records[..n] + [r] && r in records;
      if r.data.Rrsig? {
        sigs := sigs + [r];
        SigFilesNothing(served, records[..n], r);
      } else {
        PartTyped(records, n);
        FileStep(served, records[..n], r);
        LastFiledStep(served, records[..n], r);
        if Clean(records) {
          PartIsClean(records, n);
          AllFiledStep(served, records[..n], r);
        }
        served := FiledNext(served, r);
      }
    }
    assert records[..|records|] == records;
  }

  lemma SigFilesNothing(served: Served, records: seq<Record>, r: Record)
    requires LastFiled(served, records) && r.data.Rrsig?
    ensures LastFiled(served, records + [r])
  {
    forall q: Record | q.data.Other?
      ensures q in At(served, KeyOf(q)) <==> LastOfItsKind(records + [r], q)
    {
      OneMoreKind(records, r, q);
    }
  }

  lemma PartTyped(records: seq<Record>, n: nat)
    requires n < |records| && WellTyped(records)
    ensures WellTyped(records[..n]) && WellTyped(records[..n] + [records[n]])
  {
    assert forall q | q in records[..n] + [records[n]] :: q in records;
  }

  lemma PartIsClean(records: seq<Record>, n: nat)
    requires n < |records| && Clean(records) && WellTyped(records)
    ensures Clean(records[..n] + [records[n]]) && WellTyped(records[..n] + [records[n]])
  {
    assert forall q | q in records[..n] + [records[n]] :: q in records;
  }

  /** Each signature goes to the RRset it covers, if that is there. */
  method AttachSignatures(filed: Served, sigs: seq<Record>) returns (served: Served)
    requires forall r | r in sigs :: r.data.Rrsig?
    requires forall k | k in filed :: filed[k].sigs == []
    ensures served.Keys == filed.Keys
    ensures forall k | k in served :: served[k].records == filed[k].records
    ensures forall k, r | k in served :: r in served[k].sigs <==> r in sigs && k == (Lower(r.owner), r.data.covered)
  {
    served := filed;
    for n := 0 to |sigs|
      invariant served.Keys == filed.Keys
      invariant forall k | k in served :: served[k].records == filed[k].records
      invariant forall k, r | k in served :: r in served[k].sigs <==> r in sigs[..n] && CoveredKey(r) == k
    {
      var sig := sigs[n];
      assert sigs[..n + 1] == sigs[..n] + [sig];
      var k := CoveredKey(sig);
      if k in served {
        served := served[k := served[k].(sigs := served[k].sigs + [sig])];
      }
    }
    assert sigs[..|sigs|] == sigs;
  }

  // ---- Handing on ----------------------------------------------------------------------------

  /** What the RRsets in `done` put among the records behind the SOA: their signatures, and all but SOA records. */
  ghost predicate Behind(served: Served, done: set<Key>, r: Record)
    requires done <= served.Keys
  {
    exists k :: k in done && (r in served[k].sigs || (k.1 != SOA && r in served[k].records))
  }

  /** What has been collected from the RRsets in `done`. */
  ghost predicate Collected(served: Served, done: set<Key>, soa: Option<Record>, others: seq<Record>)
    requires done <= served.Keys
  {
    && (soa.Some? ==> exists k :: k in done && k.1 == SOA && soa.value in served[k].records)
    && ((forall k | k in served :: served[k].records != []) && (exists k :: k in done && k.1 == SOA) ==> soa.Some?)
    && (forall r :: r in others <==> Behind(served, done, r))
  }

  lemma CollectStep(served: Served, done: set<Key>, soa: Option<Record>, others: seq<Record>, k: Key, soa': Option<Record>, more: seq<Record>)
    requires done <= served.Keys && Collected(served, done, soa, others) && k in served
    requires soa' == if k.1 != SOA then soa else if served[k].records == [] then None else Some(served[k].records[0])
    requires more == if k.1 == SOA then served[k].sigs else served[k].records + served[k].sigs
    ensures Collected(served, done + {k}, soa', others + more)
  {
    forall r
      ensures r in others + more <==> Behind(served, done + {k}, r)
    {
      BehindOneMore(served, done, k, r);
    }
    if k.1 != SOA && soa.Some? {
      var j :| j in done && j.1 == SOA && soa.value in served[j].records;
      assert j in done + {k};
    }
  }

  lemma BehindOneMore(served: Served, done: set<Key>, k: Key, r: Record)
    requires done <= served.Keys && k in served
    ensures Behind(served, done + {k}, r) <==>
      Behind(served, done, r) || r in served[k].sigs || (k.1 != SOA && r in served[k].records)
  {
    if Behind(served, done, r) {
      var j :| j in done && (r in served[j].sigs || (j.1 != SOA && r in served[j].records));
      assert j in done + {k};
    } else if r in served[k].sigs || (k.1 != SOA && r in served[k].records) {
      assert k in done + {k};
    }
  }

  /** The whole served zone as a transfer sends it: the SOA found last, and everything behind it. */
  method TransferRecords(served: Served) returns (soa: Option<Record>, others: seq<Record>)
    ensures Collected(served, served.Keys, soa, others)
  {
    soa, others := None, [];
    var todo, done := served.Keys, {};
    while todo != {}
      invariant todo + done == served.Keys && todo !! done
      invariant Collected(served, done, soa, others)
      decreases |todo|
    {
      var k :| k in todo;
      ghost var before, was := others, soa;
      if k.1 == SOA {
        soa := if served[k].records == [] then None else Some(served[k].records[0]);
        others := others + served[k].sigs;
      } else {
        others := others + (served[k].records + served[k].sigs);
      }
      CollectStep(served, done, was, before, k, soa, others[|before|..]);
      todo, done := todo - {k}, done + {k};
    }
    assert done == served.Keys;
  }

  /** Signatures as `AttachSignatures` leaves them. */
  ghost predicate Attached(filed: Served, sigs: seq<Record>, served: Served)
    requires forall r | r in sigs :: r.data.Rrsig?
  {
    && served.Keys == filed.Keys
    && (forall k | k in served :: served[k].records == filed[k].records)
    && (forall k, r | k in served :: r in served[k].sigs <==> r in sigs && CoveredKey(r) == k)
  }

  /** What the master sent, less the signatures over RRsets it did not send. */
  function Sent(records: seq<Record>): set<Record> {
    set r | r in records && !Orphaned(records, r)
  }

  function Handed(soa: Record, others: seq<Record>): set<Record> {
    {soa} + set r | r in others
  }

  /**
   A secondary rebuilt from the bytes it stored hands on exactly the records its master
   sent, but for signatures over RRsets the transfer did not have, if and only if no two
   of them clash.
   */
  method StoreAndHandOn(records: seq<Record>, emit: Record -> seq<TransferCodec.Byte>,
                        read: seq<TransferCodec.Byte> -> Option<Record>)
    returns (soa: Option<Record>, others: seq<Record>)
    requires WellTyped(records) && TransferCodec.Storable(records, emit, read)
    ensures soa.Some? <==> exists r :: r in records && r.data.Soa?
    ensures soa.Some? ==> (Handed(soa.value, others) == Sent(records) <==> Clean(records))
    ensures soa.Some? ==> forall g: Record | g.data.Rrsig? ::
              g in others <==> g in records && exists q :: q in records && SignsOver(g, q)
    ensures soa.Some? ==> forall r: Record | !r.data.Rrsig? :: r in others <==> r.data.Other? && LastOfItsKind(records, r)
    ensures soa.Some? ==> soa.value in records
    ensures soa.Some? ==>
              forall r | r in records && r.data.Soa? && Lower(r.owner) == Lower(soa.value.owner) :: NotNewer(r, soa.value)
  {
    var wire := TransferCodec.EncodeTransfer(records, emit);
    var decoded := TransferCodec.DecodeTransfer(wire, read);
    TransferCodec.RoundTrip(records, emit, read);
    var filed, sigs := FileRecords(decoded.records);
    var served := AttachSignatures(filed, sigs);
    soa, others := TransferRecords(served);
    SoaFound(records, filed, served, sigs, soa, others);
    if soa.Some? {
      HandsOnLast(records, filed, sigs, served, soa.value, others);
      if Clean(records) {
        HandsOnAll(records, filed, sigs, served, soa.value, others);
      } else {
        ClashIsLost(records, filed, sigs, served, soa.value, others);
      }
    }
  }

  /** Whatever clashes: the signatures over what came, the last record of each kind, and the newest SOA. */
  lemma HandsOnLast(records: seq<Record>, filed: Served, sigs: seq<Record>, served: Served, soa: Record, others: seq<Record>)
    requires WellTyped(records) && FiledFrom(filed, records) && LastFiled(filed, records)
    requires forall x :: x in sigs <==> x in records && x.data.Rrsig?
    requires Attached(filed, sigs, served) && Collected(served, served.Keys, Some(soa), others)
    requires soa in records && soa.data.Soa?
    ensures forall g: Record | g.data.Rrsig? :: g in others <==> g in records && exists q :: q in records && SignsOver(g, q)
    ensures forall r: Record | !r.data.Rrsig? :: r in others <==> r.data.Other? && LastOfItsKind(records, r)
    ensures forall r | r in records && r.data.Soa? && Lower(r.owner) == Lower(soa.owner) :: NotNewer(r, soa)
  {
    forall r: Record
      ensures r.data.Rrsig? ==> (r in others <==> r in records && exists q :: q in records && SignsOver(r, q))
      ensures !r.data.Rrsig? ==> (r in others <==> r.data.Other? && LastOfItsKind(records, r))
    {
      BehindIs(records, filed, sigs, served, r);
    }
    var k :| k in served && k.1 == SOA && soa in served[k].records;
    assert soa in filed[k].records && k == KeyOf(soa);
    forall r | r in records && r.data.Soa? && Lower(r.owner) == Lower(soa.owner)
      ensures NotNewer(r, soa)
    {
      assert KeyOf(r) == k && soa in At(filed, KeyOf(r));
    }
  }

  /**
   Clashes come about: a zone with any owner's data under two TTLs is well typed and not
   clean, and of the two records only the later one is filed.
   */
  lemma TwoTtlsClash(apex: string, serial: nat, owner: string, data: Data, ttl: nat, other: nat)
    requires data.Other? && data.rtype !in {SOA, RRSIG} && ttl != other
    ensures var a, b := Record(owner, ttl, data), Record(owner, other, data);
      && WellTyped([Record(apex, ttl, Soa(serial)), a, b]) && !Clean([Record(apex, ttl, Soa(serial)), a, b])
      && Insert(Insert([], a), b) == [b]
  {
    var a, b := Record(owner, ttl, data), Record(owner, other, data);
    var records := [Record(apex, ttl, Soa(serial)), a, b];
    assert records[1] == a && records[2] == b;
    assert Clash(a, b);
    assert Without([], data) == [] && Without([a], data) == [];
    assert Insert([], a) == [a] && b !in [a];
  }

  lemma SoaFound(records: seq<Record>, filed: Served, served: Served, sigs: seq<Record>, soa: Option<Record>, others: seq<Record>)
    requires FiledFrom(filed, records) && WellTyped(records) && (forall r | r in sigs :: r.data.Rrsig?)
    requires Attached(filed, sigs, served) && Collected(served, served.Keys, soa, others)
    ensures soa.Some? <==> exists r :: r in records && r.data.Soa?
    ensures soa.Some? ==> soa.value in records && soa.value.data.Soa?
  {
    if soa.Some? {
      var k :| k in served && k.1 == SOA && soa.value in served[k].records;
      assert soa.value in filed[k].records;
      assert soa.value in records && TypeOf(soa.value) == SOA && soa.value.data.Soa?;
    }
    if r :| r in records && r.data.Soa? {
      assert KeyOf(r) in served && KeyOf(r).1 == SOA;
      assert forall k | k in served :: served[k].records == filed[k].records && filed[k].records != [];
    }
  }

  /** Behind the SOA are signatures that cover something, and filed records that are not SOAs. */
  lemma BehindIs(records: seq<Record>, filed: Served, sigs: seq<Record>, served: Served, r: Record)
    requires FiledFrom(filed, records) && WellTyped(records)
    requires forall x :: x in sigs <==> x in records && x.data.Rrsig?
    requires Attached(filed, sigs, served)
    ensures Behind(served, served.Keys, r) <==>
      if r.data.Rrsig? then r in records && !Orphaned(records, r)
      else !r.data.Soa? && r in At(filed, KeyOf(r))
  {
    if r.data.Rrsig? {
      if r in records && !Orphaned(records, r) {
        var q :| q in records && SignsOver(r, q);
        SignsOverKey(r, q);
        assert KeyOf(q) in served && r in served[KeyOf(q)].sigs;
      }
      if Behind(served, served.Keys, r) {
        var k :| k in served && (r in served[k].sigs || (k.1 != SOA && r in served[k].records));
        var q := CoversFiled(records, filed, k);
        SignsOverKey(r, q);
      }
    } else {
      if !r.data.Soa? && r in At(filed, KeyOf(r)) {
        assert TypeOf(r) != SOA;
        assert KeyOf(r) in served && r in served[KeyOf(r)].records;
      }
    }
  }

  lemma CoversFiled(records: seq<Record>, filed: Served, k: Key) returns (q: Record)
    requires FiledFrom(filed, records) && k in filed
    ensures q in records && !q.data.Rrsig? && KeyOf(q) == k
  {
    q := filed[k].records[0];
    assert q in filed[k].records;
    assert q in records && !q.data.Rrsig? && KeyOf(q) == k;
  }

  lemma HandsOnAll(records: seq<Record>, filed: Served, sigs: seq<Record>, served: Served, soa: Record, others: seq<Record>)
    requires WellTyped(records) && Clean(records) && FiledFrom(filed, records) && AllFiled(filed, records)
    requires forall x :: x in sigs <==> x in records && x.data.Rrsig?
    requires Attached(filed, sigs, served) && Collected(served, served.Keys, Some(soa), others)
    requires soa in records && soa.data.Soa?
    ensures Handed(soa, others) == Sent(records)
  {
    forall r
      ensures r in Handed(soa, others) <==> r in Sent(records)
    {
      BehindIs(records, filed, sigs, served, r);
      if r in records && r.data.Soa? {
        assert !Clash(r, soa);
      }
    }
  }

  /** Of two records that clash at most one is handed on. */
  lemma ClashIsLost(records: seq<Record>, filed: Served, sigs: seq<Record>, served: Served, soa: Record, others: seq<Record>)
    requires WellTyped(records) && !Clean(records) && FiledFrom(filed, records) && NoClashFiled(filed)
    requires forall x :: x in sigs <==> x in records && x.data.Rrsig?
    requires Attached(filed, sigs, served) && Collected(served, served.Keys, Some(soa), others)
    requires soa in records && soa.data.Soa?
    ensures Handed(soa, others) != Sent(records)
  {
    var a, b :| a in records && b in records && Clash(a, b);
    BehindIs(records, filed, sigs, served, a);
    BehindIs(records, filed, sigs, served, b);
    assert a in Sent(records) && b in Sent(records);
    if a in Handed(soa, others) && b in Handed(soa, others) {
      NotBoth(records, filed, soa, a, b);
    }
  }

  lemma NotBoth(records: seq<Record>, filed: Served, soa: Record, a: Record, b: Record)
    requires WellTyped(records) && NoClashFiled(filed) && a in records && b in records && Clash(a, b) && soa.data.Soa?
    ensures !((a == soa || (!a.data.Soa? && a in At(filed, KeyOf(a)))) && (b == soa || (!b.data.Soa? && b in At(filed, KeyOf(b)))))
  {
    assert KeyOf(a) in filed ==> NoClashIn(filed[KeyOf(a)].records);
  }
}
