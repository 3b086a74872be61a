/** Catalog zones from the publishing server to the consuming one. */
module CatalogRoundTrip {
  import opened MemberStore
  import Publish = CatalogPublish
  import Consume = CatalogConsumer

  /** Whatever a catalog's records are, the list read from them is one that can be reconciled. */
  lemma ReadListIsUsable(zones: Publish.Name, records: seq<Publish.Rr>, idna: Publish.Idna)
    requires Publish.Decodes(idna)
    ensures Consume.MemberList(Publish.Members(zones, records, idna))
  {
    var ms := Publish.Members(zones, records, idna);
    Publish.MembersExactly(zones, records, idna);
    forall m | m in ms
      ensures Normal(m)
    {
      assert Publish.Introduced(zones, records, m, idna);
      var k: nat :| k < |records| && Publish.Introduces(zones, records, k, m, idna);
      Publish.NormalMember(records[k], idna);
    }
  }

  /**
   After a consumer has reconciled what it read from the publisher's transfer, the
   catalog owns exactly the publisher's enabled primary zones, under the names their
   labels are printed as, save those whose name was taken.
   */
  lemma PublisherToConsumer(
    zones: seq<Publish.Zone>, catalog: string, serial: nat, members: seq<Publish.Member>, records: seq<Publish.Rr>,
    idna: Publish.Idna, db: Db, owner: string, c: Consume.Consumer, name: string)
    requires Publish.StoredZones(zones) && Publish.SameMembers(members, zones, catalog) && Publish.Decodes(idna)
    requires Publish.Transfers(records, Publish.NameOf(catalog), serial, members)
    requires ValidDb(db)
    requires Consume.Reconciled(db, owner, c, Publish.Members(Publish.ZonesName(Publish.NameOf(catalog)), records, idna))
    ensures Consume.Owns(db, owner, name) <==>
      Publish.IsRead(zones, catalog, name, idna) && !Consume.Clashes(db, owner, name)
  {
    Publish.ConsumerReads(zones, catalog, serial, members, records, idna);
    Consume.OwnsExactly(db, owner, c, Publish.Members(Publish.ZonesName(Publish.NameOf(catalog)), records, idna), name);
  }

  /** A published zone is owned under its own name exactly when that is free and no label of it is printed in Unicode. */
  lemma ZoneArrives(
    zones: seq<Publish.Zone>, catalog: string, serial: nat, members: seq<Publish.Member>, records: seq<Publish.Rr>,
    idna: Publish.Idna, db: Db, owner: string, c: Consume.Consumer, z: Publish.Zone)
    requires Publish.StoredZones(zones) && Publish.SameMembers(members, zones, catalog) && Publish.Decodes(idna)
    requires Publish.Transfers(records, Publish.NameOf(catalog), serial, members)
    requires ValidDb(db) && z in zones && Publish.Publishes(z, catalog)
    requires Consume.Reconciled(db, owner, c, Publish.Members(Publish.ZonesName(Publish.NameOf(catalog)), records, idna))
    ensures Consume.Owns(db, owner, z.name) <==>
      !Publish.Rendered(z.name, idna) && !Consume.Clashes(db, owner, z.name)
  {
    PublisherToConsumer(zones, catalog, serial, members, records, idna, db, owner, c, z.name);
    Publish.ZoneIsRead(zones, catalog, z, idna);
  }
}
