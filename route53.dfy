/** SPF-route53/update-route53.py: reading the zone names, selecting the public hosted zones
    whose names were asked for, and upserting the record sets into each of them. */
module Route53 {

  /** `line.rstrip('\n')`: drops every trailing newline character and nothing else. */
  function StripNewlines(line: string): (r: string)
    ensures |r| <= |line| && r == line[..|r|]
    ensures r == [] || r[|r| - 1] != '\n'
    ensures forall i :: |r| <= i < |line| ==> line[i] == '\n'
    decreases |line|
  {
    if line != [] && line[|line| - 1] == '\n' then StripNewlines(line[..|line| - 1]) else line
  }

  /** One entry of the `HostedZones` list of a `list_hosted_zones` page. */
  datatype HostedZone = HostedZone(id: string, name: string, privateZone: bool)

  /** The filter of `get_zone_ID`: a wanted name, and not a private zone. */
  predicate Selected(zone: HostedZone, hostedZones: seq<string>) {
    zone.name in hostedZones && !zone.privateZone
  }

  function Concat(pages: seq<seq<HostedZone>>): seq<HostedZone>
    decreases |pages|
  {
    if pages == [] then [] else Concat(pages[..|pages| - 1]) + pages[|pages| - 1]
  }

  /** Zone `i` is the last selected zone of `zones` with identifier `id`, so its name is the one
      a dictionary filled in order keeps for `id`. */
  predicate LastSelectedWithId(zones: seq<HostedZone>, hostedZones: seq<string>, id: string, i: int) {
    0 <= i < |zones| && zones[i].id == id && Selected(zones[i], hostedZones)
    && forall j :: i < j < |zones| ==> !(zones[j].id == id && Selected(zones[j], hostedZones))
  }

  /** The dictionary `get_zone_ID` fills, zone by zone: a later selected zone with the same
      `Id` overwrites an earlier one. */
  function ZoneMap(zones: seq<HostedZone>, hostedZones: seq<string>): map<string, string>
    decreases |zones|
  {
    if zones == [] then map[]
    else
      var m := ZoneMap(zones[..|zones| - 1], hostedZones);
      var zone := zones[|zones| - 1];
      if Selected(zone, hostedZones) then m[zone.id := zone.name] else m
  }

  /** The dictionary holds exactly the selected zones' identifiers, each mapped to the name of
      the last selected zone with that identifier, which is always a wanted name. */
  lemma {:induction false} ZoneMapSelects(zones: seq<HostedZone>, hostedZones: seq<string>)
    ensures forall id :: id in ZoneMap(zones, hostedZones) <==>
              exists i :: 0 <= i < |zones| && zones[i].id == id && Selected(zones[i], hostedZones)
    ensures forall id :: id in ZoneMap(zones, hostedZones) ==> ZoneMap(zones, hostedZones)[id] in hostedZones
    ensures forall id :: id in ZoneMap(zones, hostedZones) ==>
              exists i :: LastSelectedWithId(zones, hostedZones, id, i) && zones[i].name == ZoneMap(zones, hostedZones)[id]
    decreases |zones|
  {
    if zones != [] {
      var n := |zones| - 1;
      var init := zones[..n];
      var zone := zones[n];
      var m := ZoneMap(init, hostedZones);
      ZoneMapSelects(init, hostedZones);
      forall id ensures id in ZoneMap(zones, hostedZones) <==>
                      exists i :: 0 <= i < |zones| && zones[i].id == id && Selected(zones[i], hostedZones)
      {
        if exists i :: 0 <= i < |zones| && zones[i].id == id && Selected(zones[i], hostedZones) {
          var i :| 0 <= i < |zones| && zones[i].id == id && Selected(zones[i], hostedZones);
          if i < n {
            assert init[i] == zones[i];
          }
        }
        if id in m {
          var i :| 0 <= i < n && init[i].id == id && Selected(init[i], hostedZones);
          assert zones[i] == init[i];
        }
      }
      forall id | id in ZoneMap(zones, hostedZones)
        ensures ZoneMap(zones, hostedZones)[id] in hostedZones
        ensures exists i :: LastSelectedWithId(zones, hostedZones, id, i) && zones[i].name == ZoneMap(zones, hostedZones)[id]
      {
        if Selected(zone, hostedZones) && id == zone.id {
          assert LastSelectedWithId(zones, hostedZones, id, n);
        } else {
          var i :| LastSelectedWithId(init, hostedZones, id, i) && init[i].name == m[id];
          assert LastSelectedWithId(zones, hostedZones, id, i);
        }
      }
    }
  }

  /** `get_zone_ID`: concatenate the pages in page order, then record the `Id` of every selected
      zone with its `Name`. */
  method GetZoneIds(pages: seq<seq<HostedZone>>, hostedZones: seq<string>)
    returns (zoneIds: map<string, string>, allZones: seq<HostedZone>)
    ensures allZones == Concat(pages)
    ensures zoneIds == ZoneMap(allZones, hostedZones)
  {
    allZones := [];
    for p := 0 to |pages|
      invariant allZones == Concat(pages[..p])
    {
      assert pages[..p + 1][..p] == pages[..p];
      allZones := allZones + pages[p];
    }
    assert pages[..|pages|] == pages;
    zoneIds := map[];
    for k := 0 to |allZones|
      invariant zoneIds == ZoneMap(allZones[..k], hostedZones)
    {
      assert allZones[..k + 1][..k] == allZones[..k];
      var zone := allZones[k];
      if zone.name in hostedZones && zone.privateZone == false {
        zoneIds := zoneIds[zone.id := zone.name];
      }
    }
    assert allZones[..|allZones|] == allZones;
  }

  /** A resource record set as read from the records file. */
  datatype RecordSet = RecordSet(name: string, recordType: string, ttl: int, values: seq<string>)

  datatype Change = Change(action: string, recordSet: RecordSet)

  /** Arguments of one `change_resource_record_sets` call. */
  datatype ChangeRequest = ChangeRequest(hostedZoneId: string, changes: seq<Change>)

  /** `create_record`: a change batch of exactly one UPSERT of the given record set. */
  function CreateRecord(hostedZoneId: string, recordSet: RecordSet): (req: ChangeRequest)
    ensures IsUpsert(req, hostedZoneId, recordSet)
  {
    ChangeRequest(hostedZoneId, [Change("UPSERT", recordSet)])
  }

  /** The list comprehension of `main`: one `create_record` call per record, in file order. */
  function CreateRecords(hostedZoneId: string, recordSets: seq<RecordSet>): (reqs: seq<ChangeRequest>)
    ensures |reqs| == |recordSets|
    ensures forall j :: 0 <= j < |recordSets| ==> IsUpsert(reqs[j], hostedZoneId, recordSets[j])
  {
    seq(|recordSets|, j requires 0 <= j < |recordSets| => CreateRecord(hostedZoneId, recordSets[j]))
  }

  /** One change batch to the zone, holding a single UPSERT of `recordSet`. */
  predicate IsUpsert(req: ChangeRequest, zoneId: string, recordSet: RecordSet) {
    req.hostedZoneId == zoneId && |req.changes| == 1
    && req.changes[0].action == "UPSERT" && req.changes[0].recordSet == recordSet
  }

  /** A single-UPSERT change batch to a zone is exactly what `create_record` sends for that record
      set: no other request satisfies `IsUpsert`. */
  lemma UpsertIsCreateRecord(req: ChangeRequest, zoneId: string, recordSet: RecordSet)
    ensures IsUpsert(req, zoneId, recordSet) <==> req == CreateRecord(zoneId, recordSet)
  {
  }

  /** The requests sent for one zone: every record upserted in file order, the first renamed to
      the zone name and the others as read. */
  predicate UpsertsFor(batch: seq<ChangeRequest>, zoneId: string, zoneName: string, original: seq<RecordSet>) {
    |batch| == |original| && |original| > 0
    && IsUpsert(batch[0], zoneId, original[0].(name := zoneName))
    && forall j :: 1 <= j < |original| ==> IsUpsert(batch[j], zoneId, original[j])
  }

  /** The loop of `main`: for each selected zone, in the dictionary's iteration order `order`,
      overwrite the first record's name with the zone name and upsert every record into that
      zone. With no records the first iteration raises `IndexError` (`indexError`). */
  method UpsertRecords(zoneIds: map<string, string>, order: seq<string>, records: array<RecordSet>)
    returns (batches: seq<seq<ChangeRequest>>, indexError: bool)
    requires forall id :: id in zoneIds <==> id in order
    requires forall a, b :: 0 <= a < b < |order| ==> order[a] != order[b]
    modifies records
    ensures indexError <==> records.Length == 0 && |order| > 0
    ensures !indexError ==> |batches| == |order|
    ensures indexError ==> batches == []
    ensures forall z :: 0 <= z < |batches| ==> UpsertsFor(batches[z], order[z], zoneIds[order[z]], old(records[..]))
    ensures forall j :: 1 <= j < records.Length ==> records[j] == old(records[j])
    ensures records.Length > 0 ==>
              records[0] == if order == [] then old(records[0]) else old(records[0]).(name := zoneIds[order[|order| - 1]])
  {
    batches := [];
    indexError := false;
    for z := 0 to |order|
      invariant |batches| == z
      invariant forall y :: 0 <= y < z ==> UpsertsFor(batches[y], order[y], zoneIds[order[y]], old(records[..]))
      invariant forall j :: 1 <= j < records.Length ==> records[j] == old(records[j])
      invariant records.Length > 0 ==>
                  records[0] == if z == 0 then old(records[0]) else old(records[0]).(name := zoneIds[order[z - 1]])
    {
      var zoneId := order[z];
      if records.Length == 0 {
        return [], true;
      }
      records[0] := records[0].(name := zoneIds[zoneId]);
      var batch := CreateRecords(zoneId, records[..]);
      assert UpsertsFor(batch, zoneId, zoneIds[zoneId], old(records[..]));
      batches := batches + [batch];
    }
  }
}
