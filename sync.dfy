/** The request handler `index`: fetch the inventory once, then write the
    file of every configured zone in order, stopping at the first failure. */
module Sync {
  import opened Strings
  import opened Errors
  import opened IpLiteral
  import opened Records
  import opened Client
  import opened Zones

  /** The files after the zone loop has run over `zones`, and its outcome:
      a failing zone stops the loop and leaves the files as they were
      after the zones before it. */
  function RunZones(zones: seq<string>, rs: seq<DnsRecord>, files: map<string, string>,
                    unwritable: set<string>): (map<string, string>, Result<()>)
  {
    if zones == [] then (files, Ok(()))
    else
      var (done, outcome) := RunZones(zones[..|zones| - 1], rs, files, unwritable);
      if outcome.Err? then (done, outcome)
      else WriteZone(zones[|zones| - 1], rs, done, unwritable)
  }

  /** The files after `index` and its response: "OK", or the failure that
      aborted it. A failed fetch writes nothing. */
  function Run(zonesConfig: string, reply: Result<seq<InventoryRecord>>,
               files: map<string, string>, unwritable: set<string>): (map<string, string>, Result<string>)
  {
    match reply
    case Err(e) => (files, Err(e))
    case Ok(ips) =>
      var (done, outcome) := RunZones(GetZones(zonesConfig), Extract(ips), files, unwritable);
      (done, if outcome.Ok? then Ok("OK") else Err(outcome.error))
  }

  /** A path is in the same state in both maps. */
  ghost predicate Untouched(after: map<string, string>, before: map<string, string>, p: string)
  {
    (p in after <==> p in before) && (p in before ==> after[p] == before[p])
  }

  lemma {:induction false} RunErrorSticks(zones: seq<string>, rs: seq<DnsRecord>,
                                          files: map<string, string>, unwritable: set<string>, k: nat)
    requires k <= |zones| && RunZones(zones[..k], rs, files, unwritable).1.Err?
    ensures RunZones(zones, rs, files, unwritable) == RunZones(zones[..k], rs, files, unwritable)
  {
    if k < |zones| {
      var init := zones[..|zones| - 1];
      assert init[..k] == zones[..k];
      RunErrorSticks(init, rs, files, unwritable, k);
    } else {
      assert zones[..k] == zones;
    }
  }

  /** The run succeeds exactly when every zone renders and every zone file
      can be opened. */
  lemma {:induction false} RunOkIff(zones: seq<string>, rs: seq<DnsRecord>,
                                    files: map<string, string>, unwritable: set<string>)
    ensures RunZones(zones, rs, files, unwritable).1.Ok? <==>
      forall i :: 0 <= i < |zones| ==>
        Render(zones[i], rs).Ok? && ZonePath(zones[i]) !in unwritable
  {
    if zones != [] {
      var init := zones[..|zones| - 1];
      RunOkIff(init, rs, files, unwritable);
      assert forall i :: 0 <= i < |init| ==> init[i] == zones[i];
    }
  }

  /** Only the files of configured zones are ever written. */
  lemma {:induction false} RunFrame(zones: seq<string>, rs: seq<DnsRecord>,
                                    files: map<string, string>, unwritable: set<string>, p: string)
    requires forall i :: 0 <= i < |zones| ==> p != ZonePath(zones[i])
    ensures Untouched(RunZones(zones, rs, files, unwritable).0, files, p)
  {
    if zones != [] {
      var init := zones[..|zones| - 1];
      assert forall i :: 0 <= i < |init| ==> init[i] == zones[i];
      RunFrame(init, rs, files, unwritable, p);
    }
  }

  /** After a successful run every configured zone's file holds exactly
      that zone's rendered text. */
  lemma {:induction false} RunSuccessFiles(zones: seq<string>, rs: seq<DnsRecord>,
                                           files: map<string, string>, unwritable: set<string>)
    requires RunZones(zones, rs, files, unwritable).1.Ok?
    ensures forall i :: 0 <= i < |zones| ==>
      ZonePath(zones[i]) in RunZones(zones, rs, files, unwritable).0 &&
      Render(zones[i], rs) == Ok(RunZones(zones, rs, files, unwritable).0[ZonePath(zones[i])])
  {
    if zones != [] {
      var init, z := zones[..|zones| - 1], zones[|zones| - 1];
      RunSuccessFiles(init, rs, files, unwritable);
      var done := RunZones(init, rs, files, unwritable).0;
      var after := RunZones(zones, rs, files, unwritable).0;
      assert after == done[ZonePath(z) := Render(z, rs).value];
      forall i | 0 <= i < |zones|
        ensures ZonePath(zones[i]) in after && Render(zones[i], rs) == Ok(after[ZonePath(zones[i])])
      {
        if i < |init| && ZonePath(zones[i]) != ZonePath(z) {
          assert init[i] == zones[i];
        } else if i < |init| {
          ZonePathInjective(zones[i], z);
        }
      }
    }
  }

  /** A failed run stopped at some zone k: the zones before it were written
      as in a run of those zones alone, the error is zone k's, and zone k's
      own file, unless an earlier zone shares it, is left as it was. */
  lemma {:induction false} RunFailure(zones: seq<string>, rs: seq<DnsRecord>,
                                      files: map<string, string>, unwritable: set<string>)
    requires RunZones(zones, rs, files, unwritable).1.Err?
    ensures exists k :: (0 <= k < |zones| &&
      RunZones(zones[..k], rs, files, unwritable).1.Ok? &&
      RunZones(zones, rs, files, unwritable).0 == RunZones(zones[..k], rs, files, unwritable).0 &&
      RunZones(zones, rs, files, unwritable).1 ==
        WriteZone(zones[k], rs, RunZones(zones[..k], rs, files, unwritable).0, unwritable).1 &&
      (zones[k] !in zones[..k] ==>
        Untouched(RunZones(zones, rs, files, unwritable).0, files, ZonePath(zones[k]))))
  {
    var init := zones[..|zones| - 1];
    if RunZones(init, rs, files, unwritable).1.Err? {
      RunFailure(init, rs, files, unwritable);
      var k :| 0 <= k < |init| &&
        RunZones(init[..k], rs, files, unwritable).1.Ok? &&
        RunZones(init, rs, files, unwritable).0 == RunZones(init[..k], rs, files, unwritable).0 &&
        RunZones(init, rs, files, unwritable).1 ==
          WriteZone(init[k], rs, RunZones(init[..k], rs, files, unwritable).0, unwritable).1 &&
        (init[k] !in init[..k] ==>
          Untouched(RunZones(init, rs, files, unwritable).0, files, ZonePath(init[k])));
      assert init[..k] == zones[..k];
      assert init[k] == zones[k];
    } else {
      var k := |zones| - 1;
      assert zones[..k] == init;
      if zones[k] !in init {
        forall i | 0 <= i < |init| ensures ZonePath(zones[k]) != ZonePath(init[i]) {
          if ZonePath(zones[k]) == ZonePath(init[i]) {
            ZonePathInjective(zones[k], init[i]);
          }
        }
        RunFrame(init, rs, files, unwritable, ZonePath(zones[k]));
      }
    }
  }

  /** `index`: fetch the records once, split the zone configuration, and
      write each zone's file in order; the first failure aborts the loop
      with the files of the earlier zones already written. */
  method Index(baseUrl: string, apiToken: string, zonesConfig: string,
               reply: Result<seq<InventoryRecord>>, dir: ZoneDirectory)
    returns (request: Request, r: Result<string>)
    requires reply.Err? ==> reply.error.InventoryUnavailable?
    modifies dir
    ensures request.httpMethod == "GET" && request.url == InventoryUrl(baseUrl)
    ensures "Authorization" in request.headers &&
      request.headers["Authorization"] == "Token " + apiToken
    ensures (dir.files, r) == Run(zonesConfig, reply, old(dir.files), dir.unwritable)
  {
    var dnsRecords;
    request, dnsRecords := GetAllDnsRecords(baseUrl, apiToken, reply);
    if dnsRecords.Err? {
      return request, Err(dnsRecords.error);
    }
    var zones := GetZones(zonesConfig);
    for i := 0 to |zones|
      invariant (dir.files, Ok(())) == RunZones(zones[..i], dnsRecords.value, old(dir.files), dir.unwritable)
    {
      assert zones[..i + 1][..i] == zones[..i];
      var written := WriteZoneFile(zones[i], dnsRecords.value, dir);
      if written.Err? {
        RunErrorSticks(zones, dnsRecords.value, old(dir.files), dir.unwritable, i + 1);
        return request, Err(written.error);
      }
    }
    assert zones[..|zones|] == zones;
    r := Ok("OK");
  }
}
