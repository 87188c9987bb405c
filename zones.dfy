/** Zone files: the zone list, record-type classification, suffix matching,
    rendering of one zone's text and writing it to `<zone>.zone`. */
module Zones {
  import opened Strings
  import opened Errors
  import opened IpLiteral
  import opened Records

  /** `get_zones`: the configured zone string split on ','. There is one
      zone more than there are commas (an empty string gives the single
      zone ""), no zone holds a comma, and joining with ',' restores the
      configuration. */
  function GetZones(zonesConfig: string): (zones: seq<string>)
    ensures |zones| == Count(zonesConfig, ',') + 1
    ensures forall i :: 0 <= i < |zones| ==> ',' !in zones[i]
    ensures Join(zones, ',') == zonesConfig
  {
    SplitLength(zonesConfig, ',');
    JoinSplit(zonesConfig, ',');
    Split(zonesConfig, ',')
  }

  datatype RecordType = A | AAAA

  function TypeName(t: RecordType): string
  {
    match t
    case A => "A"
    case AAAA => "AAAA"
  }

  /** `determine_record_type`: "A" for an IPv4 address, "AAAA" for an IPv6
      one, and the `ValueError` of `ip_address` for anything else. */
  function DetermineRecordType(ip: string): (r: Result<RecordType>)
    ensures r == Ok(A) <==> IsIPv4(ip)
    ensures r == Ok(AAAA) <==> IsIPv6(ip)
    ensures r.Err? <==> !IsIPv4(ip) && !IsIPv6(ip)
    ensures r.Err? ==> r.error == InvalidAddress(ip)
  {
    FamiliesDisjoint(ip);
    if IsIPv4(ip) then Ok(A)
    else if IsIPv6(ip) then Ok(AAAA)
    else Err(InvalidAddress(ip))
  }

  predicate IsAddress(ip: string)
  {
    IsIPv4(ip) || IsIPv6(ip)
  }

  /** A record belongs to a zone when its name ends with the zone string:
      literal and case-sensitive, with no regard for label boundaries. */
  predicate InZone(r: DnsRecord, zone: string)
  {
    EndsWith(r.dnsName, zone)
  }

  lemma ZoneMatchExamples()
    ensures InZone(DnsRecord("host.example.com", "10.0.0.1"), "example.com")
    ensures !InZone(DnsRecord("host.other.com", "10.0.0.1"), "example.com")
    ensures InZone(DnsRecord("notexample.com", "10.0.0.1"), "example.com")
    ensures !InZone(DnsRecord("host.EXAMPLE.COM", "10.0.0.1"), "example.com")
  {
    assert "host.example.com"[5..] == "example.com";
    assert "host.other.com"[3..][0] != "example.com"[0];
    assert "notexample.com"[3..] == "example.com";
    assert "host.EXAMPLE.COM"[5..][0] != "example.com"[0];
  }

  /** A zone configured as "" (as a trailing comma produces) takes every record. */
  lemma EmptyZoneTakesAll(r: DnsRecord)
    ensures InZone(r, "")
  {
    assert r.dnsName[|r.dnsName|..] == "";
  }

  /** The records of a zone, in input order. */
  function Matching(zone: string, rs: seq<DnsRecord>): seq<DnsRecord>
  {
    if rs == [] then []
    else
      var last := rs[|rs| - 1];
      Matching(zone, rs[..|rs| - 1]) + (if InZone(last, zone) then [last] else [])
  }

  lemma {:induction false} MatchingMembers(zone: string, rs: seq<DnsRecord>)
    ensures forall x :: x in Matching(zone, rs) <==> x in rs && InZone(x, zone)
  {
    if rs != [] {
      MatchingMembers(zone, rs[..|rs| - 1]);
      assert rs == rs[..|rs| - 1] + [rs[|rs| - 1]];
    }
  }

  lemma {:induction false} MatchingAppend(zone: string, a: seq<DnsRecord>, b: seq<DnsRecord>)
    ensures Matching(zone, a + b) == Matching(zone, a) + Matching(zone, b)
  {
    if b == [] {
      assert a + b == a;
    } else {
      MatchingAppend(zone, a, b[..|b| - 1]);
      assert (a + b)[..|a + b| - 1] == a + b[..|b| - 1];
    }
  }

  /** One zone-file line without its newline: "<name>. IN <type> <ip>". */
  function LineBody(r: DnsRecord, t: RecordType): string
  {
    r.dnsName + ". IN " + TypeName(t) + " " + r.ip
  }

  /** The record type of an address known to be one. */
  function TypeOf(ip: string): RecordType
  {
    if IsIPv4(ip) then A else AAAA
  }

  /** The line bodies of records whose addresses all classify. */
  function Bodies(ms: seq<DnsRecord>): seq<string>
  {
    seq(|ms|, j requires 0 <= j < |ms| => LineBody(ms[j], TypeOf(ms[j].ip)))
  }

  /** What the loop of `write_zone_file` computes from the first |rs|
      records: each record in the zone adds its line, and the first address
      that does not classify stops it with that error. */
  function Render(zone: string, rs: seq<DnsRecord>): Result<string>
  {
    if rs == [] then Ok("")
    else
      match Render(zone, rs[..|rs| - 1])
      case Err(e) => Err(e)
      case Ok(text) =>
        var r := rs[|rs| - 1];
        if !InZone(r, zone) then Ok(text)
        else
          match DetermineRecordType(r.ip)
          case Err(e) => Err(e)
          case Ok(t) => Ok(text + LineBody(r, t) + "\n")
  }

  /** Once a prefix fails, the whole list fails with the same error. */
  lemma {:induction false} RenderErrorSticks(zone: string, rs: seq<DnsRecord>, k: nat)
    requires k <= |rs| && Render(zone, rs[..k]).Err?
    ensures Render(zone, rs) == Render(zone, rs[..k])
  {
    if k < |rs| {
      var init := rs[..|rs| - 1];
      assert init[..k] == rs[..k];
      RenderErrorSticks(zone, init, k);
    } else {
      assert rs[..k] == rs;
    }
  }

  /** Rendering succeeds exactly when every record in the zone has an
      address that classifies; records outside the zone are never classified. */
  lemma {:induction false} RenderOkIff(zone: string, rs: seq<DnsRecord>)
    ensures Render(zone, rs).Ok? <==>
      forall i :: 0 <= i < |rs| && InZone(rs[i], zone) ==> IsAddress(rs[i].ip)
  {
    if rs != [] {
      var init := rs[..|rs| - 1];
      RenderOkIff(zone, init);
      assert forall i :: 0 <= i < |init| ==> init[i] == rs[i];
    }
  }

  /** A failure names the first record of the zone whose address does not
      classify. */
  lemma {:induction false} RenderFirstError(zone: string, rs: seq<DnsRecord>)
    requires Render(zone, rs).Err?
    ensures exists k :: (0 <= k < |rs| && InZone(rs[k], zone) && !IsAddress(rs[k].ip) &&
      Render(zone, rs).error == InvalidAddress(rs[k].ip) &&
      forall j :: 0 <= j < k && InZone(rs[j], zone) ==> IsAddress(rs[j].ip))
  {
    var init := rs[..|rs| - 1];
    assert forall i :: 0 <= i < |init| ==> init[i] == rs[i];
    if Render(zone, init).Err? {
      RenderFirstError(zone, init);
    } else {
      RenderOkIff(zone, init);
    }
  }

  /** Records outside the zone play no part: rendering only the zone's
      records gives the same text or the same error. */
  lemma {:induction false} RenderOnlyZoneRecords(zone: string, rs: seq<DnsRecord>)
    ensures Render(zone, Matching(zone, rs)) == Render(zone, rs)
  {
    if rs != [] {
      var init, r := rs[..|rs| - 1], rs[|rs| - 1];
      RenderOnlyZoneRecords(zone, init);
      var m := Matching(zone, init);
      if InZone(r, zone) {
        assert Matching(zone, rs) == m + [r];
        assert (m + [r])[..|m|] == m;
      } else {
        assert Matching(zone, rs) == m;
      }
    }
  }

  /** The reference form of a successful rendering: the line bodies of the
      zone's records, in input order, each followed by a newline, which is
      "" when no record is in the zone. */
  lemma {:induction false} RenderText(zone: string, rs: seq<DnsRecord>)
    requires Render(zone, rs).Ok?
    ensures Render(zone, rs).value == Join(Bodies(Matching(zone, rs)) + [""], '\n')
  {
    if rs == [] {
      assert Bodies([]) + [""] == [""];
    } else {
      var init, r := rs[..|rs| - 1], rs[|rs| - 1];
      assert Render(zone, init).Ok?;
      RenderText(zone, init);
      var m := Matching(zone, init);
      if InZone(r, zone) {
        assert DetermineRecordType(r.ip) == Ok(TypeOf(r.ip));
        assert Matching(zone, rs) == m + [r];
        assert Bodies(m + [r]) == Bodies(m) + [LineBody(r, TypeOf(r.ip))];
        var b := LineBody(r, TypeOf(r.ip));
        JoinTerminatedAppend(Bodies(m), b, '\n');
        assert Bodies(m + [r]) + [""] == Bodies(m) + [b] + [""];
        assert Render(zone, rs).value == Render(zone, init).value + b + "\n";
      } else {
        assert Matching(zone, rs) == m;
      }
    }
  }

  lemma {:induction false} BodyHasNoNewline(r: DnsRecord, t: RecordType)
    requires '\n' !in r.dnsName && '\n' !in r.ip
    ensures '\n' !in LineBody(r, t)
  {
    assert LineBody(r, t) == r.dnsName + (". IN " + TypeName(t) + " ") + r.ip;
  }

  /** With no newline inside names and addresses, the text has exactly one
      line per record of the zone, in input order, and ends with a newline
      unless it is empty. */
  lemma RenderLines(zone: string, rs: seq<DnsRecord>)
    requires Render(zone, rs).Ok?
    requires forall i :: 0 <= i < |rs| && InZone(rs[i], zone) ==> '\n' !in rs[i].dnsName && '\n' !in rs[i].ip
    ensures Split(Render(zone, rs).value, '\n') == Bodies(Matching(zone, rs)) + [""]
    ensures |Split(Render(zone, rs).value, '\n')| == |Matching(zone, rs)| + 1
  {
    RenderText(zone, rs);
    var m := Matching(zone, rs);
    MatchingMembers(zone, rs);
    var lines := Bodies(m) + [""];
    forall j | 0 <= j < |lines| ensures '\n' !in lines[j] {
      if j < |m| {
        assert m[j] in rs && InZone(m[j], zone);
        BodyHasNoNewline(m[j], TypeOf(m[j].ip));
      }
    }
    SplitJoin(lines, '\n');
  }

  /** The text is empty exactly when no record is in the zone. */
  lemma RenderEmptyIff(zone: string, rs: seq<DnsRecord>)
    requires Render(zone, rs).Ok?
    ensures Render(zone, rs).value == "" <==> Matching(zone, rs) == []
  {
    RenderText(zone, rs);
    var b := Bodies(Matching(zone, rs));
    if b != [] {
      assert Join(b + [""], '\n') == b[0] + ['\n'] + Join((b + [""])[1..], '\n');
    }
  }

  /** The loop of `write_zone_file` (the file itself is written by
      WriteZoneFile below). */
  method BuildZoneFile(zoneName: string, dnsRecords: seq<DnsRecord>) returns (r: Result<string>)
    ensures r == Render(zoneName, dnsRecords)
  {
    var zonefile := "";
    for i := 0 to |dnsRecords|
      invariant Render(zoneName, dnsRecords[..i]) == Ok(zonefile)
    {
      var dnsRecord := dnsRecords[i];
      assert dnsRecords[..i + 1][..i] == dnsRecords[..i];
      if InZone(dnsRecord, zoneName) {
        var recordType := DetermineRecordType(dnsRecord.ip);
        if recordType.Err? {
          RenderErrorSticks(zoneName, dnsRecords, i + 1);
          return Err(recordType.error);
        }
        zonefile := zonefile + LineBody(dnsRecord, recordType.value) + "\n";
      }
    }
    assert dnsRecords[..|dnsRecords|] == dnsRecords;
    r := Ok(zonefile);
  }

  /** The file a zone is written to. */
  function ZonePath(zone: string): (path: string)
    ensures EndsWith(path, ".zone")
    ensures StartsWith(path, zone) && |path| == |zone| + 5
  {
    EndsWithIff(zone + ".zone", ".zone");
    StartsWithIff(zone + ".zone", zone);
    zone + ".zone"
  }

  /** Distinct zones are written to distinct files. */
  lemma ZonePathInjective(z1: string, z2: string)
    requires ZonePath(z1) == ZonePath(z2)
    ensures z1 == z2
  {
    assert z1 == ZonePath(z1)[..|z1|];
    assert z2 == ZonePath(z2)[..|z2|];
  }

  /** The zone files on disk: the text of each existing file by path, and
      the paths that cannot be opened for writing. */
  class ZoneDirectory {
    var files: map<string, string>
    const unwritable: set<string>

    constructor (files: map<string, string>, unwritable: set<string>)
      ensures this.files == files && this.unwritable == unwritable
    {
      this.files := files;
      this.unwritable := unwritable;
    }

    /** `open(path, "w").write(text)`: the file's content becomes exactly
        `text`, or opening fails and nothing changes. */
    method WriteFile(path: string, text: string) returns (r: Result<()>)
      modifies this
      ensures path in unwritable ==> r == Err(WriteFailure(path)) && files == old(files)
      ensures path !in unwritable ==> r == Ok(()) && files == old(files)[path := text]
    {
      if path in unwritable {
        return Err(WriteFailure(path));
      }
      files := files[path := text];
      r := Ok(());
    }
  }

  /** The outcome of `write_zone_file` and the files afterwards. */
  function WriteZone(zone: string, rs: seq<DnsRecord>, files: map<string, string>,
                     unwritable: set<string>): (map<string, string>, Result<()>)
  {
    match Render(zone, rs)
    case Err(e) => (files, Err(e))
    case Ok(text) =>
      if ZonePath(zone) in unwritable then (files, Err(WriteFailure(ZonePath(zone))))
      else (files[ZonePath(zone) := text], Ok(()))
  }

  /** `write_zone_file`: the whole text is built before the file is opened,
      so a record that does not classify leaves the file as it was. */
  method WriteZoneFile(zoneName: string, dnsRecords: seq<DnsRecord>, dir: ZoneDirectory)
    returns (r: Result<()>)
    modifies dir
    ensures (dir.files, r) == WriteZone(zoneName, dnsRecords, old(dir.files), dir.unwritable)
  {
    var zonefile := BuildZoneFile(zoneName, dnsRecords);
    if zonefile.Err? {
      return Err(zonefile.error);
    }
    r := dir.WriteFile(ZonePath(zoneName), zonefile.value);
  }
}
