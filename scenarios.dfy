/** The worked scenarios of the zone generator, computed from the model:
    two zones rendered from one fetch, and a run aborted by an address that
    is not one. */
module Scenarios {
  import opened Strings
  import opened Errors
  import opened IpLiteral
  import opened Records
  import opened Zones
  import opened Sync

  function ExampleInventory(): seq<InventoryRecord>
  {
    [InventoryRecord("a.example.com", "10.0.0.1/24"),
     InventoryRecord("", "10.0.0.2/24"),
     InventoryRecord("b.example.org", "fe80::1/64")]
  }

  lemma ExtractThree(x: InventoryRecord, y: InventoryRecord, z: InventoryRecord)
    requires x.dnsName != "" && y.dnsName == "" && z.dnsName != ""
    ensures Extract([x, y, z]) == [Normalize(x), Normalize(z)]
  {
    assert [x][..0] == [];
    assert Extract([x]) == [Normalize(x)];
    assert [x, y][..1] == [x];
    assert Extract([x, y]) == [Normalize(x)];
    assert [x, y, z][..2] == [x, y];
  }

  lemma ExampleExtract()
    ensures Extract(ExampleInventory()) ==
      [DnsRecord("a.example.com", "10.0.0.1"), DnsRecord("b.example.org", "fe80::1")]
  {
    ExtractThree(InventoryRecord("a.example.com", "10.0.0.1/24"),
                 InventoryRecord("", "10.0.0.2/24"),
                 InventoryRecord("b.example.org", "fe80::1/64"));
    ExampleStrip();
  }

  lemma ExampleStrip()
    ensures StripPrefixLength("10.0.0.1/24") == "10.0.0.1"
    ensures StripPrefixLength("fe80::1/64") == "fe80::1"
  {
    StripCidr("10.0.0.1", "24");
    StripCidr("fe80::1", "64");
    assert "10.0.0.1/24" == "10.0.0.1" + "/" + "24";
    assert "fe80::1/64" == "fe80::1" + "/" + "64";
  }

  lemma ExampleZones()
    ensures GetZones("example.com,example.org") == ["example.com", "example.org"]
  {
    SplitTwo("example.com", "example.org", ',');
    assert "example.com,example.org" == "example.com" + [','] + "example.org";
  }

  /** Two records of which exactly one is in the zone render to its line. */
  lemma RenderOneOfTwo(zone: string, a: DnsRecord, b: DnsRecord, r: DnsRecord, t: RecordType)
    requires r == a || r == b
    requires InZone(a, zone) <==> r == a
    requires InZone(b, zone) <==> r == b
    requires a != b
    requires DetermineRecordType(r.ip) == Ok(t)
    ensures Render(zone, [a, b]) == Ok(LineBody(r, t) + "\n")
  {
    assert [a, b][..1] == [a];
    assert [a][..0] == [];
    assert Render(zone, []) == Ok("");
    if r == a {
      assert "" + LineBody(a, t) + "\n" == LineBody(a, t) + "\n";
      assert Render(zone, [a]) == Ok(LineBody(a, t) + "\n");
    } else {
      assert Render(zone, [a]) == Ok("");
      assert "" + LineBody(b, t) + "\n" == LineBody(b, t) + "\n";
    }
  }

  lemma ExampleMembership()
    ensures InZone(DnsRecord("a.example.com", "10.0.0.1"), "example.com")
    ensures !InZone(DnsRecord("b.example.org", "fe80::1"), "example.com")
    ensures !InZone(DnsRecord("a.example.com", "10.0.0.1"), "example.org")
    ensures InZone(DnsRecord("b.example.org", "fe80::1"), "example.org")
  {
    assert "a.example.com"[2..] == "example.com";
    assert "b.example.org"[2..][10] != "example.com"[10];
    assert "a.example.com"[2..][10] != "example.org"[10];
    assert "b.example.org"[2..] == "example.org";
  }

  lemma ExampleLines()
    ensures LineBody(DnsRecord("a.example.com", "10.0.0.1"), A) + "\n" == "a.example.com. IN A 10.0.0.1\n"
    ensures LineBody(DnsRecord("b.example.org", "fe80::1"), AAAA) + "\n" == "b.example.org. IN AAAA fe80::1\n"
  {
  }

  lemma ExampleRender()
    ensures Render("example.com", [DnsRecord("a.example.com", "10.0.0.1"), DnsRecord("b.example.org", "fe80::1")])
      == Ok("a.example.com. IN A 10.0.0.1\n")
    ensures Render("example.org", [DnsRecord("a.example.com", "10.0.0.1"), DnsRecord("b.example.org", "fe80::1")])
      == Ok("b.example.org. IN AAAA fe80::1\n")
  {
    var a, b := DnsRecord("a.example.com", "10.0.0.1"), DnsRecord("b.example.org", "fe80::1");
    IPv4Example();
    IPv6Example();
    ExampleMembership();
    ExampleLines();
    RenderOneOfTwo("example.com", a, b, a, A);
    RenderOneOfTwo("example.org", a, b, b, AAAA);
  }

  /** Two zones that both render, with writable files. */
  lemma RunTwoZones(z1: string, z2: string, rs: seq<DnsRecord>, files: map<string, string>,
                    t1: string, t2: string)
    requires Render(z1, rs) == Ok(t1) && Render(z2, rs) == Ok(t2)
    ensures RunZones([z1, z2], rs, files, {}) ==
      (files[ZonePath(z1) := t1][ZonePath(z2) := t2], Ok(()))
  {
    assert [z1, z2][..1] == [z1];
    assert [z1][..0] == [];
    assert RunZones([z1], rs, files, {}) == (files[ZonePath(z1) := t1], Ok(()));
  }

  lemma RunFromParts(zonesConfig: string, ips: seq<InventoryRecord>, files: map<string, string>,
                     unwritable: set<string>, zones: seq<string>, rs: seq<DnsRecord>,
                     after: map<string, string>, outcome: Result<()>)
    requires GetZones(zonesConfig) == zones && Extract(ips) == rs
    requires RunZones(zones, rs, files, unwritable) == (after, outcome)
    ensures Run(zonesConfig, Ok(ips), files, unwritable) ==
      (after, if outcome.Ok? then Ok("OK") else Err(outcome.error))
  {
  }

  /** The worked example: one IPv4 and one IPv6 record in two zones, and a
      record without a name that is dropped. */
  lemma EndToEndExample(files: map<string, string>)
    ensures Run("example.com,example.org", Ok(ExampleInventory()), files, {}) ==
      (files["example.com.zone" := "a.example.com. IN A 10.0.0.1\n"]
            ["example.org.zone" := "b.example.org. IN AAAA fe80::1\n"], Ok("OK"))
  {
    var rs := [DnsRecord("a.example.com", "10.0.0.1"), DnsRecord("b.example.org", "fe80::1")];
    ExampleExtract();
    ExampleZones();
    ExampleRender();
    RunTwoZones("example.com", "example.org", rs, files,
                "a.example.com. IN A 10.0.0.1\n", "b.example.org. IN AAAA fe80::1\n");
    ExamplePaths();
    RunFromParts("example.com,example.org", ExampleInventory(), files, {},
                 ["example.com", "example.org"], rs,
                 files["example.com.zone" := "a.example.com. IN A 10.0.0.1\n"]
                      ["example.org.zone" := "b.example.org. IN AAAA fe80::1\n"], Ok(()));
  }

  lemma ExamplePaths()
    ensures ZonePath("example.com") == "example.com.zone"
    ensures ZonePath("example.org") == "example.org.zone"
  {
  }

  lemma InvalidAddressExtract()
    ensures Extract([InventoryRecord("a.example.com", "not-an-ip/24")]) ==
      [DnsRecord("a.example.com", "not-an-ip")]
  {
    StripCidr("not-an-ip", "24");
    assert "not-an-ip/24" == "not-an-ip" + "/" + "24";
    assert [InventoryRecord("a.example.com", "not-an-ip/24")][..0] == [];
  }

  lemma InvalidAddressRender()
    ensures Render("example.com", [DnsRecord("a.example.com", "not-an-ip")]) ==
      Err(InvalidAddress("not-an-ip"))
  {
    InvalidAddressFacts();
    RenderSingleInvalid("example.com", DnsRecord("a.example.com", "not-an-ip"));
  }

  lemma SingleZone()
    ensures GetZones("example.com") == ["example.com"]
  {
    SplitNoSeparator("example.com", ',');
  }

  lemma RunOneFailingZone(zone: string, rs: seq<DnsRecord>, files: map<string, string>,
                          unwritable: set<string>)
    requires Render(zone, rs).Err?
    ensures RunZones([zone], rs, files, unwritable) == (files, Err(Render(zone, rs).error))
  {
    assert [zone][..0] == [];
  }

  lemma InvalidAddressFacts()
    ensures !IsAddress("not-an-ip")
    ensures InZone(DnsRecord("a.example.com", "not-an-ip"), "example.com")
  {
    NotAnAddressExample();
    InvalidAddressInZone();
  }

  lemma InvalidAddressInZone()
    ensures InZone(DnsRecord("a.example.com", "not-an-ip"), "example.com")
  {
    assert "a.example.com"[2..] == "example.com";
  }

  lemma RenderSingleInvalid(zone: string, r: DnsRecord)
    requires InZone(r, zone) && !IsAddress(r.ip)
    ensures Render(zone, [r]) == Err(InvalidAddress(r.ip))
  {
    assert [r][..0] == [];
  }

  /** An address that is not one aborts the run before its zone file is
      opened: no file changes. */
  lemma InvalidAddressExample(files: map<string, string>, unwritable: set<string>)
    ensures Run("example.com", Ok([InventoryRecord("a.example.com", "not-an-ip/24")]), files, unwritable) ==
      (files, Err(InvalidAddress("not-an-ip")))
  {
    var rs := [DnsRecord("a.example.com", "not-an-ip")];
    InvalidAddressExtract();
    InvalidAddressRender();
    SingleZone();
    RunOneFailingZone("example.com", rs, files, unwritable);
    RunFromParts("example.com", [InventoryRecord("a.example.com", "not-an-ip/24")], files, unwritable,
                 ["example.com"], rs, files, Err(InvalidAddress("not-an-ip")));
  }
}
