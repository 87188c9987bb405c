/** Record extraction: turning the inventory's IP-address objects into the
    (dns_name, ip) records the zone files are built from. */
module Records {
  import opened Strings

  /** One object of the inventory's `results` list, reduced to the two
      fields read here: `dns_name` (possibly empty) and `address` in CIDR
      notation such as "10.0.0.5/24". */
  datatype InventoryRecord = InventoryRecord(dnsName: string, address: string)

  /** One extracted record: the name and the address without its prefix length. */
  datatype DnsRecord = DnsRecord(dnsName: string, ip: string)

  /** `address.split("/")[0]`: the text before the first '/', or the whole
      address when it has none. */
  function StripPrefixLength(address: string): (ip: string)
    ensures '/' !in ip
    ensures StartsWith(address, ip)
    ensures '/' !in address ==> ip == address
    ensures '/' in address ==> |ip| < |address| && address[|ip|] == '/'
  {
    SplitHead(address, '/');
    Split(address, '/')[0]
  }

  /** For "A/B" with no '/' in A the extracted address is A, whatever B is. */
  lemma StripCidr(a: string, b: string)
    requires '/' !in a
    ensures StripPrefixLength(a + "/" + b) == a
  {
    SplitAfterSeparator(a, b, '/');
  }

  /** The record kept for a named inventory object. */
  function Normalize(r: InventoryRecord): DnsRecord
  {
    DnsRecord(r.dnsName, StripPrefixLength(r.address))
  }

  /** What the extraction loop produces from the first |rs| objects. */
  function Extract(rs: seq<InventoryRecord>): seq<DnsRecord>
  {
    if rs == [] then []
    else
      var last := rs[|rs| - 1];
      Extract(rs[..|rs| - 1]) + (if last.dnsName == "" then [] else [Normalize(last)])
  }

  /** The positions of the named objects, in increasing order. */
  function NamedPositions(rs: seq<InventoryRecord>): seq<nat>
  {
    if rs == [] then []
    else
      NamedPositions(rs[..|rs| - 1]) + (if rs[|rs| - 1].dnsName == "" then [] else [|rs| - 1])
  }

  /** Extraction selects the named objects, one output each, in their input
      order, and copies each name unchanged next to its stripped address;
      every object with an empty name is dropped. */
  lemma {:induction false} ExtractSelects(rs: seq<InventoryRecord>)
    ensures |Extract(rs)| == |NamedPositions(rs)|
    ensures forall j :: 0 <= j < |NamedPositions(rs)| ==>
      SelectedAt(rs, Extract(rs), NamedPositions(rs), j)
    ensures forall j, k :: 0 <= j < k < |NamedPositions(rs)| ==>
      NamedPositions(rs)[j] < NamedPositions(rs)[k]
    ensures forall i :: 0 <= i < |rs| && rs[i].dnsName != "" ==> i in NamedPositions(rs)
  {
    if rs != [] {
      var init := rs[..|rs| - 1];
      ExtractSelects(init);
      var out0, pos0 := Extract(init), NamedPositions(init);
      var out, pos := Extract(rs), NamedPositions(rs);
      forall j | 0 <= j < |pos0|
        ensures SelectedAt(rs, out, pos, j) && pos[j] < |rs| - 1
      {
        assert SelectedAt(init, out0, pos0, j);
        assert out[j] == out0[j] && pos[j] == pos0[j];
        assert init[pos0[j]] == rs[pos0[j]];
      }
      forall i | 0 <= i < |rs| && rs[i].dnsName != "" ensures i in pos {
        if i < |rs| - 1 {
          assert init[i] == rs[i];
          assert i in pos0;
        } else {
          assert pos == pos0 + [i];
        }
      }
    }
  }

  /** The j-th output is the record of the named object at position pos[j]. */
  ghost predicate SelectedAt(rs: seq<InventoryRecord>, out: seq<DnsRecord>, pos: seq<nat>, j: nat)
    requires j < |pos| && |out| == |pos|
  {
    pos[j] < |rs| && rs[pos[j]].dnsName != "" &&
    out[j] == DnsRecord(rs[pos[j]].dnsName, StripPrefixLength(rs[pos[j]].address))
  }

  /** Every extracted record has a non-empty name and a bare address. */
  lemma ExtractWellFormed(rs: seq<InventoryRecord>)
    ensures forall j :: 0 <= j < |Extract(rs)| ==>
      Extract(rs)[j].dnsName != "" && '/' !in Extract(rs)[j].ip
  {
    ExtractSelects(rs);
    forall j | 0 <= j < |Extract(rs)|
      ensures Extract(rs)[j].dnsName != "" && '/' !in Extract(rs)[j].ip
    {
      assert SelectedAt(rs, Extract(rs), NamedPositions(rs), j);
    }
  }

  /** Extraction works object by object, so it distributes over concatenation. */
  lemma {:induction false} ExtractAppend(a: seq<InventoryRecord>, b: seq<InventoryRecord>)
    ensures Extract(a + b) == Extract(a) + Extract(b)
  {
    if b == [] {
      assert a + b == a;
    } else {
      ExtractAppend(a, b[..|b| - 1]);
      assert (a + b)[..|a + b| - 1] == a + b[..|b| - 1];
    }
  }

  /** The loop of `get_all_dns_records`: append the record of each object
      whose `dns_name` is not empty. */
  method ExtractRecords(ips: seq<InventoryRecord>) returns (dnsNames: seq<DnsRecord>)
    ensures dnsNames == Extract(ips)
  {
    dnsNames := [];
    for i := 0 to |ips|
      invariant dnsNames == Extract(ips[..i])
    {
      assert ips[..i + 1][..i] == ips[..i];
      if ips[i].dnsName != "" {
        dnsNames := dnsNames + [DnsRecord(ips[i].dnsName, StripPrefixLength(ips[i].address))];
      }
    }
    assert ips[..|ips|] == ips;
  }
}
