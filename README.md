# netbox-bind-zones in Dafny

A verified model of `app.py`. This Flask service reads every IP address
with a DNS name from a NetBox inventory. It writes one BIND-style zone file
per configured zone. Each line has the form `<name>. IN <A|AAAA> <ip>`.

The modules follow the pipeline:

- `Strings` (strings.dfy): Python's `str.split` on one character, `str.join`, `startswith` and `endswith`.
- `Errors` (errors.dfy): the failures that stand in for Python exceptions, and `Result`/`Option`.
- `IpLiteral` (ip_literal.dfy): which strings `ipaddress.ip_address` accepts as IPv4 or IPv6.
  It follows Python 3.9.5 and later: no leading zeros in an octet, an optional `%scope`, and an optional dotted-quad tail.
- `Records` (records.dfy): the extraction loop of `get_all_dns_records`.
- `Client` (client.dfy): the header policy of `json_request`, and the inventory fetch.
  The reply of the fetch is an input.
- `Zones` (zones.dfy): `get_zones`, `determine_record_type`, zone matching, the rendering loop and the file write of `write_zone_file`.
  The zone files are a `ZoneDirectory` object. It holds a map from path to text and the set of paths that cannot be opened.
- `Sync` (sync.dfy): the zone loop of `index`.
- `Scenarios` (scenarios.dfy): two whole runs, computed from the model.

Each loop of the source is a method proved against a function that
specifies it. `ExtractRecords` is specified by `Extract`, `BuildZoneFile` by
`Render`, and `Index` by `Run`/`RunZones`. The lemmas state the behaviour of
those functions.

Three behaviours of the code worth knowing:

- The credential guard is a string-prefix test on the URL, not a host comparison.
  So a URL on a host whose name only extends the inventory's host name also gets the token (`Client.PrefixGuardAdmitsLongerHost`).
- Extraction does not check that an address is valid. A bad address fails only when a zone that contains its name is rendered.
- The header is `Authorization: Token <token>`.

## Model

| member | source | states |
|---|---|---|
| `Strings.Split` | app.py:44 | `str.split` on one character never returns an empty list, and no part holds the separator |
| `Strings.JoinSplit` | app.py:44 | joining the parts of a split with the same separator restores the string |
| `Strings.SplitJoin` | app.py:44 | splitting a join of separator-free parts gives back the parts |
| `Strings.SplitLength` | app.py:44 | a split has one more part than the string has separators |
| `Strings.SplitHead` | app.py:37 | the first part is a prefix of the string; it is the whole string when there is no separator, and is followed by the separator otherwise |
| `Strings.StartsWithIff` | app.py:17 | `url.startswith(base)` holds exactly when `url` is `base` followed by something |
| `Strings.EndsWithIff` | app.py:63 | `name.endswith(zone)` holds exactly when `name` is something followed by `zone` |
| `IpLiteral.StripScope` | app.py:52 | IPv6 parsing drops a `%scope` suffix: with no '%' the whole string is the address; with a '%', an address is kept exactly when there is one '%' and it is not the last character, and the address is the text before that '%' |
| `IpLiteral.IPv4HasNoColon` | app.py:52 | an accepted IPv4 string has no ':' |
| `IpLiteral.IPv6HasColon` | app.py:52 | an accepted IPv6 string has a ':' |
| `IpLiteral.FamiliesDisjoint` | app.py:52 | no string is accepted as both IPv4 and IPv6 |
| `IpLiteral.IPv4Example` | app.py:52 | "10.0.0.1" is IPv4 and not IPv6 |
| `IpLiteral.IPv6Example` | app.py:52 | "fe80::1" is IPv6 and not IPv4 |
| `IpLiteral.NeitherSeparator` | app.py:52 | a string with neither '.' nor ':' is neither IPv4 nor IPv6 |
| `IpLiteral.NotAnAddressExample` | app.py:52 | "not-an-ip" is neither |
| `Records.StripPrefixLength` | app.py:37 | `address.split("/")[0]` has no '/', is a prefix of the address, is the whole address when there is no '/', and is followed by the first '/' otherwise |
| `Records.StripCidr` | app.py:37 | for "A/B" with no '/' in A, the extracted address is A whatever B is |
| `Records.ExtractSelects` | app.py:32-38 | one output per object with a non-empty `dns_name`, in input order, with the name copied unchanged and the address stripped; each object with an empty name is dropped |
| `Records.ExtractWellFormed` | app.py:33-37 | every extracted record has a non-empty name and an address without '/' |
| `Records.ExtractAppend` | app.py:32-38 | extraction of a concatenation is the concatenation of the extractions |
| `Records.ExtractRecords` | app.py:32-40 | the extraction loop returns `Extract` of the inventory list |
| `Client.RequestHeaders` | app.py:15-18 | `Accept: application/json` is always sent; `Authorization: Token <token>` is sent exactly when the URL starts with the base URL; no other header is sent |
| `Client.JsonRequest` | app.py:14-20 | the request carries the given method and URL, with the headers of the policy above, and no other header |
| `Client.InventoryUrl` | app.py:28 | the inventory listing URL starts with the base URL |
| `Client.PrefixGuardAdmitsLongerHost` | app.py:17 | the guard admits "https://netbox.example.com.attacker.net/" for base "https://netbox.example.com", and rejects another host |
| `Client.GetAllDnsRecords` | app.py:27-40 | one GET of the listing URL, which carries the token; a non-JSON reply fails with its status and body (the only failure a fetch reports); otherwise the result is the extraction of the reply |
| `Zones.GetZones` | app.py:43-44 | one zone more than there are commas, no zone holds a comma, and joining with ',' restores the configuration |
| `Zones.DetermineRecordType` | app.py:47-52 | "A" exactly for IPv4, "AAAA" exactly for IPv6, and `InvalidAddress(ip)` exactly when neither |
| `Zones.ZoneMatchExamples` | app.py:63 | "host.example.com" and "notexample.com" match zone "example.com"; "host.other.com" and "host.EXAMPLE.COM" do not |
| `Zones.EmptyZoneTakesAll` | app.py:63 | an empty zone name, as a trailing comma produces, matches every record |
| `Zones.MatchingMembers` | app.py:62-64 | a record is selected for a zone exactly when it is in the input and its name ends with the zone |
| `Zones.MatchingAppend` | app.py:62-64 | selection of a concatenation is the concatenation of the selections, so input order is kept |
| `Zones.RenderErrorSticks` | app.py:62-68 | once the loop has failed on a prefix, the whole list fails with that error |
| `Zones.RenderOkIff` | app.py:62-68 | rendering succeeds exactly when every record of the zone has an address that classifies |
| `Zones.RenderFirstError` | app.py:62-68 | a failure carries the address of the first record of the zone that does not classify |
| `Zones.RenderOnlyZoneRecords` | app.py:62-64 | records outside the zone do not affect the text or the error |
| `Zones.RenderText` | app.py:61-68 | a successful text is `"\n".join(lines + [""])` over the zone's records in input order, each line "<name>. IN <type> <ip>" |
| `Zones.RenderLines` | app.py:61-68 | when the names and addresses of the zone's records hold no newline, the text has exactly one line per record of the zone, in order, and a final newline |
| `Zones.RenderEmptyIff` | app.py:61-68 | a successful text is empty exactly when no record is in the zone |
| `Zones.BuildZoneFile` | app.py:61-68 | the loop that builds `zonefile` returns `Render` of the zone and the records, so the same inputs always give the same text |
| `Zones.ZonePath` | app.py:70 | the file of a zone starts with the zone name, ends with ".zone" and has nothing in between |
| `Zones.ZonePathInjective` | app.py:70 | distinct zones have distinct files |
| `Zones.ZoneDirectory.WriteFile` | app.py:70-71 | the file's content becomes exactly the text; if the path cannot be opened, this fails with `WriteFailure` and nothing changes |
| `Zones.WriteZoneFile` | app.py:55-71 | the text is built before the file is opened, so a classification failure leaves the file untouched; otherwise the file is written as above |
| `Sync.RunErrorSticks` | app.py:82-83 | after the first failing zone, later zones change nothing |
| `Sync.RunOkIff` | app.py:82-83 | the loop succeeds exactly when every zone renders and every zone file can be opened |
| `Sync.RunFrame` | app.py:82-83 | a path that is not the file of a configured zone is never changed |
| `Sync.RunSuccessFiles` | app.py:82-83 | after success, each configured zone's file holds exactly that zone's rendered text |
| `Sync.RunFailure` | app.py:82-83 | a failure stops at some zone k: the earlier zones are written, the error is zone k's, and zone k's file is unchanged unless an earlier zone shares it |
| `Sync.Index` | app.py:78-84 | one authenticated fetch, then the zone loop over the split configuration; the files and the response are `Run` of the inputs, and a failed fetch writes nothing |
| `Scenarios.EndToEndExample` | app.py:78-84 | for the sample inventory and zones "example.com,example.org", the files are "a.example.com. IN A 10.0.0.1\n" and "b.example.org. IN AAAA fe80::1\n", and the response is "OK" |
| `Scenarios.InvalidAddressExample` | app.py:78-84 | a record "not-an-ip/24" in the only zone fails the run with `InvalidAddress("not-an-ip")` and changes no file |

## Left out

- The HTTP request, the JSON decoding of the reply and the lookup of its `results` key (app.py:20-24, 28-30) are not modelled. The decoded list, or the failure with status and body, is an input. A reply without `results`, an object without `dns_name` or `address`, and a `null` name are not modelled.
- The `json={}` payload of `json_request` is left out; the fetch never fills it.
- Flask, the route, `app.run` and the `config` module are not modelled. The base URL, the token and the zone string are parameters.
- `Zones.ZoneDirectory.WriteFile`: a write that fails after `open` has truncated the file (for example, a full disk) is not modelled. A write either replaces the whole content or fails at `open` with no change.
- `IpLiteral`: only whether `ipaddress.ip_address` accepts a string is modelled, not the numeric address. The rules are those of Python 3.9.5 and later; older versions accept leading zeros in IPv4 octets and have no IPv6 scope ids.
- `Strings.Split` models `str.split` for a one-character separator only, which is all the source uses.
- Concurrent runs writing the same zone files are not modelled; the model runs one request at a time.
