/** The inventory client: the headers `json_request` attaches, and the
    inventory fetch of `get_all_dns_records` with the reply as an input. */
module Client {
  import opened Strings
  import opened Errors
  import opened Records

  /** The request `json_request` hands to the HTTP library (the JSON body,
      always empty here, is left out). */
  datatype Request = Request(httpMethod: string, url: string, headers: map<string, string>)

  /** Builds the header dict: `Accept: application/json` always, and
      `Authorization: Token <token>` exactly when the URL starts with the
      inventory's base URL, so the token is never sent elsewhere. */
  method RequestHeaders(url: string, baseUrl: string, apiToken: string)
    returns (headers: map<string, string>)
    ensures "Accept" in headers && headers["Accept"] == "application/json"
    ensures "Authorization" in headers <==> StartsWith(url, baseUrl)
    ensures "Authorization" in headers ==> headers["Authorization"] == "Token " + apiToken
    ensures headers.Keys <= {"Accept", "Authorization"}
  {
    headers := map["Accept" := "application/json"];
    if StartsWith(url, baseUrl) {
      headers := headers["Authorization" := "Token " + apiToken];
    }
  }

  /** The request part of `json_request`. */
  method JsonRequest(url: string, httpMethod: string, baseUrl: string, apiToken: string)
    returns (request: Request)
    ensures request.url == url && request.httpMethod == httpMethod
    ensures "Accept" in request.headers && request.headers["Accept"] == "application/json"
    ensures "Authorization" in request.headers <==> StartsWith(url, baseUrl)
    ensures "Authorization" in request.headers ==>
      request.headers["Authorization"] == "Token " + apiToken
    ensures request.headers.Keys <= {"Accept", "Authorization"}
  {
    var headers := RequestHeaders(url, baseUrl, apiToken);
    request := Request(httpMethod, url, headers);
  }

  /** The unpaginated address listing of the inventory API. */
  function InventoryUrl(baseUrl: string): (url: string)
    ensures StartsWith(url, baseUrl)
  {
    StartsWithIff(baseUrl + "/api/ipam/ip-addresses/?limit=0", baseUrl);
    baseUrl + "/api/ipam/ip-addresses/?limit=0"
  }

  /** The guard is a plain string prefix test, not a host comparison: with
      a base URL written without a trailing '/', a host whose name merely
      extends the inventory's host name also receives the token. */
  lemma PrefixGuardAdmitsLongerHost()
    ensures StartsWith("https://netbox.example.com.attacker.net/", "https://netbox.example.com")
    ensures !StartsWith("https://other.example.com/", "https://netbox.example.com")
  {
    var base := "https://netbox.example.com";
    StartsWithIff("https://netbox.example.com.attacker.net/", base);
    assert "https://netbox.example.com.attacker.net/" == base + ".attacker.net/";
    assert "https://other.example.com/"[8] != base[8];
  }

  /** `get_all_dns_records`: one authenticated GET of the listing; when the
      reply is not JSON the fetch fails with its status and body (the only
      failure a fetch can report), otherwise
      the named records are extracted from its `results`. */
  method GetAllDnsRecords(baseUrl: string, apiToken: string, reply: Result<seq<InventoryRecord>>)
    returns (request: Request, records: Result<seq<DnsRecord>>)
    requires reply.Err? ==> reply.error.InventoryUnavailable?
    ensures request.httpMethod == "GET" && request.url == InventoryUrl(baseUrl)
    ensures "Authorization" in request.headers &&
      request.headers["Authorization"] == "Token " + apiToken
    ensures reply.Err? ==> records == Err(reply.error)
    ensures reply.Ok? ==> records == Ok(Extract(reply.value))
  {
    request := JsonRequest(InventoryUrl(baseUrl), "GET", baseUrl, apiToken);
    if reply.Err? {
      return request, Err(reply.error);
    }
    var dnsNames := ExtractRecords(reply.value);
    records := Ok(dnsNames);
  }
}
