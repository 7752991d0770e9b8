/**
 * The requests the controller sends (internal/ntopng/controller.go):
 * endpoint and payload strings, and the headers setCommonOptions adds.
 */
module Requests {
  import opened Wrappers
  import opened Decimal
  import opened Http
  import Config

  const LuaRestV2Get := "/lua/rest/v2/get"
  const HostCustomFields := "ip,bytes.sent,bytes.rcvd,active_flows.as_client,active_flows.as_server,dns,num_alerts,mac,total_flows.as_client,total_flows.as_server,vlan,total_alerts,name,ifid,packets.rcvd,packets.sent"
  const HostCustomPath := "/host/custom_data.lua"
  const InterfaceListPath := "/ntopng/interfaces.lua"
  const InterfaceDataPath := "/interface/data.lua"

  /** The fixed text around the interface id in the host request's JSON body. */
  const HostPayloadHead := "{\"ifid\": "
  const HostPayloadTail := ", \"field_alias\": \"" + HostCustomFields + "\"}"

  /** The fixed text between the base URL and the interface id of an interface-data request. */
  const InterfaceDataQuery := LuaRestV2Get + InterfaceDataPath + "?ifid="

  predicate IsCredential(f: HeaderField) {
    f.name == "Cookie" || f.name == "Authorization"
  }

  function CredentialCount(h: seq<HeaderField>): nat {
    if h == [] then 0 else (if IsCredential(h[0]) then 1 else 0) + CredentialCount(h[1..])
  }

  function ContentTypeHeaders(isJsonRequest: bool): seq<HeaderField> {
    if isJsonRequest then [HeaderField("Content-Type", Text("application/json"))] else []
  }

  function AuthHeaders(n: Config.NtopngConfig): seq<HeaderField> {
    if n.AuthMethod == "cookie" then
      [HeaderField("Cookie", Text("user=" + n.User + "; password=" + n.Password))]
    else if n.AuthMethod == "basic" then
      [HeaderField("Authorization", BasicCredentials(n.User, n.Password))]
    else if n.AuthMethod == "token" then
      [HeaderField("Authorization", Text("Token " + n.Token))]
    else []
  }

  /** The headers setCommonOptions adds to a fresh request. */
  function CommonHeaders(n: Config.NtopngConfig, isJsonRequest: bool): (h: seq<HeaderField>)
    ensures (exists k :: 0 <= k < |h| && h[k].name == "Content-Type") <==> isJsonRequest
    ensures CredentialCount(h) <= 1
    ensures n.AuthMethod == "cookie" ==>
      HeaderField("Cookie", Text("user=" + n.User + "; password=" + n.Password)) in h
    ensures n.AuthMethod == "basic" ==> HeaderField("Authorization", BasicCredentials(n.User, n.Password)) in h
    ensures n.AuthMethod == "token" ==> HeaderField("Authorization", Text("Token " + n.Token)) in h
    ensures n.AuthMethod !in {"cookie", "basic", "token"} ==> CredentialCount(h) == 0
  {
    var ct := ContentTypeHeaders(isJsonRequest);
    var auth := AuthHeaders(n);
    assert CredentialCount(ct) == 0;
    assert |auth| <= 1 && (auth != [] ==> IsCredential(auth[0]));
    assert auth == [] ==> ct + auth == ct;
    assert auth != [] ==> (ct + auth)[|ct|] == auth[0] && CredentialCount(ct + auth) == CredentialCount(ct) + 1 by {
      if auth != [] {
        assert auth[1..] == [];
        assert CredentialCount(auth) == 1;
        if ct != [] {
          assert (ct + auth)[1..] == auth;
        } else {
          assert ct + auth == auth;
        }
      }
    }
    ct + auth
  }

  /**
   * setCommonOptions adds nothing else: the JSON content type first when the
   * request is JSON, then one credential header for cookie, basic and token.
   */
  lemma CommonHeadersExactly(n: Config.NtopngConfig, isJsonRequest: bool)
    ensures var h := CommonHeaders(n, isJsonRequest);
      && |h| == (if isJsonRequest then 1 else 0) + (if n.AuthMethod in {"cookie", "basic", "token"} then 1 else 0)
      && (isJsonRequest ==> h[0] == HeaderField("Content-Type", Text("application/json")))
  {
  }

  function InterfaceListEndpoint(base: string): string {
    base + LuaRestV2Get + InterfaceListPath
  }

  function HostEndpoint(base: string): string {
    base + LuaRestV2Get + HostCustomPath
  }

  function HostPayload(interfaceId: int): string {
    HostPayloadHead + Itoa(interfaceId) + HostPayloadTail
  }

  function InterfaceDataEndpoint(base: string, interfaceId: int): string {
    base + InterfaceDataQuery + Itoa(interfaceId)
  }

  /** The interface-list request as CacheInterfaceIds sends it. */
  function InterfaceListRequest(n: Config.NtopngConfig): RequestData {
    RequestData("GET", InterfaceListEndpoint(n.EndPoint), "", CommonHeaders(n, false))
  }

  /** The host-telemetry request for one interface as scrapeHostEndpoint sends it. */
  function HostRequest(n: Config.NtopngConfig, interfaceId: int): RequestData {
    RequestData("POST", HostEndpoint(n.EndPoint), HostPayload(interfaceId), CommonHeaders(n, true))
  }

  /** The interface-telemetry request for one interface as scrapeInterfaceEndpoint sends it. */
  function InterfaceDataRequest(n: Config.NtopngConfig, interfaceId: int): RequestData {
    RequestData("GET", InterfaceDataEndpoint(n.EndPoint, interfaceId), "", CommonHeaders(n, false))
  }

  /** The host request's body names the interface it asks about. */
  lemma HostPayloadNamesInterface(interfaceId: int)
    ensures var p := HostPayload(interfaceId);
      |HostPayloadHead| + |HostPayloadTail| <= |p| &&
      ParseDecimal(p[|HostPayloadHead|..|p| - |HostPayloadTail|]) == Some(interfaceId)
  {
    var p := HostPayload(interfaceId);
    assert p[|HostPayloadHead|..|p| - |HostPayloadTail|] == Itoa(interfaceId);
    ItoaRoundTrip(interfaceId);
  }

  /** The interface-data URL ends with the interface it asks about. */
  lemma InterfaceDataEndpointNamesInterface(base: string, interfaceId: int)
    ensures var u := InterfaceDataEndpoint(base, interfaceId);
      |base| + |InterfaceDataQuery| <= |u| &&
      ParseDecimal(u[|base| + |InterfaceDataQuery|..]) == Some(interfaceId)
  {
    var u := InterfaceDataEndpoint(base, interfaceId);
    assert u[|base| + |InterfaceDataQuery|..] == Itoa(interfaceId);
    ItoaRoundTrip(interfaceId);
  }

  /** Each interface gets its own request: distinct ids never produce the same request. */
  lemma RequestsDistinguishInterfaces(n: Config.NtopngConfig, a: int, b: int)
    requires a != b
    ensures HostRequest(n, a) != HostRequest(n, b)
    ensures InterfaceDataRequest(n, a) != InterfaceDataRequest(n, b)
  {
    HostPayloadNamesInterface(a);
    HostPayloadNamesInterface(b);
    InterfaceDataEndpointNamesInterface(n.EndPoint, a);
    InterfaceDataEndpointNamesInterface(n.EndPoint, b);
  }

  /** With a validated configuration the token header is never sent. */
  lemma ValidatedConfigSendsNoToken(c: Config.Config, p: Config.Platform, isJsonRequest: bool)
    requires Config.Validate(c, p).Pass?
    ensures forall f :: f in CommonHeaders(c.Ntopng, isJsonRequest) ==>
      !(f.name == "Authorization" && f.value.Text?)
  {
  }
}
