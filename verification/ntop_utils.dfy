/**
 * Helpers of internal/ntopng/utils.go: unwrapping the appliance's response
 * envelope, reverse lookup of an interface id, and the duplicate-host check.
 * None of them changes the controller: they take the controller's maps as
 * inputs and return a value.
 */
module NtopUtils {
  import opened Wrappers
  import opened Decimal
  import opened NtopData

  /** getRawJsonFromNtopResponse: the payload of an envelope whose rc_str is "OK". */
  function GetRawJsonFromNtopResponse(envelope: Option<Envelope>): (r: Result<Payload, Error>)
    ensures r.Success? <==> envelope.Some? && envelope.value.RcStr == "OK"
    ensures r.Success? ==> r.value == envelope.value.Rsp
    ensures envelope.None? ==> r == Failure(NotAnEnvelope)
    ensures envelope.Some? && envelope.value.RcStr != "OK" ==> r == Failure(Rejected(envelope.value.RcStr))
  {
    match envelope
    case None => Failure(NotAnEnvelope)
    case Some(e) => if e.RcStr != "OK" then Failure(Rejected(e.RcStr)) else Success(e.Rsp)
  }

  ghost predicate Injective(ifList: map<string, int>) {
    forall a, b :: a in ifList && b in ifList && ifList[a] == ifList[b] ==> a == b
  }

  /**
   * What a name reported for interface `id` may be: some name the registry maps
   * to `id` when there is one, otherwise the decimal rendering of `id`.
   */
  predicate ResolvedName(ifList: map<string, int>, id: int, name: string) {
    if id in ifList.Values then name in ifList && ifList[name] == id else name == Itoa(id)
  }

  /**
   * Controller.ResolveIfID: a search over the registry in Go's unspecified
   * map order, returning the first name found that maps to `inputIfID`.
   */
  method ResolveIfID(ifList: map<string, int>, inputIfID: int) returns (r: Result<string, Error>)
    ensures r.Success? ==> r.value in ifList && ifList[r.value] == inputIfID
    ensures r.Failure? <==> inputIfID !in ifList.Values
    ensures r.Failure? ==> r.error == UnknownIfID(inputIfID)
    ensures Injective(ifList) ==> forall n :: n in ifList && ifList[n] == inputIfID ==> r == Success(n)
  {
    var unvisited := ifList.Keys;
    while unvisited != {}
      invariant unvisited <= ifList.Keys
      invariant forall n :: n in ifList && n !in unvisited ==> ifList[n] != inputIfID
      decreases unvisited
    {
      var ifName :| ifName in unvisited;
      if ifList[ifName] == inputIfID {
        return Success(ifName);
      }
      unvisited := unvisited - {ifName};
    }
    return Failure(UnknownIfID(inputIfID));
  }

  /** ResolveIfID with the controller's fallback to the decimal id when nothing resolves. */
  method NameOrId(ifList: map<string, int>, id: int) returns (name: string)
    ensures ResolvedName(ifList, id, name)
  {
    var resolved := ResolveIfID(ifList, id);
    if resolved.Failure? {
      name := Itoa(id);
    } else {
      name := resolved.value;
    }
  }

  /** A host the published snapshot already holds under another interface id. */
  predicate IsDuplicate(hostList: map<string, Host>, host: Host) {
    host.IP in hostList && hostList[host.IP].IfID != host.IfID
  }

  /**
   * Controller.checkForDuplicateInterfaces against the map `hostList`: a warning
   * naming both interfaces when `hostList` holds the host's address under a
   * different interface id, otherwise nothing.
   */
  method CheckForDuplicateInterfaces(hostList: map<string, Host>, ifList: map<string, int>, host: Host)
    returns (r: Option<DuplicateWarning>)
    ensures r.Some? <==> host.IP in hostList && hostList[host.IP].IfID != host.IfID
    ensures r.Some? ==> r.value.ip == host.IP
    ensures r.Some? ==> ResolvedName(ifList, hostList[host.IP].IfID, r.value.stored)
    ensures r.Some? ==> ResolvedName(ifList, host.IfID, r.value.incoming)
  {
    if host.IP in hostList {
      var stored := hostList[host.IP];
      if stored.IfID != host.IfID {
        var ifName1 := NameOrId(ifList, stored.IfID);
        var ifName2 := NameOrId(ifList, host.IfID);
        return Some(DuplicateWarning(host.IP, ifName1, ifName2));
      }
    }
    return None;
  }
}
