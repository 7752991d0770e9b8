/**
 * Records exchanged with the ntopng appliance
 * (internal/ntopng/ntop_data_structures.go) and the controller's error values.
 * Float counters carry no logic and are kept as an opaque sequence.
 */
module NtopData {
  import opened Wrappers

  type Counters = seq<real>

  /** ntopInterface: one entry of the appliance's interface list. */
  datatype NtopInterface = NtopInterface(IfID: int, IfName: string)

  /** ntopHost: IfName is filled in by the controller, not by the appliance. */
  datatype Host = Host(IP: string, IfID: int, IfName: string, MAC: string, Name: string, VLAN: int, Metrics: Counters)

  /** ntopInterfaceFull: the per-interface aggregate, keyed by its own IfName. */
  datatype InterfaceFull = InterfaceFull(IfName: string, Metrics: Counters)

  /**
   * The `rsp` field of an envelope, together with what json.Unmarshal makes of it
   * for each target type: an interface list (None when decoding fails), the host
   * list left behind by decoding (errors there are ignored by the caller, so only
   * the list matters) and an interface aggregate (None when decoding fails).
   */
  datatype Payload = Payload(interfaces: Option<seq<NtopInterface>>, hosts: seq<Host>, aggregate: Option<InterfaceFull>)

  /** ntopResponse: the `{rc_str, rc, rsp}` envelope wrapping every response. */
  datatype Envelope = Envelope(RcStr: string, Rc: int, Rsp: Payload)

  /**
   * One HTTP exchange as the controller sees it: the status (0 when the transport
   * failed), the body text and the body decoded as an envelope (None when it is not one).
   */
  datatype Response = Response(status: int, body: string, envelope: Option<Envelope>)

  /** The duplicate-host warning: the host's address and both interfaces' names. */
  datatype DuplicateWarning = DuplicateWarning(ip: string, stored: string, incoming: string)

  datatype Error =
    | UpstreamStatus(status: int, body: string)
    | NotAnEnvelope
    | Rejected(rcStr: string)
    | BadInterfaceList
    | NoInterfaces(body: string)
    | MissingInterface(name: string)
    | NoHosts(body: string)
    | BadAggregate(ifLabel: string)
    | UnknownIfID(id: int)
}
