/**
 * The exporter's configuration and its validation (internal/config/config.go).
 * Loading the file is not modelled; the parsers and the host query that
 * `validate` consults are inputs (see Platform).
 */
module Config {
  import opened Wrappers

  const AllScrape := "all"
  const HostScrape := "hosts"
  const InterfaceScrape := "interfaces"
  const L7Protocols := "l7protocols"

  /** The scrape targets a configuration may name. */
  const AvailableScrapeTargets: set<string> := {AllScrape, HostScrape, InterfaceScrape, L7Protocols}

  /** The authentication methods `validate` accepts. */
  const AcceptedAuthMethods: set<string> := {"cookie", "basic", "none"}

  /** The serve address that needs no check against the host's addresses. */
  const AnyAddress := "0.0.0.0"

  datatype NtopngConfig = NtopngConfig(
    EndPoint: string,
    User: string,
    Password: string,
    Token: string,
    AuthMethod: string,
    ScrapeInterval: string,
    ScrapeTargets: seq<string>,
    AllowUnsafeTLS: bool)

  datatype HostConfig = HostConfig(InterfacesToMonitor: seq<string>)

  datatype ServeConfig = ServeConfig(IP: string, Port: int)

  datatype MetricConfig = MetricConfig(LocalSubnetsOnly: seq<string>, ExcludeDNSMetrics: bool, Serve: ServeConfig)

  datatype Config = Config(Ntopng: NtopngConfig, Host: HostConfig, Metric: MetricConfig)

  /**
   * What `validate` learns from the standard library and the host:
   * whether net.ParseCIDR and time.ParseDuration accept a string, and the
   * textual addresses net.InterfaceAddrs reports (None when it fails).
   */
  datatype Platform = Platform(
    ParseCIDR: string -> bool,
    ParseDuration: string -> bool,
    InterfaceAddrs: Option<seq<string>>)

  datatype ConfigError =
    | BadAuthMethod
    | NoInterfaces
    | BlankInterface
    | BadSubnet(subnet: string)
    | BadDuration(interval: string)
    | NoHostAddresses
    | ServeIPAbsent(ip: string)
    | NoScrapeTargets
    | BadScrapeTarget(target: string)

  /** The first element of `s` that `ok` rejects, as a loop with an early return finds it. */
  function FirstRejected<T>(s: seq<T>, ok: T -> bool): (r: Option<T>)
    ensures r.None? <==> forall i :: 0 <= i < |s| ==> ok(s[i])
    ensures r.Some? ==> exists i :: 0 <= i < |s| && s[i] == r.value && !ok(s[i]) &&
                                    forall j :: 0 <= j < i ==> ok(s[j])
  {
    if s == [] then None
    else if !ok(s[0]) then Some(s[0])
    else
      var r := FirstRejected(s[1..], ok);
      assert forall i :: 1 <= i < |s| ==> s[i] == s[1..][i - 1];
      r
  }

  /** strings.Contains */
  predicate Contains(hay: string, needle: string) {
    exists i :: 0 <= i <= |hay| && needle <= hay[i..]
  }

  predicate ServeIPFound(addrs: seq<string>, ip: string) {
    exists k :: 0 <= k < |addrs| && Contains(addrs[k], ip)
  }

  // The guards of validate, each as the condition under which it passes.

  predicate AuthAccepted(c: Config) {
    c.Ntopng.AuthMethod in AcceptedAuthMethods
  }

  predicate InterfacesNamed(c: Config) {
    |c.Host.InterfacesToMonitor| >= 1 &&
    forall i :: 0 <= i < |c.Host.InterfacesToMonitor| ==> c.Host.InterfacesToMonitor[i] != ""
  }

  predicate SubnetsParse(c: Config, p: Platform) {
    forall i :: 0 <= i < |c.Metric.LocalSubnetsOnly| ==> p.ParseCIDR(c.Metric.LocalSubnetsOnly[i])
  }

  predicate IntervalParses(c: Config, p: Platform) {
    p.ParseDuration(c.Ntopng.ScrapeInterval)
  }

  predicate ServeAddressPresent(c: Config, p: Platform) {
    c.Metric.Serve.IP != AnyAddress ==>
      p.InterfaceAddrs.Some? && ServeIPFound(p.InterfaceAddrs.value, c.Metric.Serve.IP)
  }

  predicate TargetsAvailable(c: Config) {
    |c.Ntopng.ScrapeTargets| >= 1 &&
    forall i :: 0 <= i < |c.Ntopng.ScrapeTargets| ==> c.Ntopng.ScrapeTargets[i] in AvailableScrapeTargets
  }

  /**
   * Config.validate: the guards in source order; each error is returned exactly
   * when every earlier guard passes and its own fails, and an entry error names
   * the first entry that fails.
   */
  function Validate(c: Config, p: Platform): (r: Outcome<ConfigError>)
    ensures r == Fail(BadAuthMethod) <==> !AuthAccepted(c)
    ensures r == Fail(NoInterfaces) <==>
      AuthAccepted(c) && |c.Host.InterfacesToMonitor| == 0
    ensures r == Fail(BlankInterface) <==>
      AuthAccepted(c) && "" in c.Host.InterfacesToMonitor
    ensures r.Fail? && r.error.BadSubnet? <==>
      AuthAccepted(c) && InterfacesNamed(c) && !SubnetsParse(c, p)
    ensures r.Fail? && r.error.BadSubnet? ==>
      exists i :: 0 <= i < |c.Metric.LocalSubnetsOnly| && c.Metric.LocalSubnetsOnly[i] == r.error.subnet &&
                  !p.ParseCIDR(c.Metric.LocalSubnetsOnly[i]) &&
                  forall j :: 0 <= j < i ==> p.ParseCIDR(c.Metric.LocalSubnetsOnly[j])
    ensures r == Fail(BadDuration(c.Ntopng.ScrapeInterval)) <==>
      AuthAccepted(c) && InterfacesNamed(c) && SubnetsParse(c, p) && !IntervalParses(c, p)
    ensures r.Fail? && r.error.BadDuration? ==> r.error.interval == c.Ntopng.ScrapeInterval
    ensures r == Fail(NoHostAddresses) <==>
      AuthAccepted(c) && InterfacesNamed(c) && SubnetsParse(c, p) && IntervalParses(c, p) &&
      c.Metric.Serve.IP != AnyAddress && p.InterfaceAddrs.None?
    ensures r == Fail(ServeIPAbsent(c.Metric.Serve.IP)) <==>
      AuthAccepted(c) && InterfacesNamed(c) && SubnetsParse(c, p) && IntervalParses(c, p) &&
      c.Metric.Serve.IP != AnyAddress && p.InterfaceAddrs.Some? &&
      !ServeIPFound(p.InterfaceAddrs.value, c.Metric.Serve.IP)
    ensures r.Fail? && r.error.ServeIPAbsent? ==> r.error.ip == c.Metric.Serve.IP
    ensures r == Fail(NoScrapeTargets) <==>
      AuthAccepted(c) && InterfacesNamed(c) && SubnetsParse(c, p) && IntervalParses(c, p) &&
      ServeAddressPresent(c, p) && |c.Ntopng.ScrapeTargets| == 0
    ensures r.Fail? && r.error.BadScrapeTarget? <==>
      AuthAccepted(c) && InterfacesNamed(c) && SubnetsParse(c, p) && IntervalParses(c, p) &&
      ServeAddressPresent(c, p) && |c.Ntopng.ScrapeTargets| >= 1 && !TargetsAvailable(c)
    ensures r.Fail? && r.error.BadScrapeTarget? ==>
      exists i :: 0 <= i < |c.Ntopng.ScrapeTargets| && c.Ntopng.ScrapeTargets[i] == r.error.target &&
                  c.Ntopng.ScrapeTargets[i] !in AvailableScrapeTargets &&
                  forall j :: 0 <= j < i ==> c.Ntopng.ScrapeTargets[j] in AvailableScrapeTargets
  {
    var n := c.Ntopng;
    var ifaces := c.Host.InterfacesToMonitor;
    if n.AuthMethod !in AcceptedAuthMethods then Fail(BadAuthMethod)
    else if |ifaces| < 1 then Fail(NoInterfaces)
    else if "" in ifaces then Fail(BlankInterface)
    else if FirstRejected(c.Metric.LocalSubnetsOnly, p.ParseCIDR).Some? then
      Fail(BadSubnet(FirstRejected(c.Metric.LocalSubnetsOnly, p.ParseCIDR).value))
    else if !p.ParseDuration(n.ScrapeInterval) then Fail(BadDuration(n.ScrapeInterval))
    else if c.Metric.Serve.IP != AnyAddress && p.InterfaceAddrs.None? then Fail(NoHostAddresses)
    else if c.Metric.Serve.IP != AnyAddress && !ServeIPFound(p.InterfaceAddrs.value, c.Metric.Serve.IP) then
      Fail(ServeIPAbsent(c.Metric.Serve.IP))
    else if |n.ScrapeTargets| < 1 then Fail(NoScrapeTargets)
    else if FirstRejected(n.ScrapeTargets, t => t in AvailableScrapeTargets).Some? then
      Fail(BadScrapeTarget(FirstRejected(n.ScrapeTargets, t => t in AvailableScrapeTargets).value))
    else Pass
  }

  /** Every requirement a valid configuration meets, stated independently of their order. */
  predicate Acceptable(c: Config, p: Platform) {
    && AuthAccepted(c)
    && InterfacesNamed(c)
    && SubnetsParse(c, p)
    && IntervalParses(c, p)
    && ServeAddressPresent(c, p)
    && TargetsAvailable(c)
  }

  /** validate succeeds exactly when every check passes. */
  lemma ValidateAcceptsExactly(c: Config, p: Platform)
    ensures Validate(c, p) == Pass <==> Acceptable(c, p)
  {
  }
}
