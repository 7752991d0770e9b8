/**
 * The scrape controller (internal/ntopng/controller.go): a registry of
 * interface ids, and the published host and interface maps that every scrape
 * cycle rebuilds in a private working map and then replaces wholesale.
 */
module Ntopng {
  import opened Wrappers
  import opened Decimal
  import opened Http
  import opened NtopData
  import opened NtopUtils
  import opened Requests
  import opened ScrapeSpec
  import Config

  /** The scrapes ScrapeAllConfiguredTargets can run. */
  datatype ScrapeKind = HostScrapeRun | InterfaceScrapeRun

  /** The scrapes the configured targets select, in the order they run. */
  function ScrapePlan(targets: seq<string>): (plan: seq<ScrapeKind>)
    ensures HostScrapeRun in plan <==> Config.HostScrape in targets || Config.AllScrape in targets
    ensures InterfaceScrapeRun in plan <==> Config.InterfaceScrape in targets || Config.AllScrape in targets
    ensures forall i, j :: 0 <= i < j < |plan| ==> plan[i] == HostScrapeRun && plan[j] == InterfaceScrapeRun
  {
    (if Config.HostScrape in targets || Config.AllScrape in targets then [HostScrapeRun] else []) +
    (if Config.InterfaceScrape in targets || Config.AllScrape in targets then [InterfaceScrapeRun] else [])
  }

  /**
   * The label the interface scrape's decode error carries as the source
   * writes it: the branches are swapped, so a resolvable id is shown as its
   * number and an unresolvable one as the empty name ResolveIfID returns with
   * its error.
   */
  function AggregateLabelAsWritten(ifList: map<string, int>, interfaceId: int): string {
    if interfaceId !in ifList.Values then "" else Itoa(interfaceId)
  }

  /** The as-written label shows a resolvable id as its number and an unknown id as the empty string. */
  lemma AggregateLabelAsWrittenLosesName()
    ensures var ifList := map["eth0" := 0];
      AggregateLabelAsWritten(ifList, 0) == "0" && !ResolvedName(ifList, 0, "0") &&
      AggregateLabelAsWritten(ifList, 7) == "" && !ResolvedName(ifList, 7, "")
  {
    var ifList := map["eth0" := 0];
    assert 0 in ifList.Values by {
      assert ifList["eth0"] == 0;
    }
    assert 7 !in ifList.Values;
    assert "0" !in ifList;
    assert Itoa(7) == "7";
  }

  class Controller {
    const config: Config.Config
    var ifList: map<string, int>
    var HostList: map<string, Host>
    var InterfaceList: map<string, InterfaceFull>

    /** CreateController: the maps start empty (Go's nil maps read as empty). */
    constructor (config: Config.Config)
      ensures this.config == config
      ensures ifList == map[] && HostList == map[] && InterfaceList == map[]
    {
      this.config := config;
      ifList, HostList, InterfaceList := map[], map[], map[];
    }

    /** setCommonOptions: appends the content-type and credential headers. */
    method SetCommonOptions(req: Request, isJsonRequest: bool)
      modifies req
      ensures req.Header == old(req.Header) + CommonHeaders(config.Ntopng, isJsonRequest)
    {
      var n := config.Ntopng;
      if isJsonRequest {
        req.Header := req.Header + [HeaderField("Content-Type", Text("application/json"))];
      }
      if n.AuthMethod == "cookie" {
        req.Header := req.Header + [HeaderField("Cookie", Text("user=" + n.User + "; password=" + n.Password))];
      } else if n.AuthMethod == "basic" {
        req.Header := req.Header + [HeaderField("Authorization", BasicCredentials(n.User, n.Password))];
      } else if n.AuthMethod == "token" {
        req.Header := req.Header + [HeaderField("Authorization", Text("Token " + n.Token))];
      }
    }

    /**
     * CacheInterfaceIds: fetch the interface list, replace the registry with it,
     * then require every configured interface name to be registered. The checks
     * before the rebuild leave the registry untouched; a missing configured name
     * is reported after the new registry is already installed.
     */
    method CacheInterfaceIds(fetch: RequestData -> Response) returns (r: Outcome<Error>)
      modifies this`ifList
      ensures InterfaceListFetch(config.Ntopng, fetch).Failure? ==>
        r == Fail(InterfaceListFetch(config.Ntopng, fetch).error) && ifList == old(ifList)
      ensures InterfaceListFetch(config.Ntopng, fetch).Success? ==>
        ifList == Registry(InterfaceListFetch(config.Ntopng, fetch).value)
      ensures r.Pass? <==>
        InterfaceListFetch(config.Ntopng, fetch).Success? && Registers(ifList, config.Host.InterfacesToMonitor)
      ensures r.Fail? && InterfaceListFetch(config.Ntopng, fetch).Success? ==>
        exists k :: 0 <= k < |config.Host.InterfacesToMonitor| &&
                    r.error == MissingInterface(config.Host.InterfacesToMonitor[k]) &&
                    config.Host.InterfacesToMonitor[k] !in ifList &&
                    forall j :: 0 <= j < k ==> config.Host.InterfacesToMonitor[j] in ifList
    {
      var req := new Request("GET", InterfaceListEndpoint(config.Ntopng.EndPoint), "");
      SetCommonOptions(req, false);
      assert req.Sent() == InterfaceListRequest(config.Ntopng);
      var resp := fetch(req.Sent());
      if resp.status != StatusOK {
        return Fail(UpstreamStatus(resp.status, resp.body));
      }
      var rawInterfaces := GetRawJsonFromNtopResponse(resp.envelope);
      if rawInterfaces.Failure? {
        return Fail(rawInterfaces.error);
      }
      if rawInterfaces.value.interfaces.None? {
        return Fail(BadInterfaceList);
      }
      var entries := rawInterfaces.value.interfaces.value;
      if |entries| < 1 {
        return Fail(NoInterfaces(resp.body));
      }
      ifList := map[];
      for i := 0 to |entries|
        invariant ifList == Registry(entries[..i])
      {
        assert entries[..i + 1][..i] == entries[..i];
        ifList := ifList[entries[i].IfName := entries[i].IfID];
      }
      assert entries[..|entries|] == entries;
      r := CheckConfiguredNames(ifList, config.Host.InterfacesToMonitor);
    }

    /**
     * The last step of CacheInterfaceIds: every configured interface name must
     * be registered; the first one that is not is the error.
     */
    static method CheckConfiguredNames(ifList: map<string, int>, names: seq<string>) returns (r: Outcome<Error>)
      ensures r.Pass? <==> Registers(ifList, names)
      ensures r.Fail? ==>
        exists k :: 0 <= k < |names| && r.error == MissingInterface(names[k]) && names[k] !in ifList &&
                    forall j :: 0 <= j < k ==> names[j] in ifList
    {
      for k := 0 to |names|
        invariant forall j :: 0 <= j < k ==> names[j] in ifList
      {
        if names[k] !in ifList {
          return Fail(MissingInterface(names[k]));
        }
      }
      return Pass;
    }

    /**
     * scrapeHostEndpoint: fetch one interface's hosts and insert into the
     * working map those that pass the duplicate check against the published
     * map and the subnet filter, each under its address with its interface
     * name resolved (a later record for the same address overwrites an
     * earlier one). On failure the working map is returned untouched.
     */
    method ScrapeHostEndpoint(interfaceId: int, tempNtopHosts: map<string, Host>, env: Env)
      returns (r: Outcome<Error>, hosts: map<string, Host>, warnings: seq<DuplicateWarning>)
      ensures HostFetch(config.Ntopng, env.fetch, interfaceId).Failure? ==>
        r == Fail(HostFetch(config.Ntopng, env.fetch, interfaceId).error) &&
        hosts == tempNtopHosts && warnings == []
      ensures HostFetch(config.Ntopng, env.fetch, interfaceId).Success? ==>
        var reported := HostFetch(config.Ntopng, env.fetch, interfaceId).value;
        && r == Pass
        && Built(hosts, tempNtopHosts, Admitted(reported, HostList, config.Metric.LocalSubnetsOnly, env.contains), ifList)
        && WarningsFor(warnings, Duplicates(reported, HostList), HostList, ifList)
    {
      hosts, warnings := tempNtopHosts, [];
      var req := new Request("POST", HostEndpoint(config.Ntopng.EndPoint), HostPayload(interfaceId));
      SetCommonOptions(req, true);
      assert req.Sent() == HostRequest(config.Ntopng, interfaceId);
      var resp := env.fetch(req.Sent());
      if resp.status != StatusOK {
        return Fail(UpstreamStatus(resp.status, resp.body)), hosts, warnings;
      }
      var rawHosts := GetRawJsonFromNtopResponse(resp.envelope);
      if rawHosts.Failure? {
        return Fail(rawHosts.error), hosts, warnings;
      }
      var hostList := rawHosts.value.hosts;
      if |hostList| < 1 {
        return Fail(NoHosts(resp.body)), hosts, warnings;
      }
      var subnets := config.Metric.LocalSubnetsOnly;
      ghost var admitted: seq<Host> := [];
      ghost var dups: seq<Host> := [];
      for i := 0 to |hostList|
        invariant admitted == Admitted(hostList[..i], HostList, subnets, env.contains)
        invariant dups == Duplicates(hostList[..i], HostList)
        invariant Built(hosts, tempNtopHosts, admitted, ifList)
        invariant WarningsFor(warnings, dups, HostList, ifList)
      {
        var myHost := hostList[i];
        AdmittedStep(hostList, i, HostList, subnets, env.contains);
        DuplicatesStep(hostList, i, HostList);
        var duplicate := CheckForDuplicateInterfaces(HostList, ifList, myHost);
        if duplicate.Some? {
          WarningsSnoc(warnings, dups, HostList, ifList, duplicate.value, myHost);
          warnings, dups := warnings + [duplicate.value], dups + [myHost];
        } else {
          var validIP := SubnetFilter(subnets, env.contains, myHost.IP);
          if validIP {
            var ifName := NameOrId(ifList, myHost.IfID);
            BuiltInsert(hosts, tempNtopHosts, admitted, ifList, myHost, myHost.(IfName := ifName));
            hosts, admitted := hosts[myHost.IP := myHost.(IfName := ifName)], admitted + [myHost];
          }
        }
      }
      assert hostList[..|hostList|] == hostList;
      return Pass, hosts, warnings;
    }

    /**
     * The local-subnet filter of scrapeHostEndpoint: with no subnets configured
     * every address passes; otherwise the scan stops at the first subnet that
     * contains the address.
     */
    static method SubnetFilter(subnets: seq<string>, contains: (string, string) -> bool, ip: string) returns (validIP: bool)
      ensures validIP <==> InLocalSubnets(subnets, contains, ip)
    {
      validIP := true;
      if |subnets| > 0 {
        validIP := false;
        for j := 0 to |subnets|
          invariant !validIP
          invariant forall k :: 0 <= k < j ==> !contains(subnets[k], ip)
        {
          if contains(subnets[j], ip) {
            validIP := true;
            break;
          }
        }
      }
    }

    /**
     * ScrapeHostEndpointForAllInterfaces: one host scrape per configured
     * interface, in order, into a fresh working map that then replaces the
     * published one. A failing interface is reported and skipped.
     */
    method ScrapeHostEndpointForAllInterfaces(env: Env) returns (failures: seq<ScrapeFailure>, warnings: seq<DuplicateWarning>)
      modifies this`HostList
      ensures Built(HostList, map[], CycleAdmitted(HostAnswersOf(config, ifList, env), old(HostList), config.Metric.LocalSubnetsOnly, env.contains, config.Host.InterfacesToMonitor), ifList)
      ensures failures == HostFailures(HostAnswersOf(config, ifList, env), config.Host.InterfacesToMonitor)
      ensures WarningsFor(warnings, CycleDuplicates(HostAnswersOf(config, ifList, env), old(HostList), config.Host.InterfacesToMonitor), old(HostList), ifList)
    {
      var tempNtopHosts: map<string, Host> := map[];
      var names := config.Host.InterfacesToMonitor;
      ghost var answers := HostAnswersOf(config, ifList, env);
      var subnets := config.Metric.LocalSubnetsOnly;
      failures, warnings := [], [];
      for i := 0 to |names|
        invariant HostList == old(HostList)
        invariant Built(tempNtopHosts, map[], CycleAdmitted(answers, HostList, subnets, env.contains, names[..i]), ifList)
        invariant failures == HostFailures(answers, names[..i])
        invariant WarningsFor(warnings, CycleDuplicates(answers, HostList, names[..i]), HostList, ifList)
      {
        var r, next, ws := ScrapeHostEndpoint(IdOf(ifList, names[i]), tempNtopHosts, env);
        assert answers(names[i]) == HostFetch(config.Ntopng, env.fetch, IdOf(ifList, names[i]));
        CycleExtend(answers, HostList, subnets, env.contains, names, i, ifList, tempNtopHosts, next, warnings, ws);
        tempNtopHosts, warnings := next, warnings + ws;
        if r.Fail? {
          failures := failures + [ScrapeFailure(names[i], r.error)];
        }
      }
      assert names[..|names|] == names;
      HostList := tempNtopHosts;
    }

    /**
     * scrapeInterfaceEndpoint: fetch one interface's aggregate and store it
     * in the working map under its own name. A decode failure is reported
     * with the interface's resolved name, or its number when it does not resolve.
     */
    method ScrapeInterfaceEndpoint(interfaceId: int, tempInterfaces: map<string, InterfaceFull>, env: Env)
      returns (r: Outcome<Error>, interfaces: map<string, InterfaceFull>)
      ensures AggregateFetch(config.Ntopng, env.fetch, interfaceId).Success? ==>
        var a := AggregateFetch(config.Ntopng, env.fetch, interfaceId).value;
        r == Pass && interfaces == tempInterfaces[a.IfName := a]
      ensures AggregateFetch(config.Ntopng, env.fetch, interfaceId).Failure? ==>
        r.Fail? && interfaces == tempInterfaces
      ensures AggregateFetch(config.Ntopng, env.fetch, interfaceId).Failure? &&
              AggregateFetch(config.Ntopng, env.fetch, interfaceId).error.Some? ==>
        r.error == AggregateFetch(config.Ntopng, env.fetch, interfaceId).error.value
      ensures AggregateFetch(config.Ntopng, env.fetch, interfaceId) == Failure(None) ==>
        r.error.BadAggregate? && ResolvedName(ifList, interfaceId, r.error.ifLabel)
    {
      interfaces := tempInterfaces;
      var req := new Request("GET", InterfaceDataEndpoint(config.Ntopng.EndPoint, interfaceId), "");
      SetCommonOptions(req, false);
      assert req.Sent() == InterfaceDataRequest(config.Ntopng, interfaceId);
      var resp := env.fetch(req.Sent());
      if resp.status != StatusOK {
        return Fail(UpstreamStatus(resp.status, resp.body)), interfaces;
      }
      var rawInterface := GetRawJsonFromNtopResponse(resp.envelope);
      if rawInterface.Failure? {
        return Fail(rawInterface.error), interfaces;
      }
      if rawInterface.value.aggregate.None? {
        var ifName := NameOrId(ifList, interfaceId);
        return Fail(BadAggregate(ifName)), interfaces;
      }
      var ifFull := rawInterface.value.aggregate.value;
      interfaces := interfaces[ifFull.IfName := ifFull];
      return Pass, interfaces;
    }

    /**
     * ScrapeInterfaceEndpointForAllInterfaces: one interface scrape per
     * configured interface, in order, into a fresh working map that then
     * replaces the published one. A failing interface is reported and skipped.
     */
    method ScrapeInterfaceEndpointForAllInterfaces(env: Env) returns (failures: seq<ScrapeFailure>)
      modifies this`InterfaceList
      ensures InterfaceList == InterfaceSnapshot(AggregateAnswersOf(config, ifList, env.fetch), config.Host.InterfacesToMonitor)
      ensures FailedNames(failures) == InterfaceFailureNames(AggregateAnswersOf(config, ifList, env.fetch), config.Host.InterfacesToMonitor)
    {
      var tempNtopInterfaces: map<string, InterfaceFull> := map[];
      var names := config.Host.InterfacesToMonitor;
      ghost var answers := AggregateAnswersOf(config, ifList, env.fetch);
      failures := [];
      for i := 0 to |names|
        invariant tempNtopInterfaces == InterfaceSnapshot(answers, names[..i])
        invariant FailedNames(failures) == InterfaceFailureNames(answers, names[..i])
      {
        InterfaceStep(answers, names, i);
        var r, next := ScrapeInterfaceEndpoint(IdOf(ifList, names[i]), tempNtopInterfaces, env);
        tempNtopInterfaces := next;
        if r.Fail? {
          var f := ScrapeFailure(names[i], r.error);
          FailedNamesSnoc(failures, f);
          failures := failures + [f];
        }
      }
      assert names[..|names|] == names;
      InterfaceList := tempNtopInterfaces;
    }

    /**
     * ScrapeAllConfiguredTargets: the host scrape when the targets name "hosts"
     * or "all", then the interface scrape when they name "interfaces" or "all".
     * Returns the scrapes it ran, in order.
     */
    method ScrapeAllConfiguredTargets(env: Env) returns (ran: seq<ScrapeKind>)
      modifies this`HostList, this`InterfaceList
      ensures ran == ScrapePlan(config.Ntopng.ScrapeTargets)
      ensures HostScrapeRun in ran ==>
        Built(HostList, map[], CycleAdmitted(HostAnswersOf(config, ifList, env), old(HostList), config.Metric.LocalSubnetsOnly, env.contains, config.Host.InterfacesToMonitor), ifList)
      ensures HostScrapeRun !in ran ==> HostList == old(HostList)
      ensures InterfaceScrapeRun in ran ==>
        InterfaceList == InterfaceSnapshot(AggregateAnswersOf(config, ifList, env.fetch), config.Host.InterfacesToMonitor)
      ensures InterfaceScrapeRun !in ran ==> InterfaceList == old(InterfaceList)
    {
      var targets := config.Ntopng.ScrapeTargets;
      var hostsRun, interfacesRun := [], [];
      if Config.HostScrape in targets || Config.AllScrape in targets {
        var failures, warnings := ScrapeHostEndpointForAllInterfaces(env);
        hostsRun := [HostScrapeRun];
      }
      if Config.InterfaceScrape in targets || Config.AllScrape in targets {
        var failures := ScrapeInterfaceEndpointForAllInterfaces(env);
        interfacesRun := [InterfaceScrapeRun];
      }
      ran := hostsRun + interfacesRun;
    }
  }

  /**
   * The exporter's start-up order: build the registry, and only when that
   * succeeds run the first scrape; a failed registry stops the exporter
   * before any scrape.
   */
  method Start(cfg: Config.Config, env: Env) returns (c: Controller, started: bool)
    ensures fresh(c) && c.config == cfg
    ensures started <==>
      InterfaceListFetch(cfg.Ntopng, env.fetch).Success? &&
      Registers(Registry(InterfaceListFetch(cfg.Ntopng, env.fetch).value), cfg.Host.InterfacesToMonitor)
    ensures InterfaceListFetch(cfg.Ntopng, env.fetch).Success? ==>
      c.ifList == Registry(InterfaceListFetch(cfg.Ntopng, env.fetch).value)
    ensures InterfaceListFetch(cfg.Ntopng, env.fetch).Failure? ==> c.ifList == map[]
    ensures started ==> Registers(c.ifList, cfg.Host.InterfacesToMonitor)
    ensures !started ==> c.HostList == map[] && c.InterfaceList == map[]
    ensures started && HostScrapeRun in ScrapePlan(cfg.Ntopng.ScrapeTargets) ==>
      Built(c.HostList, map[], CycleAdmitted(HostAnswersOf(cfg, c.ifList, env), map[], cfg.Metric.LocalSubnetsOnly, env.contains, cfg.Host.InterfacesToMonitor), c.ifList)
    ensures started && HostScrapeRun !in ScrapePlan(cfg.Ntopng.ScrapeTargets) ==> c.HostList == map[]
    ensures started && InterfaceScrapeRun in ScrapePlan(cfg.Ntopng.ScrapeTargets) ==>
      c.InterfaceList == InterfaceSnapshot(AggregateAnswersOf(cfg, c.ifList, env.fetch), cfg.Host.InterfacesToMonitor)
    ensures started && InterfaceScrapeRun !in ScrapePlan(cfg.Ntopng.ScrapeTargets) ==> c.InterfaceList == map[]
  {
    c := new Controller(cfg);
    var err := c.CacheInterfaceIds(env.fetch);
    if err.Fail? {
      return c, false;
    }
    var ran := c.ScrapeAllConfiguredTargets(env);
    return c, true;
  }
}
