/**
 * Specification of one scrape cycle of the controller
 * (internal/ntopng/controller.go): what each per-interface request yields,
 * which hosts are admitted, and what the published host and interface maps
 * hold afterwards. The methods of Ntopng.Controller are proved against these
 * definitions; the lemmas here state what the snapshots guarantee.
 */
module ScrapeSpec {
  import opened Wrappers
  import opened Decimal
  import opened Http
  import opened NtopData
  import opened NtopUtils
  import opened Requests
  import Config

  /**
   * The world outside the controller: the appliance answering a request, and
   * net.ParseIP/IPNet.Contains deciding whether a subnet contains an address
   * (an unparsable address is in no subnet).
   */
  datatype Env = Env(fetch: RequestData -> Response, contains: (string, string) -> bool)

  /** The id of a configured interface: Go's map lookup yields 0 for a missing name. */
  function IdOf(ifList: map<string, int>, name: string): int {
    if name in ifList then ifList[name] else 0
  }

  // ---------------------------------------------------------------- registry

  /** The interface list CacheInterfaceIds obtains, or the error it returns before touching ifList. */
  function InterfaceListFetch(n: Config.NtopngConfig, fetch: RequestData -> Response): (r: Result<seq<NtopInterface>, Error>)
    ensures r.Success? <==>
      var resp := fetch(InterfaceListRequest(n));
      resp.status == StatusOK && GetRawJsonFromNtopResponse(resp.envelope).Success? &&
      GetRawJsonFromNtopResponse(resp.envelope).value.interfaces.Some? &&
      |GetRawJsonFromNtopResponse(resp.envelope).value.interfaces.value| >= 1
    ensures r.Success? ==> |r.value| >= 1
  {
    var resp := fetch(InterfaceListRequest(n));
    if resp.status != StatusOK then Failure(UpstreamStatus(resp.status, resp.body))
    else match GetRawJsonFromNtopResponse(resp.envelope)
      case Failure(e) => Failure(e)
      case Success(p) =>
        if p.interfaces.None? then Failure(BadInterfaceList)
        else if |p.interfaces.value| < 1 then Failure(NoInterfaces(resp.body))
        else Success(p.interfaces.value)
  }

  /** The registry built from an interface list, entry by entry. */
  function Registry(entries: seq<NtopInterface>): map<string, int> {
    if entries == [] then map[]
    else Registry(entries[..|entries| - 1])[entries[|entries| - 1].IfName := entries[|entries| - 1].IfID]
  }

  /** The registry's names are exactly the names in the list. */
  lemma {:induction false} RegistryKeys(entries: seq<NtopInterface>, name: string)
    ensures name in Registry(entries) <==> exists i :: 0 <= i < |entries| && entries[i].IfName == name
  {
    if entries != [] {
      var init := entries[..|entries| - 1];
      RegistryKeys(init, name);
      if exists i :: 0 <= i < |init| && init[i].IfName == name {
        var i :| 0 <= i < |init| && init[i].IfName == name;
        assert entries[i].IfName == name;
      }
      if exists i :: 0 <= i < |entries| && entries[i].IfName == name {
        var i :| 0 <= i < |entries| && entries[i].IfName == name;
        if i < |init| {
          assert init[i].IfName == name;
        }
      }
    }
  }

  /** Each name maps to the id of the last entry carrying it. */
  lemma {:induction false} RegistryLastEntryWins(entries: seq<NtopInterface>, i: int)
    requires 0 <= i < |entries|
    requires forall j :: i < j < |entries| ==> entries[j].IfName != entries[i].IfName
    ensures entries[i].IfName in Registry(entries) && Registry(entries)[entries[i].IfName] == entries[i].IfID
  {
    var init := entries[..|entries| - 1];
    if i < |entries| - 1 {
      assert init[i] == entries[i];
      RegistryLastEntryWins(init, i);
    }
  }

  /** The names a registry must hold for CacheInterfaceIds to succeed. */
  predicate Registers(ifList: map<string, int>, names: seq<string>) {
    forall k :: 0 <= k < |names| ==> names[k] in ifList
  }

  // ------------------------------------------------------------------- hosts

  /** The host list one interface's request yields, or the error scrapeHostEndpoint returns for it. */
  function HostFetch(n: Config.NtopngConfig, fetch: RequestData -> Response, interfaceId: int): (r: Result<seq<Host>, Error>)
    ensures r.Success? <==>
      var resp := fetch(HostRequest(n, interfaceId));
      resp.status == StatusOK && GetRawJsonFromNtopResponse(resp.envelope).Success? &&
      |GetRawJsonFromNtopResponse(resp.envelope).value.hosts| >= 1
    ensures r.Success? ==> |r.value| >= 1
  {
    var resp := fetch(HostRequest(n, interfaceId));
    if resp.status != StatusOK then Failure(UpstreamStatus(resp.status, resp.body))
    else match GetRawJsonFromNtopResponse(resp.envelope)
      case Failure(e) => Failure(e)
      case Success(p) => if |p.hosts| < 1 then Failure(NoHosts(resp.body)) else Success(p.hosts)
  }

  /**
   * What each configured interface's host request yields, by interface name.
   * The cycle is specified over any such answers, so that the lemmas hold
   * whatever the appliance returns.
   */
  type HostAnswers = string -> Result<seq<Host>, Error>

  /** The answers the controller obtains: the host request for the interface's registered id. */
  function HostAnswersOf(cfg: Config.Config, ifList: map<string, int>, env: Env): HostAnswers {
    name => HostFetch(cfg.Ntopng, env.fetch, IdOf(ifList, name))
  }

  /** An empty filter list admits every address; otherwise some subnet must contain it. */
  predicate InLocalSubnets(subnets: seq<string>, contains: (string, string) -> bool, ip: string) {
    |subnets| == 0 || exists k :: 0 <= k < |subnets| && contains(subnets[k], ip)
  }

  /** The rules a reported host must pass to be inserted. */
  predicate Keep(published: map<string, Host>, subnets: seq<string>, contains: (string, string) -> bool, h: Host) {
    !IsDuplicate(published, h) && InLocalSubnets(subnets, contains, h.IP)
  }

  /** The hosts of one list that are inserted, in list order. */
  function Admitted(hosts: seq<Host>, published: map<string, Host>, subnets: seq<string>, contains: (string, string) -> bool): seq<Host> {
    if hosts == [] then []
    else
      var last := hosts[|hosts| - 1];
      Admitted(hosts[..|hosts| - 1], published, subnets, contains) +
      (if Keep(published, subnets, contains, last) then [last] else [])
  }

  /** The hosts of one list that draw a duplicate warning, in list order. */
  function Duplicates(hosts: seq<Host>, published: map<string, Host>): seq<Host> {
    if hosts == [] then []
    else
      var last := hosts[|hosts| - 1];
      Duplicates(hosts[..|hosts| - 1], published) + (if IsDuplicate(published, last) then [last] else [])
  }

  /** The last host of `s` with address `ip`: the one a sequence of insertions leaves behind. */
  function LastWithIP(s: seq<Host>, ip: string): Option<Host> {
    if s == [] then None
    else if s[|s| - 1].IP == ip then Some(s[|s| - 1])
    else LastWithIP(s[..|s| - 1], ip)
  }

  /** `stored` is host `h` with its interface name filled in. */
  predicate Stored(ifList: map<string, int>, h: Host, stored: Host) {
    stored == h.(IfName := stored.IfName) && ResolvedName(ifList, h.IfID, stored.IfName)
  }

  /**
   * `m` is `base` after inserting the hosts `admitted` in order, keyed by address,
   * each with its interface name resolved.
   */
  ghost predicate Built(m: map<string, Host>, base: map<string, Host>, admitted: seq<Host>, ifList: map<string, int>) {
    && (forall ip :: ip in m <==> ip in base || LastWithIP(admitted, ip).Some?)
    && (forall ip :: ip in m ==>
          if LastWithIP(admitted, ip).Some? then Stored(ifList, LastWithIP(admitted, ip).value, m[ip])
          else m[ip] == base[ip])
  }

  /** `ws` are the duplicate warnings for the hosts `dups`, in order. */
  predicate WarningsFor(ws: seq<DuplicateWarning>, dups: seq<Host>, published: map<string, Host>, ifList: map<string, int>) {
    |ws| == |dups| && forall k :: 0 <= k < |ws| ==> WarningFor(ws[k], dups[k], published, ifList)
  }

  /** `w` warns about host `h`, naming its published and its reported interface. */
  predicate WarningFor(w: DuplicateWarning, h: Host, published: map<string, Host>, ifList: map<string, int>) {
    && w.ip == h.IP
    && h.IP in published
    && ResolvedName(ifList, published[h.IP].IfID, w.stored)
    && ResolvedName(ifList, h.IfID, w.incoming)
  }

  /** Host `h` is in the list that the configured interface `name` reported. */
  predicate ReportedBy(answers: HostAnswers, name: string, h: Host) {
    answers(name).Success? && h in answers(name).value
  }

  /** What one configured interface contributes to the host map. */
  function BatchAdmitted(answers: HostAnswers, published: map<string, Host>, subnets: seq<string>, contains: (string, string) -> bool, name: string): seq<Host> {
    match answers(name)
    case Failure(_) => []
    case Success(hosts) => Admitted(hosts, published, subnets, contains)
  }

  /** What the configured interfaces `names` contribute, in order. */
  function CycleAdmitted(answers: HostAnswers, published: map<string, Host>, subnets: seq<string>, contains: (string, string) -> bool, names: seq<string>): seq<Host> {
    if names == [] then []
    else CycleAdmitted(answers, published, subnets, contains, names[..|names| - 1]) +
         BatchAdmitted(answers, published, subnets, contains, names[|names| - 1])
  }

  /** The duplicates one configured interface reports. */
  function BatchDuplicates(answers: HostAnswers, published: map<string, Host>, name: string): seq<Host> {
    match answers(name)
    case Failure(_) => []
    case Success(hosts) => Duplicates(hosts, published)
  }

  /** The duplicate hosts reported over the configured interfaces `names`, in order. */
  function CycleDuplicates(answers: HostAnswers, published: map<string, Host>, names: seq<string>): seq<Host> {
    if names == [] then []
    else CycleDuplicates(answers, published, names[..|names| - 1]) + BatchDuplicates(answers, published, names[|names| - 1])
  }

  /** A configured interface whose scrape failed, with its error. */
  datatype ScrapeFailure = ScrapeFailure(ifName: string, error: Error)

  /** The host-scrape failures over the configured interfaces `names`, in order. */
  function HostFailures(answers: HostAnswers, names: seq<string>): seq<ScrapeFailure> {
    if names == [] then []
    else
      var name := names[|names| - 1];
      HostFailures(answers, names[..|names| - 1]) +
      match answers(name)
      case Failure(e) => [ScrapeFailure(name, e)]
      case Success(_) => []
  }

  // ------------------------------------------------- facts about the host map

  lemma {:induction false} LastWithIPFound(s: seq<Host>, ip: string)
    ensures LastWithIP(s, ip).Some? ==> LastWithIP(s, ip).value in s && LastWithIP(s, ip).value.IP == ip
    ensures (exists h :: h in s && h.IP == ip) ==> LastWithIP(s, ip).Some?
  {
    if s != [] {
      var init := s[..|s| - 1];
      LastWithIPFound(init, ip);
      if s[|s| - 1].IP != ip && exists h :: h in s && h.IP == ip {
        var h :| h in s && h.IP == ip;
        assert h in init;
      }
    }
  }

  lemma LastWithIPSnoc(s: seq<Host>, h: Host, ip: string)
    ensures LastWithIP(s + [h], ip) == if h.IP == ip then Some(h) else LastWithIP(s, ip)
  {
    assert (s + [h])[..|s|] == s;
  }

  lemma {:induction false} LastWithIPConcat(a: seq<Host>, b: seq<Host>, ip: string)
    ensures LastWithIP(a + b, ip) == if LastWithIP(b, ip).Some? then LastWithIP(b, ip) else LastWithIP(a, ip)
    decreases |b|
  {
    if b == [] {
      assert a + b == a;
    } else {
      var init := b[..|b| - 1];
      assert (a + b)[..|a + b| - 1] == a + init;
      LastWithIPConcat(a, init, ip);
    }
  }

  /** Inserting one admitted host keeps the map built from the admitted sequence. */
  lemma BuiltInsert(m: map<string, Host>, base: map<string, Host>, admitted: seq<Host>, ifList: map<string, int>, h: Host, stored: Host)
    requires Built(m, base, admitted, ifList)
    requires Stored(ifList, h, stored)
    ensures Built(m[h.IP := stored], base, admitted + [h], ifList)
  {
    forall ip {
      LastWithIPSnoc(admitted, h, ip);
    }
  }

  /** Building over a built map is building over the concatenation. */
  lemma BuiltCompose(m1: map<string, Host>, m2: map<string, Host>, base: map<string, Host>, a: seq<Host>, b: seq<Host>, ifList: map<string, int>)
    requires Built(m1, base, a, ifList)
    requires Built(m2, m1, b, ifList)
    ensures Built(m2, base, a + b, ifList)
  {
    forall ip {
      LastWithIPConcat(a, b, ip);
    }
  }

  lemma WarningsCompose(w1: seq<DuplicateWarning>, w2: seq<DuplicateWarning>, d1: seq<Host>, d2: seq<Host>, published: map<string, Host>, ifList: map<string, int>)
    requires WarningsFor(w1, d1, published, ifList)
    requires WarningsFor(w2, d2, published, ifList)
    ensures WarningsFor(w1 + w2, d1 + d2, published, ifList)
  {
    forall k | 0 <= k < |w1 + w2|
      ensures WarningFor((w1 + w2)[k], (d1 + d2)[k], published, ifList)
    {
      if k < |w1| {
        assert (w1 + w2)[k] == w1[k] && (d1 + d2)[k] == d1[k];
      } else {
        assert (w1 + w2)[k] == w2[k - |w1|] && (d1 + d2)[k] == d2[k - |w1|];
      }
    }
  }

  /** One more host of the list: it is admitted exactly when it passes both rules. */
  lemma AdmittedStep(hosts: seq<Host>, i: int, published: map<string, Host>, subnets: seq<string>, contains: (string, string) -> bool)
    requires 0 <= i < |hosts|
    ensures Admitted(hosts[..i + 1], published, subnets, contains) ==
      Admitted(hosts[..i], published, subnets, contains) + (if Keep(published, subnets, contains, hosts[i]) then [hosts[i]] else [])
  {
    assert hosts[..i + 1][..i] == hosts[..i];
  }

  /** One more host of the list: it is a duplicate exactly when IsDuplicate says so. */
  lemma DuplicatesStep(hosts: seq<Host>, i: int, published: map<string, Host>)
    requires 0 <= i < |hosts|
    ensures Duplicates(hosts[..i + 1], published) ==
      Duplicates(hosts[..i], published) + (if IsDuplicate(published, hosts[i]) then [hosts[i]] else [])
  {
    assert hosts[..i + 1][..i] == hosts[..i];
  }

  /** A warning naming both interfaces of a duplicate host extends the warnings for the duplicates. */
  lemma WarningsSnoc(ws: seq<DuplicateWarning>, dups: seq<Host>, published: map<string, Host>, ifList: map<string, int>, w: DuplicateWarning, h: Host)
    requires WarningsFor(ws, dups, published, ifList)
    requires WarningFor(w, h, published, ifList)
    ensures WarningsFor(ws + [w], dups + [h], published, ifList)
  {
    WarningsCompose(ws, [w], dups, [h], published, ifList);
  }

  /** One more configured interface appends its contribution to each sequence of the cycle. */
  lemma CycleStep(answers: HostAnswers, published: map<string, Host>, subnets: seq<string>, contains: (string, string) -> bool, names: seq<string>, i: int)
    requires 0 <= i < |names|
    ensures CycleAdmitted(answers, published, subnets, contains, names[..i + 1]) ==
      CycleAdmitted(answers, published, subnets, contains, names[..i]) + BatchAdmitted(answers, published, subnets, contains, names[i])
    ensures CycleDuplicates(answers, published, names[..i + 1]) ==
      CycleDuplicates(answers, published, names[..i]) + BatchDuplicates(answers, published, names[i])
    ensures HostFailures(answers, names[..i + 1]) ==
      HostFailures(answers, names[..i]) + (if answers(names[i]).Failure? then [ScrapeFailure(names[i], answers(names[i]).error)] else [])
  {
    assert names[..i + 1][..i] == names[..i];
  }

  /**
   * One more configured interface keeps the cycle's invariant: whatever one
   * interface's scrape did to the working map and the warnings, given what it
   * promises for its answer, extends the cycle over the names before it to the
   * cycle over one name more.
   */
  lemma CycleExtend(answers: HostAnswers, published: map<string, Host>, subnets: seq<string>, contains: (string, string) -> bool,
                    names: seq<string>, i: int, ifList: map<string, int>,
                    m: map<string, Host>, next: map<string, Host>, ws: seq<DuplicateWarning>, more: seq<DuplicateWarning>)
    requires 0 <= i < |names|
    requires Built(m, map[], CycleAdmitted(answers, published, subnets, contains, names[..i]), ifList)
    requires WarningsFor(ws, CycleDuplicates(answers, published, names[..i]), published, ifList)
    requires answers(names[i]).Failure? ==> next == m && more == []
    requires answers(names[i]).Success? ==>
      Built(next, m, Admitted(answers(names[i]).value, published, subnets, contains), ifList) &&
      WarningsFor(more, Duplicates(answers(names[i]).value, published), published, ifList)
    ensures Built(next, map[], CycleAdmitted(answers, published, subnets, contains, names[..i + 1]), ifList)
    ensures WarningsFor(ws + more, CycleDuplicates(answers, published, names[..i + 1]), published, ifList)
    ensures HostFailures(answers, names[..i + 1]) ==
      HostFailures(answers, names[..i]) + (if answers(names[i]).Failure? then [ScrapeFailure(names[i], answers(names[i]).error)] else [])
  {
    CycleStep(answers, published, subnets, contains, names, i);
    var before := CycleAdmitted(answers, published, subnets, contains, names[..i]);
    var dups := CycleDuplicates(answers, published, names[..i]);
    if answers(names[i]).Failure? {
      assert before + [] == before;
      assert dups + [] == dups && ws + [] == ws;
    } else {
      BuiltCompose(m, next, map[], before, BatchAdmitted(answers, published, subnets, contains, names[i]), ifList);
      WarningsCompose(ws, more, dups, BatchDuplicates(answers, published, names[i]), published, ifList);
    }
  }

  /** Every admitted host came from the list and passed both rules; every host that passed was admitted. */
  lemma {:induction false} AdmittedExactly(hosts: seq<Host>, published: map<string, Host>, subnets: seq<string>, contains: (string, string) -> bool, h: Host)
    ensures h in Admitted(hosts, published, subnets, contains) <==> h in hosts && Keep(published, subnets, contains, h)
  {
    if hosts != [] {
      var init := hosts[..|hosts| - 1];
      AdmittedExactly(init, published, subnets, contains, h);
      assert hosts == init + [hosts[|hosts| - 1]];
    }
  }

  /** A host of the cycle's admitted sequence was reported by some configured interface and passed both rules. */
  lemma {:induction false} CycleAdmittedSound(answers: HostAnswers, published: map<string, Host>, subnets: seq<string>, contains: (string, string) -> bool, names: seq<string>, h: Host)
    requires h in CycleAdmitted(answers, published, subnets, contains, names)
    ensures Keep(published, subnets, contains, h)
    ensures exists k :: 0 <= k < |names| && ReportedBy(answers, names[k], h)
  {
    var init := names[..|names| - 1];
    var last := names[|names| - 1];
    if h in CycleAdmitted(answers, published, subnets, contains, init) {
      CycleAdmittedSound(answers, published, subnets, contains, init, h);
      var k :| 0 <= k < |init| && ReportedBy(answers, init[k], h);
      assert names[k] == init[k];
    } else {
      AdmittedExactly(answers(last).value, published, subnets, contains, h);
      assert ReportedBy(answers, names[|names| - 1], h);
    }
  }

  /** A host that one configured interface reports and that passes both rules is in the cycle's sequence, whatever the other interfaces returned. */
  lemma {:induction false} CycleAdmittedComplete(answers: HostAnswers, published: map<string, Host>, subnets: seq<string>, contains: (string, string) -> bool, names: seq<string>, k: int, h: Host)
    requires 0 <= k < |names|
    requires ReportedBy(answers, names[k], h)
    requires Keep(published, subnets, contains, h)
    ensures h in CycleAdmitted(answers, published, subnets, contains, names)
  {
    var init := names[..|names| - 1];
    if k < |names| - 1 {
      assert init[k] == names[k];
      CycleAdmittedComplete(answers, published, subnets, contains, init, k, h);
    } else {
      AdmittedExactly(answers(names[k]).value, published, subnets, contains, h);
    }
  }

  /**
   * Every host of a published snapshot was reported this cycle by a configured
   * interface, lies in a configured subnet (when there are any), does not
   * contradict the previously published interface of its address, and carries
   * its resolved interface name: nothing of the previous snapshot survives
   * unless it is reported again.
   */
  lemma PublishedHostsWereReported(answers: HostAnswers, published: map<string, Host>, subnets: seq<string>, contains: (string, string) -> bool,
                                   names: seq<string>, ifList: map<string, int>, m: map<string, Host>, ip: string)
    requires Built(m, map[], CycleAdmitted(answers, published, subnets, contains, names), ifList)
    requires ip in m
    ensures InLocalSubnets(subnets, contains, ip)
    ensures ip in published ==> published[ip].IfID == m[ip].IfID
    ensures m[ip].IP == ip && ResolvedName(ifList, m[ip].IfID, m[ip].IfName)
    ensures exists k, h :: 0 <= k < |names| && ReportedBy(answers, names[k], h) && Stored(ifList, h, m[ip])
  {
    var admitted := CycleAdmitted(answers, published, subnets, contains, names);
    LastWithIPFound(admitted, ip);
    var h := LastWithIP(admitted, ip).value;
    CycleAdmittedSound(answers, published, subnets, contains, names, h);
  }

  /**
   * A host that some configured interface reports and that passes both rules is
   * published, even when other interfaces of the same cycle fail.
   */
  lemma PublishedHostsComplete(answers: HostAnswers, published: map<string, Host>, subnets: seq<string>, contains: (string, string) -> bool,
                               names: seq<string>, ifList: map<string, int>, m: map<string, Host>, k: int, h: Host)
    requires Built(m, map[], CycleAdmitted(answers, published, subnets, contains, names), ifList)
    requires 0 <= k < |names|
    requires ReportedBy(answers, names[k], h)
    requires Keep(published, subnets, contains, h)
    ensures h.IP in m
  {
    CycleAdmittedComplete(answers, published, subnets, contains, names, k, h);
    LastWithIPFound(CycleAdmitted(answers, published, subnets, contains, names), h.IP);
  }

  /** Nothing is a duplicate of an empty published map. */
  lemma {:induction false} NothingDuplicatesEmpty(hosts: seq<Host>)
    ensures Duplicates(hosts, map[]) == []
  {
    if hosts != [] {
      NothingDuplicatesEmpty(hosts[..|hosts| - 1]);
    }
  }

  /** On the first cycle, before anything is published, no reported host draws a duplicate warning. */
  lemma {:induction false} FirstCycleRejectsNothing(answers: HostAnswers, names: seq<string>)
    ensures CycleDuplicates(answers, map[], names) == []
  {
    if names != [] {
      FirstCycleRejectsNothing(answers, names[..|names| - 1]);
      var f := answers(names[|names| - 1]);
      if f.Success? {
        NothingDuplicatesEmpty(f.value);
      }
    }
  }

  /** Every host the configured interfaces `names` report, in order; a failing interface reports none. */
  function CycleReported(answers: HostAnswers, names: seq<string>): seq<Host> {
    if names == [] then []
    else
      CycleReported(answers, names[..|names| - 1]) +
      match answers(names[|names| - 1])
      case Failure(_) => []
      case Success(hosts) => hosts
  }

  /** With nothing published and no subnet filter, every host of a list is admitted. */
  lemma {:induction false} FirstCycleAdmitsList(hosts: seq<Host>, contains: (string, string) -> bool)
    ensures Admitted(hosts, map[], [], contains) == hosts
  {
    if hosts != [] {
      FirstCycleAdmitsList(hosts[..|hosts| - 1], contains);
      assert hosts[..|hosts| - 1] + [hosts[|hosts| - 1]] == hosts;
    }
  }

  /** With nothing published and no subnet filter, the cycle admits every reported host, in order. */
  lemma {:induction false} FirstCycleAdmitsAll(answers: HostAnswers, contains: (string, string) -> bool, names: seq<string>)
    ensures CycleAdmitted(answers, map[], [], contains, names) == CycleReported(answers, names)
  {
    if names != [] {
      FirstCycleAdmitsAll(answers, contains, names[..|names| - 1]);
      var f := answers(names[|names| - 1]);
      if f.Success? {
        FirstCycleAdmitsList(f.value, contains);
      }
    }
  }

  /** LastWithIP finds the host of `s` at index `k`, which has the address, and no later host of `s` has it. */
  lemma {:induction false} LastWithIPIsLast(s: seq<Host>, ip: string) returns (k: int)
    requires LastWithIP(s, ip).Some?
    ensures 0 <= k < |s| && s[k] == LastWithIP(s, ip).value && s[k].IP == ip
    ensures forall j :: k < j < |s| ==> s[j].IP != ip
  {
    var last := |s| - 1;
    if s[last].IP == ip {
      k := last;
    } else {
      var init := s[..last];
      assert LastWithIP(s, ip) == LastWithIP(init, ip);
      k := LastWithIPIsLast(init, ip);
      assert s[k] == init[k];
      forall j | k < j < |s|
        ensures s[j].IP != ip
      {
        if j < last {
          assert s[j] == init[j];
        }
      }
    }
  }

  /**
   * Within one cycle the last report of an address wins, even across
   * interfaces: on a first cycle (nothing published yet) with no subnet
   * filter, an address is published exactly when some configured interface
   * reports it, and it carries the last report of it over all the configured
   * interfaces in order.
   */
  lemma FirstCycleLastReportWins(answers: HostAnswers, contains: (string, string) -> bool, names: seq<string>,
                                 ifList: map<string, int>, m: map<string, Host>, ip: string)
    requires Built(m, map[], CycleAdmitted(answers, map[], [], contains, names), ifList)
    ensures ip in m <==> exists h :: h in CycleReported(answers, names) && h.IP == ip
    ensures ip in m ==>
      var reports := CycleReported(answers, names);
      exists k :: 0 <= k < |reports| && reports[k].IP == ip && Stored(ifList, reports[k], m[ip]) &&
                  forall j :: k < j < |reports| ==> reports[j].IP != ip
  {
    var reports := CycleReported(answers, names);
    FirstCycleAdmitsAll(answers, contains, names);
    LastWithIPFound(reports, ip);
    if ip in m {
      var k := LastWithIPIsLast(reports, ip);
    }
  }

  // -------------------------------------------------------------- interfaces

  /**
   * The aggregate one interface's request yields; on failure the error, or
   * None when the payload is not an aggregate (the caller then names the
   * interface in its error).
   */
  function AggregateFetch(n: Config.NtopngConfig, fetch: RequestData -> Response, interfaceId: int): (r: Result<InterfaceFull, Option<Error>>)
    ensures r.Success? <==>
      var resp := fetch(InterfaceDataRequest(n, interfaceId));
      resp.status == StatusOK && GetRawJsonFromNtopResponse(resp.envelope).Success? &&
      GetRawJsonFromNtopResponse(resp.envelope).value.aggregate.Some?
  {
    var resp := fetch(InterfaceDataRequest(n, interfaceId));
    if resp.status != StatusOK then Failure(Some(UpstreamStatus(resp.status, resp.body)))
    else match GetRawJsonFromNtopResponse(resp.envelope)
      case Failure(e) => Failure(Some(e))
      case Success(p) => if p.aggregate.None? then Failure(None) else Success(p.aggregate.value)
  }

  /** What each configured interface's aggregate request yields, by interface name. */
  type AggregateAnswers = string -> Result<InterfaceFull, Option<Error>>

  /** The answers the controller obtains: the aggregate request for the interface's registered id. */
  function AggregateAnswersOf(cfg: Config.Config, ifList: map<string, int>, fetch: RequestData -> Response): AggregateAnswers {
    name => AggregateFetch(cfg.Ntopng, fetch, IdOf(ifList, name))
  }

  /** The interface map after scraping the configured interfaces `names` in order. */
  function InterfaceSnapshot(answers: AggregateAnswers, names: seq<string>): map<string, InterfaceFull> {
    if names == [] then map[]
    else
      var m := InterfaceSnapshot(answers, names[..|names| - 1]);
      match answers(names[|names| - 1])
      case Success(a) => m[a.IfName := a]
      case Failure(_) => m
  }

  /** The configured interfaces whose interface scrape fails, in order. */
  function InterfaceFailureNames(answers: AggregateAnswers, names: seq<string>): seq<string> {
    if names == [] then []
    else
      InterfaceFailureNames(answers, names[..|names| - 1]) +
      if answers(names[|names| - 1]).Failure? then [names[|names| - 1]] else []
  }

  /** The interface names of a sequence of scrape failures, in order. */
  function FailedNames(fs: seq<ScrapeFailure>): (names: seq<string>)
    ensures |names| == |fs|
    ensures forall k :: 0 <= k < |fs| ==> names[k] == fs[k].ifName
  {
    if fs == [] then [] else FailedNames(fs[..|fs| - 1]) + [fs[|fs| - 1].ifName]
  }

  /** One more configured interface: its aggregate, if fetched, is stored under its own name, and a failure adds its name. */
  lemma InterfaceStep(answers: AggregateAnswers, names: seq<string>, i: int)
    requires 0 <= i < |names|
    ensures InterfaceSnapshot(answers, names[..i + 1]) ==
      (if answers(names[i]).Success? then InterfaceSnapshot(answers, names[..i])[answers(names[i]).value.IfName := answers(names[i]).value]
       else InterfaceSnapshot(answers, names[..i]))
    ensures InterfaceFailureNames(answers, names[..i + 1]) ==
      InterfaceFailureNames(answers, names[..i]) + (if answers(names[i]).Failure? then [names[i]] else [])
  {
    assert names[..i + 1][..i] == names[..i];
  }

  /** Recording one more failure records its interface name. */
  lemma FailedNamesSnoc(fs: seq<ScrapeFailure>, f: ScrapeFailure)
    ensures FailedNames(fs + [f]) == FailedNames(fs) + [f.ifName]
  {
    assert (fs + [f])[..|fs|] == fs;
  }

  /** Every published aggregate was fetched this cycle by some configured interface. */
  lemma {:induction false} InterfaceSnapshotOnlyFetched(answers: AggregateAnswers, names: seq<string>, key: string)
    requires key in InterfaceSnapshot(answers, names)
    ensures InterfaceSnapshot(answers, names)[key].IfName == key
    ensures exists k :: 0 <= k < |names| && answers(names[k]) == Success(InterfaceSnapshot(answers, names)[key])
  {
    var init := names[..|names| - 1];
    var f := answers(names[|names| - 1]);
    if f.Success? && f.value.IfName == key {
    } else {
      InterfaceSnapshotOnlyFetched(answers, init, key);
      var k :| 0 <= k < |init| && answers(init[k]) == Success(InterfaceSnapshot(answers, init)[key]) &&
        InterfaceSnapshot(answers, init)[key].IfName == key;
      assert names[k] == init[k];
    }
  }

  /**
   * An interface whose scrape succeeds is published under its aggregate's name
   * (unless a later interface publishes the same name), whatever the other
   * interfaces returned.
   */
  lemma {:induction false} InterfaceSnapshotKeepsSuccess(answers: AggregateAnswers, names: seq<string>, k: int)
    requires 0 <= k < |names|
    requires answers(names[k]).Success?
    requires forall j :: k < j < |names| && answers(names[j]).Success? ==>
      answers(names[j]).value.IfName != answers(names[k]).value.IfName
    ensures var a := answers(names[k]).value;
      a.IfName in InterfaceSnapshot(answers, names) && InterfaceSnapshot(answers, names)[a.IfName] == a
  {
    var init := names[..|names| - 1];
    if k < |names| - 1 {
      assert init[k] == names[k];
      forall j | k < j < |init| && answers(init[j]).Success?
        ensures answers(init[j]).value.IfName != answers(init[k]).value.IfName
      {
        assert init[j] == names[j];
      }
      InterfaceSnapshotKeepsSuccess(answers, init, k);
    }
  }
}
