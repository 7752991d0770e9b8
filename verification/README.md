# ntopng-exporter scrape controller in Dafny

The ntopng exporter polls an ntopng appliance's REST API. It turns the host
and interface telemetry it gets back into two published snapshots, which the
Prometheus collectors read. This project models the data logic of that
exporter:

- **The interface registry.** `CacheInterfaceIds` fills it from the
  appliance's interface list and checks it against the configured interfaces.
  `ResolveIfID` is the reverse lookup.
- **The scrape cycle.** One request per configured interface is sent.
  - The host cycle builds a working map keyed by host address. It applies the
    duplicate-interface check against the previously published snapshot, the
    local-subnet filter and interface-name resolution. The working map then
    replaces the published `HostList` wholesale.
  - The interface cycle does the same for the interface aggregates and
    `InterfaceList`.
- **The response envelope.** The payload is taken only when `rc_str` is `"OK"`.
- **The request headers and URLs.** Content type and credentials come from
  `setCommonOptions`; the endpoints and payloads are built from the interface id.
- **The scrape-target dispatch and the start-up order.** The registry is
  built first, and the first scrape runs only if that succeeds.
- **The configuration validator** `validate()` and the set of scrape targets.
- **`deepAppend`,** which builds the collectors' label lists.

Modules, in dependency order:

| module | file | contents |
|---|---|---|
| `Wrappers` | wrappers.dfy | `Option`, `Result`, `Outcome` |
| `Decimal` | decimal.dfy | `strconv.Itoa` and a parser proving it round-trips |
| `Config` | config.dfy | the configuration records, `AvailableScrapeTargets`, `Validate` |
| `Http` | http.dfy | a request whose header list is updated in place |
| `NtopData` | ntop_data.dfy | the ntopng records, the envelope, the controller's errors |
| `NtopUtils` | ntop_utils.dfy | the helpers of internal/ntopng/utils.go |
| `Requests` | requests.dfy | the constants, endpoints, payload and headers of controller.go |
| `ScrapeSpec` | scrape_spec.dfy | specification functions of a scrape and the lemmas about them |
| `Ntopng` | controller.dfy | `class Controller` and its methods, the dispatch plan, start-up |
| `Labels` | labels.dfy | `DeepAppend` on arrays |

The outside world is passed in as parameters:

- The appliance is a function `fetch` from the request sent to its response.
  A response has a status and a body. When the body decodes as an ntopng
  envelope, the response also holds that envelope with its decoded payload.
  A transport failure is status 0 with an empty body, as `getHttpResponseBody`
  returns it.
- Subnet containment is a predicate `contains(subnet, ip)`.
- The validator's platform is passed as values: CIDR parsing, duration parsing
  and the host's interface addresses.

The `Controller` class has the Go struct's fields. `config` is a constant.
`ifList`, `HostList` and `InterfaceList` are fields that the methods overwrite.

Each controller method is proved against a specification function in
`ScrapeSpec`:

- the registry is `Registry` of the fetched list;
- the published host map satisfies `Built`: the map you get by inserting
  `CycleAdmitted`, the hosts admitted this cycle, in order;
- the interface map is `InterfaceSnapshot`.

The specification functions of the host and interface cycles are stated over
any answers the configured interfaces give. An answer is a function from
interface name to that interface's fetch result. The controller's ensures
instantiate them with the answers its `fetch` gives (`HostAnswersOf`,
`AggregateAnswersOf`). The lemmas state what those functions guarantee for
every such answer, including interfaces that fail.

Two behaviours of the code are worth spelling out:

- **Duplicate detection.** The duplicate check compares with the previously
  published `HostList`, not with the working map (the comment at
  internal/ntopng/controller.go:169-170 describes the check). So within one
  cycle, the last report of an address that passes the duplicate check wins.
  On the first cycle that is simply the last report
  (`ScrapeSpec.FirstCycleLastReportWins`). On the first cycle nothing is
  rejected as a duplicate (`ScrapeSpec.FirstCycleRejectsNothing`).
- **Registry replacement.** `CacheInterfaceIds` installs the new registry
  before it checks the configured names. A missing configured name therefore
  leaves the new registry in place, although a caller might expect the old
  registry to stay.

internal/config/config.go in this revision has no `Token` field in its `ntopng`
record, yet `setCommonOptions` reads `c.config.Ntopng.Token`. The model gives
`NtopngConfig` a `Token` field so that the token branch can be stated.
`Validate` rejects the auth method `"token"`, so a validated configuration
never sends the token header (`Requests.ValidatedConfigSendsNoToken`).

## Model

| member | source | states |
|---|---|---|
| Decimal.Itoa | internal/ntopng/controller.go:190 | the decimal rendering of an id is non-empty, all digits, with a leading '-' exactly for negative ids, and has no leading zero ("0" is the only rendering that starts with '0') |
| Decimal.ItoaRoundTrip | internal/ntopng/controller.go:190 | parsing the rendering of any id gives the id back |
| Decimal.ItoaInjective | internal/ntopng/utils.go:43-47 | distinct ids are rendered as distinct strings, so two decimal fallback labels never coincide |
| Config.FirstRejected | internal/config/config.go:128-133 | a guard loop with early return reports nothing iff every element passes, and otherwise reports the first failing element |
| Config.Validate | internal/config/config.go:88-135 | the guards run in source order: each error (bad auth method, including token; no interfaces; blank interface name; bad subnet; bad duration; no host addresses; serve address absent; no scrape targets; bad scrape target) is returned iff every earlier guard passes and its own fails; a bad subnet or bad target error names the first failing entry |
| Config.ValidateAcceptsExactly | internal/config/config.go:88-135 | validate succeeds iff all its checks hold, stated order-independently: accepted auth, at least one non-blank interface, valid subnets, a valid duration, a present serve address, and at least one target with every target available |
| Http.Request.constructor | internal/ntopng/controller.go:74 | a new request has the given method, URL and body and no headers |
| NtopUtils.GetRawJsonFromNtopResponse | internal/ntopng/utils.go:23-36 | the payload is returned iff the body decodes as an envelope with rc_str "OK"; an undecodable body is an error, and another rc_str is an error naming it |
| NtopUtils.ResolveIfID | internal/ntopng/utils.go:56-63 | a returned name maps to the id; an error is returned iff no name maps to the id; with an injective registry the result is the unique name of the id |
| NtopUtils.NameOrId | internal/ntopng/controller.go:188-191 | the name is a registry name for the id when one exists, else the id's decimal rendering |
| NtopUtils.CheckForDuplicateInterfaces | internal/ntopng/utils.go:38-54 | a warning is returned iff the published map holds the host's address under a different interface id; it names the address and both interfaces, by resolved name or decimal id |
| Requests.CommonHeaders | internal/ntopng/controller.go:248-261 | Content-Type is present iff the request is JSON; at most one credential; cookie, basic and token give their headers; any other method gives no credential |
| Requests.CommonHeadersExactly | internal/ntopng/controller.go:248-261 | nothing else is added: Content-Type: application/json comes first iff the request is JSON, and the only other header is the one credential of cookie, basic or token, so any other method adds no header at all |
| Requests.HostPayloadNamesInterface | internal/ntopng/controller.go:134 | the host request's JSON body carries the interface id, and the id parses back out of it |
| Requests.InterfaceDataEndpointNamesInterface | internal/ntopng/controller.go:212-213 | the interface-data URL ends with the interface id, which parses back out of it |
| Requests.RequestsDistinguishInterfaces | internal/ntopng/controller.go:132-213 | distinct interface ids never produce the same host request or the same interface-data request |
| Requests.ValidatedConfigSendsNoToken | internal/ntopng/controller.go:258-259 | under a configuration that validate accepts, no Authorization token header is sent |
| ScrapeSpec.InterfaceListFetch | internal/ntopng/controller.go:80-103 | the interface list is obtained iff the status is 200, the envelope is OK, the payload is an interface list and it is non-empty |
| ScrapeSpec.RegistryKeys | internal/ntopng/controller.go:104-107 | the rebuilt registry's names are exactly the names in the returned list |
| ScrapeSpec.RegistryLastEntryWins | internal/ntopng/controller.go:104-107 | each name maps to the id of the last list entry with that name |
| ScrapeSpec.HostFetch | internal/ntopng/controller.go:141-160 | one interface's host list is obtained iff the status is 200, the envelope is OK and the list is non-empty |
| ScrapeSpec.AdmittedExactly | internal/ntopng/controller.go:168-187 | a host is inserted iff it was reported, its address is not published under another interface id, and it lies in a configured subnet when there are any |
| ScrapeSpec.BuiltInsert | internal/ntopng/controller.go:192 | inserting a host keyed by address, with its resolved interface name, overwrites any earlier entry for that address |
| ScrapeSpec.BuiltCompose | internal/ntopng/controller.go:121-126 | scraping interface after interface into one working map equals inserting all their admitted hosts in configured order |
| ScrapeSpec.CycleExtend | internal/ntopng/controller.go:122-126 | one more configured interface extends the working map, the warnings and the failures of the cycle by exactly that interface's contribution, whether its scrape succeeds or fails |
| ScrapeSpec.CycleAdmittedSound | internal/ntopng/controller.go:122-126 | every host admitted in a cycle was reported by some configured interface and passed both rules |
| ScrapeSpec.CycleAdmittedComplete | internal/ntopng/controller.go:122-126 | a host reported by one interface that passes both rules is admitted, whatever the other interfaces returned |
| ScrapeSpec.PublishedHostsWereReported | internal/ntopng/controller.go:118-130 | every published host was reported this cycle by a configured interface, passes the subnet filter, keeps any previously published interface id, and carries its resolved name; nothing else survives from the old snapshot |
| ScrapeSpec.PublishedHostsComplete | internal/ntopng/controller.go:118-130 | every admissible reported host's address is published, even when other interfaces fail |
| ScrapeSpec.FirstCycleAdmitsAll | internal/ntopng/controller.go:168-192 | with nothing published and no subnet filter, a cycle admits every reported host, in order |
| ScrapeSpec.FirstCycleLastReportWins | internal/ntopng/controller.go:192 | on a first cycle with no subnet filter, an address is published iff some configured interface reports it, and it carries the last report of it across all configured interfaces |
| ScrapeSpec.NothingDuplicatesEmpty | internal/ntopng/utils.go:39 | no host is a duplicate of an empty published map |
| ScrapeSpec.FirstCycleRejectsNothing | internal/ntopng/utils.go:39 | before anything is published, no reported host draws a duplicate warning in the whole cycle |
| ScrapeSpec.AggregateFetch | internal/ntopng/controller.go:220-243 | an interface aggregate is obtained iff the status is 200, the envelope is OK and the payload decodes as an aggregate |
| ScrapeSpec.InterfaceSnapshotOnlyFetched | internal/ntopng/controller.go:197-209 | every published aggregate sits under its own interface name and was fetched this cycle by a configured interface |
| ScrapeSpec.InterfaceSnapshotKeepsSuccess | internal/ntopng/controller.go:197-209 | an interface whose scrape succeeds is published under its name unless a later interface publishes the same name, whatever the other interfaces returned |
| Ntopng.ScrapePlan | internal/ntopng/controller.go:61-70 | the host scrape runs iff the targets contain hosts or all, the interface scrape iff they contain interfaces or all, and hosts run before interfaces |
| Ntopng.AggregateLabelAsWrittenLosesName | internal/ntopng/controller.go:238-242 | the as-written decode-error label shows a resolvable interface as its number and an unknown one as the empty string |
| Ntopng.Controller.constructor | internal/ntopng/controller.go:35-41 | a new controller holds the configuration and empty maps |
| Ntopng.Controller.SetCommonOptions | internal/ntopng/controller.go:248-261 | the request's headers become its old headers followed by exactly the common headers for the configuration |
| Ntopng.Controller.CacheInterfaceIds | internal/ntopng/controller.go:72-116 | on a failed fetch the error is returned and the registry is unchanged; otherwise the registry is replaced by the one built from the list, success holds iff every configured name is registered, and a failure names the first missing configured name |
| Ntopng.Controller.CheckConfiguredNames | internal/ntopng/controller.go:109-115 | success iff every configured name is a registry key; a failure names the first configured name that is missing |
| Ntopng.Controller.ScrapeHostEndpoint | internal/ntopng/controller.go:132-195 | a failed fetch returns its error and leaves the working map untouched; otherwise the working map gains exactly the admitted hosts in order, and one warning is produced per duplicate |
| Ntopng.Controller.SubnetFilter | internal/ntopng/controller.go:175-187 | the address passes iff no subnets are configured or some configured subnet contains it |
| Ntopng.Controller.ScrapeHostEndpointForAllInterfaces | internal/ntopng/controller.go:118-130 | the published host map becomes the map built from empty from this cycle's admitted hosts; the failures are exactly the failing interfaces with their errors; the warnings match the cycle's duplicates |
| Ntopng.Controller.ScrapeInterfaceEndpoint | internal/ntopng/controller.go:211-246 | a fetched aggregate is stored under its own name; a failure returns the error and leaves the working map untouched; a decode failure names the interface by resolved name or decimal id |
| Ntopng.Controller.ScrapeInterfaceEndpointForAllInterfaces | internal/ntopng/controller.go:197-209 | the published interface map becomes this cycle's snapshot built from empty; the failures name exactly the failing interfaces in order |
| Ntopng.Controller.ScrapeAllConfiguredTargets | internal/ntopng/controller.go:61-70 | the scrapes run are the dispatch plan for the targets; each published map is rebuilt iff its scrape runs and is otherwise unchanged |
| Ntopng.Start | ntopng-exporter.go:32-38 | the registry is built first: it is the registry of the fetched list, or empty when the fetch fails; the exporter starts iff every configured interface is registered; a failed start scrapes nothing; a started exporter has run the first scrape, so each published map is the one its cycle builds from empty when the targets select it, and stays empty otherwise |
| Labels.DeepAppend | internal/metrics/prometheus/utils.go:3-8 | the result is a freshly allocated list holding the source followed by the appended labels, so it never aliases the source, and the source is unchanged |

## Left out

- The `RunController` ticker loop with its stop channel, and the `ListRWMutex` locking: these are concurrency. Each snapshot swap is a single field assignment.
- HTTP and TLS plumbing (`getHttpClient`, `getHttpResponseBody`, the client itself): the appliance is a function from request to response. The model assumes that function is deterministic, so the same request gets the same response within a cycle.
- `http.NewRequest` failures: a malformed endpoint URL is not modelled; every request is built.
- The body-nil branches after a non-200 status: `getHttpResponseBody` always returns a body, so they are dead code, and the error always carries the body.
- JSON decoding: a response carries an envelope only when its body decodes as one, and a payload carries the decoded interface list, host list or aggregate. The host-list decode error is ignored in the source (controller.go:157), so a host list holds whatever decoding left behind: `json.Unmarshal` skips a field of the wrong type and keeps the rest of the list, and only an `rsp` that is not a list leaves it empty, which shows up as the "0 hosts" error.
- CIDR and IP parsing and containment, duration parsing and `net.InterfaceAddrs`: these are parameters of the model.
- Basic authentication is a header value holding the user and password; its base64 encoding is not modelled. `SetBasicAuth` sets the header, and the model appends it, because no Authorization header exists at that point.
- The float64 counters of hosts and interface aggregates are an opaque sequence of reals, carried unchanged.
- The Prometheus collectors, the superseded internal/metrics/prometheus.go, `ParseConfig`, the `String` methods and process lifecycle are not part of this model.
- The Go controller passes its working map by reference. The model passes it in and returns the updated map.
- Error messages and printf logging: errors are values of `NtopData.Error`, and duplicate warnings are returned as a sequence instead of printed.
- Ntopng.Controller.ScrapeInterfaceEndpointForAllInterfaces: pins down only the interface names of the failures, not their errors. A decode failure's label depends on which registry name Go's map order resolves first.
- Ntopng.Controller.ScrapeHostEndpointForAllInterfaces: the warnings name each duplicate's interfaces only up to `ResolvedName`, for the same reason.
- NtopUtils.ResolveIfID: with several names sharing an id, Go's random map order picks one; the model picks any name that maps to the id.

## Findings

| source | as written | input that shows it | evidently intended | confidence | as-written member | corrected member |
|---|---|---|---|---|---|---|
| internal/ntopng/controller.go:238-242 | When an interface aggregate fails to decode, the error label is built with its branches swapped. If `ResolveIfID` fails, it prints the empty name `ResolveIfID` returned. If it succeeds, it prints the numeric id. It also prints the lookup error instead of the decode error. | registry `{"eth0": 0}`: id 0 is labelled "0" instead of "eth0"; id 7 is labelled "" instead of "7" | the resolved interface name, or the decimal id when the id does not resolve | high; not executed | Ntopng.AggregateLabelAsWrittenLosesName | Ntopng.Controller.ScrapeInterfaceEndpoint |
