/** The configuration snapshot: what the converters produce and the translator reads. */
module Snapshot {
  import opened Wrappers

  type int32 = x: int | -0x8000_0000 <= x < 0x8000_0000
  type int64 = x: int | -0x8000_0000_0000_0000 <= x < 0x8000_0000_0000_0000
  type uint32 = x: int | 0 <= x < 0x1_0000_0000
  type uint64 = x: int | 0 <= x < 0x1_0000_0000_0000_0000

  /** Go's conversion `uint32(x)` wraps. */
  function Uint32(x: int32): uint32 {
    if x < 0 then x + 0x1_0000_0000 else x
  }

  /** `safeUint64` clamps negative values to zero. */
  function SafeUint64(x: int64): uint64 {
    if x < 0 then 0 else x
  }

  datatype PathType = PathUnspecified | PathExact | PathPrefix | PathRegex | PathOther(code: int)

  datatype PathMatch = PathMatch(kind: PathType, value: string)

  datatype HeaderType = HeaderUnspecified | HeaderExact | HeaderRegex

  datatype HeaderMatch = HeaderMatch(kind: HeaderType, name: string, value: string)

  datatype RouteMatch = RouteMatch(path: Option<PathMatch>, headers: seq<HeaderMatch>, verb: string)

  datatype Header = Header(name: string, value: string)

  datatype FilterType = AddHeader | RemoveHeader | UrlRewrite | RequestRedirect | FilterOther

  datatype Filter = Filter(kind: FilterType, addHeaders: seq<Header>, rewritePath: string)

  datatype BackendRef = BackendRef(name: string, weight: int32)

  datatype Retry = Retry(maxRetries: int32, perTryTimeoutMs: int64, retryOn: seq<string>, backoffBaseMs: int64)

  /** `requestTimeoutMs` is absent when the rule has no limits. */
  datatype Rule = Rule(
    matches: seq<RouteMatch>, filters: seq<Filter>, backendRefs: seq<BackendRef>,
    requestTimeoutMs: Option<int64>, mirror: Option<BackendRef>, mirrorPercent: int32, retry: Option<Retry>)

  datatype Route = Route(
    name: string, hostnames: seq<string>, rules: seq<Rule>, middleware: seq<string>, expression: string)

  datatype Endpoint = Endpoint(address: string, port: int32, weight: int32, ready: bool)

  datatype Cluster = Cluster(name: string, namespace: string)

  datatype ConfigSnapshot = ConfigSnapshot(
    routes: seq<Route>, clusters: seq<Cluster>, endpoints: map<string, seq<Endpoint>>)
}

/** The request that the translator pushes to the dataplane. */
module Dataplane {
  import opened Wrappers
  import opened Snapshot

  datatype PathKind = UnspecifiedPath | ExactPath | PrefixPath | RegexPath

  datatype PathTest = PathTest(kind: PathKind, value: string)

  datatype BackendWeight = BackendWeight(cluster: string, weight: uint32)

  datatype RetryPolicy = RetryPolicy(maxRetries: uint32, perTryTimeoutMs: uint64, retryOn: seq<string>, backoffBaseMs: uint64)

  /** The fields of a route entry that say what to do with a request it takes. */
  datatype Action = Action(
    middleware: seq<string>, backends: seq<BackendWeight>, retry: Option<RetryPolicy>, timeoutMs: uint64,
    rewritePath: string, addHeaders: map<string, string>, mirrorCluster: string, mirrorPercent: uint32)

  /** The fields of a route entry that say which requests it takes. */
  datatype Test = Test(hostnames: seq<string>, path: Option<PathTest>, headers: seq<Header>, verbs: seq<string>)

  datatype RouteEntry = RouteEntry(name: string, test: Test, action: Action)

  datatype DpEndpoint = DpEndpoint(ip: string, port: uint32, weight: uint32, healthy: bool)

  datatype DpCluster = DpCluster(name: string, endpoints: seq<DpEndpoint>)

  datatype ApplyRequest = ApplyRequest(routes: seq<RouteEntry>, clusters: seq<DpCluster>)
}
