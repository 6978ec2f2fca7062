/**
 The standalone configuration becomes a snapshot: one route with one rule per configured route,
 one cluster per backend, and a map from `namespace/name` to the endpoints of the cluster.

 A filter's headers come out in the order of a Go map, which is any order, so the conversion is a
 relation. `scan` stands for the scanner that reads a port number.
 */
module Converter {
  import opened Wrappers
  import opened Strings
  import opened Snapshot
  import opened StandaloneConfig
  import opened RouteTranslation

  // ---------------------------------------------------------------- clamping and defaults

  /** `safeInt32` clamps to the range of a 32-bit integer. */
  function SafeInt32(v: int): int32 {
    if v > 0x7fff_ffff then 0x7fff_ffff else if v < -0x8000_0000 then -0x8000_0000 else v
  }

  /** An absent weight counts as one. */
  function WeightOf(w: int): int32 {
    if SafeInt32(w) == 0 then 1 else SafeInt32(w)
  }

  function PathTypeOf(kind: string): PathType {
    match kind
    case "Exact" => PathExact
    case "PathPrefix" => PathPrefix
    case "RegularExpression" => PathRegex
    case _ => PathPrefix
  }

  function HeaderTypeOf(kind: string): HeaderType {
    if kind == "RegularExpression" then HeaderRegex else HeaderExact
  }

  function FilterTypeOf(kind: string): FilterType {
    match kind
    case "AddHeader" => AddHeader
    case "RemoveHeader" => RemoveHeader
    case "URLRewrite" => UrlRewrite
    case "RequestRedirect" => RequestRedirect
    case _ => FilterOther
  }

  /** `host:port`; an address with no single colon gets port 80, an unreadable port is zero. */
  function ParseAddressPort(address: string, scan: string -> Option<int>): (string, int32) {
    var parts := Split(address, ':');
    if |parts| != 2 then (address, 80)
    else if scan(parts[1]).None? then (parts[0], 0)
    else (parts[0], SafeInt32(scan(parts[1]).value))
  }

  /** A host and a port around one colon come apart there; the port is clamped, or zero if unreadable. */
  lemma ParsesHostPort(host: string, port: string, scan: string -> Option<int>)
    requires ':' !in host && ':' !in port
    ensures ParseAddressPort(host + ":" + port, scan).0 == host
    ensures var p := ParseAddressPort(host + ":" + port, scan).1;
      && (scan(port).None? ==> p == 0)
      && (scan(port).Some? ==>
            p == if scan(port).value > 0x7fff_ffff then 0x7fff_ffff
                 else if scan(port).value < -0x8000_0000 then -0x8000_0000 else scan(port).value)
  {
    SplitFirst(host, port, ':');
    SplitNone(port, ':');
    assert host + ":" + port == host + [':'] + port;
  }

  /** An address with no colon is a host on port 80. */
  lemma ParsesHostAlone(host: string, scan: string -> Option<int>)
    requires ':' !in host
    ensures ParseAddressPort(host, scan) == (host, 80)
  {
    SplitNone(host, ':');
  }

  /** An address with several colons is taken whole, on port 80. */
  lemma ParsesManyColons(a: string, b: string, rest: string, scan: string -> Option<int>)
    requires ':' !in a && ':' !in b
    ensures ParseAddressPort(a + ":" + b + ":" + rest, scan) == (a + ":" + b + ":" + rest, 80)
  {
    SplitFirst(a, b + ":" + rest, ':');
    SplitFirst(b, rest, ':');
    SplitHead(rest, ':');
    assert a + ":" + b + ":" + rest == a + [':'] + (b + ":" + rest);
    assert b + ":" + rest == b + [':'] + rest;
  }

  // ---------------------------------------------------------------- routes

  function HeadersOf(headers: seq<HeaderConfig>): seq<HeaderMatch> {
    seq(|headers|, i requires 0 <= i < |headers| =>
      HeaderMatch(HeaderTypeOf(headers[i].kind), headers[i].name, headers[i].value))
  }

  function MatchOf(r: RouteConfig): RouteMatch {
    RouteMatch(if r.path.None? then None else Some(PathMatch(PathTypeOf(r.path.value.kind), r.path.value.value)),
               HeadersOf(r.headers), r.verb)
  }

  /** A match without any condition is left out, which leaves the rule unconditional. */
  function RuleMatches(r: RouteConfig): seq<RouteMatch> {
    if r.path.Some? || r.headers != [] || r.verb != "" then [MatchOf(r)] else []
  }

  function RefsOf(refs: seq<RouteBackend>): seq<BackendRef> {
    seq(|refs|, i requires 0 <= i < |refs| => BackendRef(refs[i].name, WeightOf(refs[i].weight)))
  }

  function RetryFrom(retry: Option<RetryConfig>): Option<Retry> {
    if retry.None? then None
    else
      var r := retry.value;
      Some(Retry(SafeInt32(r.maxRetries), r.perTryTimeoutMs, r.retryOn, r.backoffBaseMs))
  }

  function MirrorFrom(mirror: Option<MirrorConfig>): (Option<BackendRef>, int32) {
    if mirror.None? || mirror.value.backend == "" then (None, 0)
    else
      var percent := SafeInt32(mirror.value.percentage);
      (Some(BackendRef(mirror.value.backend, 1)), if percent == 0 then 100 else percent)
  }

  /** The headers of a map, each once, in any order. */
  ghost predicate Lists(headers: seq<Header>, m: map<string, string>) {
    && (forall i :: 0 <= i < |headers| ==> headers[i].name in m && m[headers[i].name] == headers[i].value)
    && (forall i, j :: 0 <= i < j < |headers| ==> headers[i].name != headers[j].name)
    && (forall n :: n in m ==> exists i :: 0 <= i < |headers| && headers[i].name == n)
  }

  ghost predicate FilterConverts(f: FilterConfig, g: Filter) {
    && g.kind == FilterTypeOf(f.kind)
    && (if f.kind == "AddHeader" then Lists(g.addHeaders, f.add) else g.addHeaders == [])
    && g.rewritePath == if f.kind == "URLRewrite" then f.rewritePath else ""
  }

  ghost predicate FiltersConvert(fs: seq<FilterConfig>, gs: seq<Filter>) {
    |gs| == |fs| && forall i :: 0 <= i < |fs| ==> FilterConverts(fs[i], gs[i])
  }

  ghost predicate RouteConverts(c: RouteConfig, r: Route) {
    && r.name == c.name && r.hostnames == c.hostnames
    && r.middleware == c.middleware && r.expression == c.expression
    && |r.rules| == 1
    && var rule := r.rules[0];
      && rule.matches == RuleMatches(c)
      && rule.backendRefs == RefsOf(c.backends)
      && rule.requestTimeoutMs == c.requestTimeoutMs
      && FiltersConvert(c.filters, rule.filters)
      && (rule.mirror, rule.mirrorPercent) == MirrorFrom(c.mirror)
      && rule.retry == RetryFrom(c.retry)
  }

  /** What a converted route says, field by field, in the terms of the file. */
  lemma ConvertedRoute(c: RouteConfig, r: Route)
    requires RouteConverts(c, r)
    ensures r.name == c.name && r.hostnames == c.hostnames && r.middleware == c.middleware && r.expression == c.expression
    ensures |r.rules| == 1
    ensures var rule := r.rules[0];
      && (rule.matches == [] <==> c.path.None? && c.headers == [] && c.verb == "")
      && (rule.matches != [] ==>
            && |rule.matches| == 1 && rule.matches[0].verb == c.verb
            && rule.matches[0].path.Some? == c.path.Some?
            && (c.path.Some? ==> rule.matches[0].path.value.value == c.path.value.value)
            && |rule.matches[0].headers| == |c.headers|
            && forall i :: 0 <= i < |c.headers| ==>
                && rule.matches[0].headers[i].name == c.headers[i].name && rule.matches[0].headers[i].value == c.headers[i].value
                && (rule.matches[0].headers[i].kind == HeaderRegex <==> c.headers[i].kind == "RegularExpression"))
      && |rule.backendRefs| == |c.backends|
      && (forall i :: 0 <= i < |c.backends| ==>
            && rule.backendRefs[i].name == c.backends[i].name
            && (-0x8000_0000 <= c.backends[i].weight <= 0x7fff_ffff && c.backends[i].weight != 0 ==> rule.backendRefs[i].weight == c.backends[i].weight)
            && (c.backends[i].weight == 0 ==> rule.backendRefs[i].weight == 1))
      && rule.requestTimeoutMs == c.requestTimeoutMs
  {
  }

  /** What a converted filter does. */
  lemma ConvertedFilter(f: FilterConfig, g: Filter)
    requires FilterConverts(f, g)
    ensures g.kind == AddHeader <==> f.kind == "AddHeader"
    ensures g.kind == UrlRewrite <==> f.kind == "URLRewrite"
    ensures g.kind == RemoveHeader <==> f.kind == "RemoveHeader"
    ensures g.kind == RequestRedirect <==> f.kind == "RequestRedirect"
    ensures f.kind == "URLRewrite" ==> g.rewritePath == f.rewritePath
    ensures f.kind == "AddHeader" ==> HeaderMap(g.addHeaders) == f.add
  {
    if f.kind == "AddHeader" {
      ListsHeaderMap(g.addHeaders, f.add);
    }
  }

  /** The order of a Go map is unspecified: any remaining header may come next. */
  method ListHeaders(m: map<string, string>) returns (headers: seq<Header>)
    ensures Lists(headers, m)
  {
    headers := [];
    var todo := m.Keys;
    while todo != {}
      invariant todo <= m.Keys
      invariant forall i :: 0 <= i < |headers| ==>
        headers[i].name in m && m[headers[i].name] == headers[i].value && headers[i].name !in todo
      invariant forall i, j :: 0 <= i < j < |headers| ==> headers[i].name != headers[j].name
      invariant forall n :: n in m && n !in todo ==> exists i :: 0 <= i < |headers| && headers[i].name == n
    {
      var n :| n in todo;
      ghost var before := headers;
      headers := headers + [Header(n, m[n])];
      todo := todo - {n};
      assert headers[|before|].name == n;
      assert forall i :: 0 <= i < |before| ==> headers[i] == before[i];
    }
  }

  method ConvertRouteFilters(filters: seq<FilterConfig>) returns (result: seq<Filter>)
    ensures FiltersConvert(filters, result)
  {
    result := [];
    for i := 0 to |filters|
      invariant |result| == i
      invariant forall j :: 0 <= j < i ==> FilterConverts(filters[j], result[j])
    {
      var f := filters[i];
      var filter := Filter(FilterTypeOf(f.kind), [], "");
      if f.kind == "AddHeader" {
        var headers := ListHeaders(f.add);
        filter := filter.(addHeaders := headers);
      } else if f.kind == "URLRewrite" {
        filter := filter.(rewritePath := f.rewritePath);
      }
      result := result + [filter];
    }
  }

  method ConvertRoutes(routes: seq<RouteConfig>) returns (result: seq<Route>)
    ensures |result| == |routes| && forall i :: 0 <= i < |routes| ==> RouteConverts(routes[i], result[i])
  {
    result := [];
    for i := 0 to |routes|
      invariant |result| == i
      invariant forall j :: 0 <= j < i ==> RouteConverts(routes[j], result[j])
    {
      var r := routes[i];
      var route := ConvertRoute(r);
      result := result + [route];
    }
  }

  method ConvertRoute(r: RouteConfig) returns (route: Route)
    ensures RouteConverts(r, route)
  {
    var m := RouteMatch(None, [], "");
    if r.path.Some? {
      m := m.(path := Some(PathMatch(PathTypeOf(r.path.value.kind), r.path.value.value)));
    }
    for i := 0 to |r.headers|
      invariant |m.headers| == i && m == MatchOf(r).(headers := m.headers, verb := "")
      invariant forall j :: 0 <= j < i ==> m.headers[j] == HeadersOf(r.headers)[j]
    {
      var h := r.headers[i];
      m := m.(headers := m.headers + [HeaderMatch(HeaderTypeOf(h.kind), h.name, h.value)]);
    }
    assert m.headers == HeadersOf(r.headers);
    if r.verb != "" {
      m := m.(verb := r.verb);
    }
    assert m == MatchOf(r);
    var matches := [];
    if m.path.Some? || |m.headers| > 0 || m.verb != "" {
      matches := matches + [m];
    }
    var refs: seq<BackendRef> := [];
    for i := 0 to |r.backends|
      invariant |refs| == i
      invariant forall j :: 0 <= j < i ==> refs[j] == RefsOf(r.backends)[j]
    {
      var weight := SafeInt32(r.backends[i].weight);
      if weight == 0 {
        weight := 1;
      }
      refs := refs + [BackendRef(r.backends[i].name, weight)];
    }
    var filters := ConvertRouteFilters(r.filters);
    var mirror, percent: int32 := None, 0;
    if r.mirror.Some? && r.mirror.value.backend != "" {
      percent := SafeInt32(r.mirror.value.percentage);
      if percent == 0 {
        percent := 100;
      }
      mirror := Some(BackendRef(r.mirror.value.backend, 1));
    }
    var rule := Rule(matches, filters, refs, r.requestTimeoutMs, mirror, percent, RetryFrom(r.retry));
    route := Route(r.name, r.hostnames, [rule], r.middleware, r.expression);
  }

  /** Whatever the order, the headers that reach the dataplane are the configured map. */
  lemma ListsHeaderMap(headers: seq<Header>, m: map<string, string>)
    requires Lists(headers, m)
    ensures HeaderMap(headers) == m
  {
    forall n
      ensures n in HeaderMap(headers) <==> n in m
      ensures n in m ==> n in HeaderMap(headers) && HeaderMap(headers)[n] == m[n]
    {
      HeaderMapKeys(headers, n);
      if n in m {
        var i :| 0 <= i < |headers| && headers[i].name == n;
        assert LastFor(headers, n, i);
        HeaderMapValue(headers, n, i);
      }
    }
  }

  // ---------------------------------------------------------------- backends

  const NAMESPACE := "default"

  function EndpointOf(e: EndpointConfig, scan: string -> Option<int>): Endpoint {
    var (address, port) := ParseAddressPort(e.address, scan);
    Endpoint(address, port, SafeInt32(e.weight), true)
  }

  function EndpointsOf(b: Backend, scan: string -> Option<int>): seq<Endpoint> {
    seq(|b.endpoints|, i requires 0 <= i < |b.endpoints| => EndpointOf(b.endpoints[i], scan))
  }

  function ClusterKey(namespace: string, name: string): string {
    namespace + "/" + name
  }

  function EndpointMap(backends: seq<Backend>, scan: string -> Option<int>): map<string, seq<Endpoint>> {
    if backends == [] then map[]
    else
      var last := backends[|backends| - 1];
      EndpointMap(backends[..|backends| - 1], scan)[ClusterKey(NAMESPACE, last.name) := EndpointsOf(last, scan)]
  }

  method ConvertBackends(backends: seq<Backend>, scan: string -> Option<int>)
    returns (clusters: seq<Cluster>, endpoints: map<string, seq<Endpoint>>)
    ensures |clusters| == |backends| && forall i :: 0 <= i < |backends| ==> clusters[i] == Cluster(backends[i].name, NAMESPACE)
    ensures endpoints == EndpointMap(backends, scan)
  {
    clusters, endpoints := [], map[];
    for i := 0 to |backends|
      invariant |clusters| == i && forall j :: 0 <= j < i ==> clusters[j] == Cluster(backends[j].name, NAMESPACE)
      invariant endpoints == EndpointMap(backends[..i], scan)
    {
      var b := backends[i];
      clusters := clusters + [Cluster(b.name, NAMESPACE)];
      var list: seq<Endpoint> := [];
      for k := 0 to |b.endpoints|
        invariant |list| == k && forall j :: 0 <= j < k ==> list[j] == EndpointsOf(b, scan)[j]
      {
        var (address, port) := ParseAddressPort(b.endpoints[k].address, scan);
        list := list + [Endpoint(address, port, SafeInt32(b.endpoints[k].weight), true)];
      }
      assert list == EndpointsOf(b, scan);
      assert backends[..i + 1][..i] == backends[..i];
      endpoints := endpoints[ClusterKey(NAMESPACE, b.name) := list];
    }
    assert backends[..|backends|] == backends;
  }

  /** With distinct backend names, each key finds the endpoints of its own backend. */
  lemma {:induction false} EndpointMapFinds(backends: seq<Backend>, scan: string -> Option<int>, i: nat)
    requires i < |backends|
    requires forall p, q :: 0 <= p < q < |backends| ==> backends[p].name != backends[q].name
    ensures var key := ClusterKey(NAMESPACE, backends[i].name);
      key in EndpointMap(backends, scan) && EndpointMap(backends, scan)[key] == EndpointsOf(backends[i], scan)
  {
    var n := |backends| - 1;
    if i < n {
      EndpointMapFinds(backends[..n], scan, i);
      var a, b := ClusterKey(NAMESPACE, backends[i].name), ClusterKey(NAMESPACE, backends[n].name);
      assert a[|NAMESPACE| + 1..] == backends[i].name && b[|NAMESPACE| + 1..] == backends[n].name;
    }
  }

  lemma {:induction false} EndpointMapHas(backends: seq<Backend>, scan: string -> Option<int>)
    ensures forall i :: 0 <= i < |backends| ==> "default/" + backends[i].name in EndpointMap(backends, scan)
  {
    if backends != [] {
      var n := |backends| - 1;
      EndpointMapHas(backends[..n], scan);
      assert ClusterKey(NAMESPACE, backends[n].name) == "default/" + backends[n].name;
      assert forall i :: 0 <= i < n ==> backends[..n][i] == backends[i];
    }
  }

  // ---------------------------------------------------------------- the snapshot

  ghost predicate SnapshotOf(c: Config, scan: string -> Option<int>, s: ConfigSnapshot) {
    && |s.routes| == |c.routes| && (forall i :: 0 <= i < |c.routes| ==> RouteConverts(c.routes[i], s.routes[i]))
    && |s.clusters| == |c.backends|
    && (forall i :: 0 <= i < |c.backends| ==> s.clusters[i] == Cluster(c.backends[i].name, NAMESPACE))
    && s.endpoints == EndpointMap(c.backends, scan)
  }

  method ToSnapshot(c: Config, scan: string -> Option<int>) returns (s: ConfigSnapshot)
    ensures SnapshotOf(c, scan, s)
    ensures forall i :: 0 <= i < |s.clusters| ==> s.clusters[i].namespace == "default" && "default/" + c.backends[i].name in s.endpoints
  {
    EndpointMapHas(c.backends, scan);
    var routes := ConvertRoutes(c.routes);
    var clusters, endpoints := ConvertBackends(c.backends, scan);
    s := ConfigSnapshot(routes, clusters, endpoints);
  }
}
