/**
 The standalone pipeline as a whole: a configuration that validation accepts, its snapshot, and
 the request that reaches the dataplane.
 */
module Pipeline {
  import opened Wrappers
  import opened Snapshot
  import opened Dataplane
  import opened StandaloneConfig
  import opened RouteTranslation
  import opened RouteMeaning
  import opened EntryNames
  import opened Converter
  import opened Translator

  // ---------------------------------------------------------------- one entry per route

  lemma SingleEntries(route: Route)
    requires SingleEntry(route)
    ensures RouteEntries(route, 0) == [EntryOf(route, 0, 0)]
  {
    assert RouteEntries(route, 1) == [];
    assert RuleEntries(route, 0) == [EntryOf(route, 0, 0)];
  }

  lemma {:induction false} FlattenLength(routes: seq<Route>)
    requires forall k :: 0 <= k < |routes| ==> SingleEntry(routes[k])
    ensures |Flatten(routes)| == |routes|
  {
    if routes != [] {
      SingleEntries(routes[0]);
      FlattenLength(routes[1..]);
    }
  }

  lemma {:induction false} FlattenSingle(routes: seq<Route>, i: nat)
    requires i < |routes| && forall k :: 0 <= k < |routes| ==> SingleEntry(routes[k])
    ensures SingleEntry(routes[i]) && |Flatten(routes)| == |routes| && Flatten(routes)[i] == EntryOf(routes[i], 0, 0)
  {
    SingleEntries(routes[0]);
    FlattenLength(routes);
    if i > 0 {
      FlattenSingle(routes[1..], i - 1);
    }
  }

  predicate SingleEntry(route: Route) {
    |route.rules| == 1 && |route.rules[0].matches| <= 1
  }

  /** Each configured route becomes one entry, in place. */
  lemma EntryOfRoute(c: Config, scan: string -> Option<int>, s: ConfigSnapshot, i: nat)
    requires SnapshotOf(c, scan, s) && i < |c.routes|
    ensures |Translation(s).routes| == |c.routes|
    ensures Translation(s).routes[i] == EntryOf(s.routes[i], 0, 0)
  {
    FlattenSingle(s.routes, i);
  }

  // ---------------------------------------------------------------- references close

  /**
   The weight that reaches the dataplane: zero counts as one, large weights are capped, and a
   negative one wraps around to a very large one.
   */
  function WireWeight(w: int): int {
    if w == 0 then 1
    else if w > 0x7fff_ffff then 0x7fff_ffff
    else if w > 0 then w
    else if w < -0x8000_0000 then 0x8000_0000
    else 0x1_0000_0000 + w
  }

  ghost predicate NamesCluster(req: ApplyRequest, name: string, k: nat) {
    && k < |req.clusters| && req.clusters[k].name == name
    && forall j :: 0 <= j < |req.clusters| && req.clusters[j].name == name ==> j == k
  }

  /** The cluster that a backend becomes: its endpoints, one for one and in order. */
  ghost predicate Serves(b: Backend, scan: string -> Option<int>, cl: DpCluster) {
    && cl.name == b.name
    && b.endpoints != [] && |cl.endpoints| == |b.endpoints|
    && forall e :: 0 <= e < |b.endpoints| ==>
        var (address, port) := ParseAddressPort(b.endpoints[e].address, scan);
        && cl.endpoints[e].ip == address
        && cl.endpoints[e].healthy
        && cl.endpoints[e].weight == WireWeight(b.endpoints[e].weight) >= 1
        && (port >= 0 ==> cl.endpoints[e].port == port)
  }

  lemma BackendBecomesCluster(c: Config, scan: string -> Option<int>, s: ConfigSnapshot, k: nat)
    requires Accepted(c) && SnapshotOf(c, scan, s) && k < |c.backends|
    ensures NamesCluster(Translation(s), c.backends[k].name, k)
    ensures Serves(c.backends[k], scan, Translation(s).clusters[k])
  {
    var req := Translation(s);
    DistinctBackends(c);
    EndpointMapFinds(c.backends, scan, k);
    assert BackendOk(c.backends, k);
    assert forall j :: 0 <= j < |req.clusters| ==> req.clusters[j].name == c.backends[j].name;
    ServesEndpoints(c.backends[k], scan, req.clusters[k]);
  }

  lemma ServesEndpoints(b: Backend, scan: string -> Option<int>, cl: DpCluster)
    requires cl.name == b.name && b.endpoints != [] && cl.endpoints == DpEndpointsOf(EndpointsOf(b, scan))
    ensures Serves(b, scan, cl)
  {
    forall e | 0 <= e < |b.endpoints|
      ensures cl.endpoints[e] == DpEndpointOf(EndpointOf(b.endpoints[e], scan))
    {
    }
  }

  lemma DistinctBackends(c: Config)
    requires Accepted(c)
    ensures forall p, q :: 0 <= p < q < |c.backends| ==> c.backends[p].name != c.backends[q].name
  {
    forall p, q | 0 <= p < q < |c.backends|
      ensures c.backends[p].name != c.backends[q].name
    {
      assert BackendOk(c.backends, q);
    }
  }

  /**
   For every accepted configuration the request has one entry per configured route; every
   backend reference of every entry names exactly one cluster, which serves the endpoints of the
   backend of that name; and every reference weighs at least one.
   */
  lemma PipelineCloses(c: Config, scan: string -> Option<int>, s: ConfigSnapshot, i: nat, j: nat)
    requires Accepted(c) && SnapshotOf(c, scan, s)
    requires i < |c.routes| && j < |c.routes[i].backends|
    ensures var req := Translation(s); var want := c.routes[i].backends[j];
      && |req.routes| == |c.routes|
      && |req.routes[i].action.backends| == |c.routes[i].backends|
      && req.routes[i].action.backends[j].cluster == want.name
      && req.routes[i].action.backends[j].weight == WireWeight(want.weight) >= 1
      && exists k :: 0 <= k < |c.backends| && c.backends[k].name == want.name
           && NamesCluster(req, want.name, k) && Serves(c.backends[k], scan, req.clusters[k])
  {
    EntryOfRoute(c, scan, s, i);
    assert RouteOk(c.routes[i], BackendNames(c.backends));
    var want := c.routes[i].backends[j];
    assert want.name in BackendNames(c.backends);
    var k :| 0 <= k < |c.backends| && c.backends[k].name == want.name;
    BackendBecomesCluster(c, scan, s, k);
  }

  // ---------------------------------------------------------------- what is lost by name

  /**
   Every configured route keeps an entry of its own in the dataplane's table exactly when the
   route names are distinct, which validation does not ask for.
   */
  lemma EntriesDistinctIff(c: Config, scan: string -> Option<int>, s: ConfigSnapshot)
    requires SnapshotOf(c, scan, s)
    ensures NamesDistinct(Translation(s).routes) <==>
            forall p, q :: 0 <= p < q < |c.routes| ==> c.routes[p].name != c.routes[q].name
  {
    NamesDistinctIff(s.routes);
    forall p, q | 0 <= p < q < |c.routes|
      ensures Clash(s.routes[p], s.routes[q]) <==> c.routes[p].name == c.routes[q].name
    {
      assert RouteConverts(c.routes[p], s.routes[p]) && RouteConverts(c.routes[q], s.routes[q]);
      assert |s.routes[p].rules[0].matches| <= 1 && |s.routes[q].rules[0].matches| <= 1;
    }
  }

  /** An accepted configuration whose two routes share a name and so one table entry. */
  lemma AcceptedWithSharedName()
    ensures exists c: Config :: Accepted(c) && |c.routes| == 2 && c.routes[0].name == c.routes[1].name
  {
    var r := RouteConfig("web", [], None, [], "", [RouteBackend("app", 1)], [], None, None, None, [], "");
    var c := Config("1", [Listener("http", 80, "HTTP", None)], [], [Backend("app", [EndpointConfig("10.0.0.1:8080", 1)])],
                    [r, r.(verb := "POST")]);
    assert c.backends[0].name in BackendNames(c.backends);
    assert Accepted(c);
  }

  // ---------------------------------------------------------------- routing end to end

  ghost predicate HeaderConfigHolds(R: Reading, h: HeaderConfig, req: Request) {
    exists i :: 0 <= i < |req.headers|
                && R.sameName(h.name, req.headers[i].name)
                && if h.kind == "RegularExpression" then R.pattern(h.value, req.headers[i].value) else h.value == req.headers[i].value
  }

  /** The match section of a configured route, as the file states it. */
  ghost predicate ConfigHolds(R: Reading, c: RouteConfig, req: Request) {
    && R.host(c.hostnames, req.host)
    && (c.path.Some? ==>
          match c.path.value.kind
          case "Exact" => R.exact(c.path.value.value, req.path)
          case "RegularExpression" => R.regex(c.path.value.value, req.path)
          case _ => R.prefix(c.path.value.value, req.path))
    && (forall i :: 0 <= i < |c.headers| ==> HeaderConfigHolds(R, c.headers[i], req))
    && (c.verb != "" ==> R.verb(c.verb, req.verb))
  }

  /** No pattern headers and no expression. */
  predicate PlainConfig(c: RouteConfig) {
    c.expression == "" && forall i :: 0 <= i < |c.headers| ==> c.headers[i].kind != "RegularExpression"
  }

  lemma EntryReadsConfig(R: Reading, c: RouteConfig, r: Route, req: Request)
    requires RouteConverts(c, r) && PlainConfig(c)
    ensures TestHolds(R, EntryOf(r, 0, 0).test, req) <==> ConfigHolds(R, c, req)
  {
    var m := MatchOf(c);
    forall i | 0 <= i < |c.headers|
      ensures HeaderHolds(R, m.headers[i], req) <==> HeaderConfigHolds(R, c.headers[i], req)
    {
    }
    if RuleMatches(c) != [] {
      TestOfMatch(R, r, m, req);
    }
  }

  lemma {:induction false} FirstEntryAt(R: Reading, entries: seq<RouteEntry>, req: Request, i: nat)
    requires i < |entries| && TestHolds(R, entries[i].test, req)
    requires forall j :: 0 <= j < i ==> !TestHolds(R, entries[j].test, req)
    ensures FirstEntry(R, entries, req) == Some(entries[i])
  {
    if i > 0 {
      FirstEntryAt(R, entries[1..], req, i - 1);
    }
  }

  /**
   The i-th configured route is the first that matches a request exactly when the i-th entry of
   the request sent to the dataplane is the first that matches it, under every reading.
   */
  lemma PipelineKeepsMeaning(R: Reading, c: Config, scan: string -> Option<int>, s: ConfigSnapshot, req: Request, i: nat)
    requires SnapshotOf(c, scan, s) && i < |c.routes|
    requires forall k :: 0 <= k < |c.routes| ==> PlainConfig(c.routes[k])
    ensures |Translation(s).routes| == |c.routes|
    ensures ConfigHolds(R, c.routes[i], req) && (forall j :: 0 <= j < i ==> !ConfigHolds(R, c.routes[j], req))
            <==> FirstAt(R, Translation(s).routes, req, i)
    ensures FirstAt(R, Translation(s).routes, req, i) ==> FirstEntry(R, Translation(s).routes, req) == Some(Translation(s).routes[i])
  {
    var entries := Translation(s).routes;
    EntryOfRoute(c, scan, s, i);
    forall k | 0 <= k < |c.routes|
      ensures TestHolds(R, entries[k].test, req) <==> ConfigHolds(R, c.routes[k], req)
    {
      EntryOfRoute(c, scan, s, k);
      EntryReadsConfig(R, c.routes[k], s.routes[k], req);
    }
    if FirstAt(R, entries, req, i) {
      FirstEntryAt(R, entries, req, i);
    }
  }

  ghost predicate FirstAt(R: Reading, entries: seq<RouteEntry>, req: Request, i: nat) {
    i < |entries| && TestHolds(R, entries[i].test, req) && forall j :: 0 <= j < i ==> !TestHolds(R, entries[j].test, req)
  }

  /** An added header of the deciding filter reaches the dataplane with its configured value. */
  lemma AddedHeadersReach(c: Config, scan: string -> Option<int>, s: ConfigSnapshot, i: nat, f: nat)
    requires SnapshotOf(c, scan, s) && i < |c.routes| && f < |c.routes[i].filters|
    requires c.routes[i].filters[f].kind == "AddHeader" && c.routes[i].filters[f].add != map[]
    requires forall j :: 0 <= j < f ==> c.routes[i].filters[j].kind != "AddHeader" || c.routes[i].filters[j].add == map[]
    ensures |Translation(s).routes| == |c.routes|
    ensures Translation(s).routes[i].action.addHeaders == c.routes[i].filters[f].add
  {
    EntryOfRoute(c, scan, s, i);
    var fs, gs := c.routes[i].filters, s.routes[i].rules[0].filters;
    assert RouteConverts(c.routes[i], s.routes[i]);
    forall j | 0 <= j < |fs|
      ensures gs[j].kind.AddHeader? && gs[j].addHeaders != [] <==> fs[j].kind == "AddHeader" && fs[j].add != map[]
      ensures fs[j].kind == "AddHeader" ==> HeaderMap(gs[j].addHeaders) == fs[j].add
    {
      assert FilterConverts(fs[j], gs[j]);
      if fs[j].kind == "AddHeader" {
        ListsHeaderMap(gs[j].addHeaders, fs[j].add);
      }
    }
    FirstAdditionsIs(gs, f);
  }

  /** The rest of the action, in the terms of the configuration file. */
  lemma ActionReaches(c: Config, scan: string -> Option<int>, s: ConfigSnapshot, i: nat)
    requires SnapshotOf(c, scan, s) && i < |c.routes|
    ensures |Translation(s).routes| == |c.routes|
    ensures var a := Translation(s).routes[i].action; var r := c.routes[i];
      && a.middleware == r.middleware
      && (r.requestTimeoutMs.Some? && r.requestTimeoutMs.value > 0 ==> a.timeoutMs == r.requestTimeoutMs.value)
      && (r.requestTimeoutMs.None? || r.requestTimeoutMs.value <= 0 ==> a.timeoutMs == 0)
      && a.retry.None? == r.retry.None?
      && (r.retry.Some? ==>
            && a.retry.value.retryOn == r.retry.value.retryOn
            && (0 <= r.retry.value.maxRetries <= 0x7fff_ffff ==> a.retry.value.maxRetries == r.retry.value.maxRetries)
            && (r.retry.value.maxRetries > 0x7fff_ffff ==> a.retry.value.maxRetries == 0x7fff_ffff)
            && a.retry.value.perTryTimeoutMs == (if r.retry.value.perTryTimeoutMs < 0 then 0 else r.retry.value.perTryTimeoutMs)
            && a.retry.value.backoffBaseMs == (if r.retry.value.backoffBaseMs < 0 then 0 else r.retry.value.backoffBaseMs))
      && (r.mirror.None? ==> a.mirrorCluster == "" && a.mirrorPercent == 0)
      && (r.mirror.Some? ==> a.mirrorCluster == r.mirror.value.backend)
      && (r.mirror.Some? && r.mirror.value.backend == "" ==> a.mirrorPercent == 0)
      && (r.mirror.Some? && r.mirror.value.backend != "" ==>
            && (r.mirror.value.percentage <= 0 ==> a.mirrorPercent == 100)
            && (0 < r.mirror.value.percentage <= 0x7fff_ffff ==> a.mirrorPercent == r.mirror.value.percentage)
            && (r.mirror.value.percentage > 0x7fff_ffff ==> a.mirrorPercent == 0x7fff_ffff))
  {
    EntryOfRoute(c, scan, s, i);
    assert RouteConverts(c.routes[i], s.routes[i]);
  }

  /** The first rewrite with a path is the one that reaches the dataplane. */
  lemma RewriteReaches(c: Config, scan: string -> Option<int>, s: ConfigSnapshot, i: nat, f: nat)
    requires SnapshotOf(c, scan, s) && i < |c.routes| && f < |c.routes[i].filters|
    requires c.routes[i].filters[f].kind == "URLRewrite" && c.routes[i].filters[f].rewritePath != ""
    requires forall j :: 0 <= j < f ==> c.routes[i].filters[j].kind != "URLRewrite" || c.routes[i].filters[j].rewritePath == ""
    ensures |Translation(s).routes| == |c.routes|
    ensures Translation(s).routes[i].action.rewritePath == c.routes[i].filters[f].rewritePath
  {
    EntryOfRoute(c, scan, s, i);
    var fs, gs := c.routes[i].filters, s.routes[i].rules[0].filters;
    assert RouteConverts(c.routes[i], s.routes[i]);
    assert forall j :: 0 <= j < |fs| ==> FilterConverts(fs[j], gs[j]);
    FirstRewriteIs(gs, f);
  }

  /** A configured route without a filter that asks for them arrives without a rewrite and without headers. */
  lemma NothingAddedIff(c: Config, scan: string -> Option<int>, s: ConfigSnapshot, i: nat)
    requires SnapshotOf(c, scan, s) && i < |c.routes|
    ensures |Translation(s).routes| == |c.routes|
    ensures Translation(s).routes[i].action.rewritePath == "" <==>
            forall j :: 0 <= j < |c.routes[i].filters| ==> c.routes[i].filters[j].kind != "URLRewrite" || c.routes[i].filters[j].rewritePath == ""
    ensures Translation(s).routes[i].action.addHeaders == map[] <==>
            forall j :: 0 <= j < |c.routes[i].filters| ==> c.routes[i].filters[j].kind != "AddHeader" || c.routes[i].filters[j].add == map[]
  {
    EntryOfRoute(c, scan, s, i);
    var fs, gs := c.routes[i].filters, s.routes[i].rules[0].filters;
    assert RouteConverts(c.routes[i], s.routes[i]);
    forall j | 0 <= j < |fs|
      ensures gs[j].kind == UrlRewrite && gs[j].rewritePath != "" <==> fs[j].kind == "URLRewrite" && fs[j].rewritePath != ""
      ensures gs[j].kind == AddHeader && gs[j].addHeaders != [] <==> fs[j].kind == "AddHeader" && fs[j].add != map[]
    {
      assert FilterConverts(fs[j], gs[j]);
      if fs[j].kind == "AddHeader" {
        ListsHeaderMap(gs[j].addHeaders, fs[j].add);
      }
    }
    NoRewriteIff(gs);
    NoAdditionsIff(gs);
  }
}
