/**
 Routes of the snapshot become a flat list of dataplane entries: every match of every rule fans
 out into an entry of its own, in order.
 */
module RouteTranslation {
  import opened Wrappers
  import opened Strings
  import opened Snapshot
  import opened Dataplane

  // ---------------------------------------------------------------- what each part becomes

  function PathKindOf(t: PathType): PathKind {
    match t
    case PathExact => ExactPath
    case PathPrefix => PrefixPath
    case PathRegex => RegexPath
    case _ => UnspecifiedPath
  }

  /** The first rewrite filter that carries a path decides the rewrite. */
  function FirstRewrite(filters: seq<Filter>): string {
    if filters == [] then ""
    else if filters[0].kind.UrlRewrite? && filters[0].rewritePath != "" then filters[0].rewritePath
    else FirstRewrite(filters[1..])
  }

  /** The first add-header filter that carries headers decides the headers. */
  function FirstAdditions(filters: seq<Filter>): seq<Header> {
    if filters == [] then []
    else if filters[0].kind.AddHeader? && filters[0].addHeaders != [] then filters[0].addHeaders
    else FirstAdditions(filters[1..])
  }

  /** Headers as a map: the last value given for a name stays. */
  function HeaderMap(headers: seq<Header>): map<string, string> {
    if headers == [] then map[]
    else
      var last := headers[|headers| - 1];
      HeaderMap(headers[..|headers| - 1])[last.name := last.value]
  }

  function BackendsOf(refs: seq<BackendRef>): seq<BackendWeight> {
    seq(|refs|, i requires 0 <= i < |refs| => BackendWeight(refs[i].name, Uint32(refs[i].weight)))
  }

  function RetryOf(retry: Option<Retry>): Option<RetryPolicy> {
    if retry.None? then None
    else
      var r := retry.value;
      Some(RetryPolicy(Uint32(r.maxRetries), SafeUint64(r.perTryTimeoutMs), r.retryOn, SafeUint64(r.backoffBaseMs)))
  }

  function TimeoutOf(timeout: Option<int64>): uint64 {
    if timeout.Some? && timeout.value > 0 then timeout.value else 0
  }

  predicate Mirrors(rule: Rule) {
    rule.mirror.Some? && rule.mirror.value.name != ""
  }

  function ActionOf(route: Route, rule: Rule): Action {
    Action(
      route.middleware, BackendsOf(rule.backendRefs), RetryOf(rule.retry), TimeoutOf(rule.requestTimeoutMs),
      FirstRewrite(rule.filters), HeaderMap(FirstAdditions(rule.filters)),
      if Mirrors(rule) then rule.mirror.value.name else "",
      if !Mirrors(rule) then 0 else if rule.mirrorPercent > 0 then Uint32(rule.mirrorPercent) else 100)
  }

  function HeaderTests(headers: seq<HeaderMatch>): seq<Header> {
    seq(|headers|, i requires 0 <= i < |headers| => Header(headers[i].name, headers[i].value))
  }

  /** The test of one match; a rule without matches gives one entry whose test is only its hosts. */
  function TestOf(route: Route, m: Option<RouteMatch>): Test {
    if m.None? then Test(route.hostnames, None, [], [])
    else
      var p := m.value.path;
      Test(route.hostnames,
           if p.None? then None else Some(PathTest(PathKindOf(p.value.kind), p.value.value)),
           HeaderTests(m.value.headers),
           if m.value.verb == "" then [] else [m.value.verb])
  }

  function MatchesOf(rule: Rule): (ms: seq<Option<RouteMatch>>)
    ensures ms != []
  {
    if rule.matches == [] then [None]
    else seq(|rule.matches|, i requires 0 <= i < |rule.matches| => Some(rule.matches[i]))
  }

  /** `<route>/rule-<i>`, and `/match-<k>` after it when the rule has several matches. */
  function EntryName(route: string, ruleIdx: nat, matchIdx: Option<nat>): string {
    route + "/rule-" + Digits(ruleIdx) + if matchIdx.Some? then "/match-" + Digits(matchIdx.value) else ""
  }

  function EntryOf(route: Route, ruleIdx: nat, k: nat): RouteEntry
    requires ruleIdx < |route.rules| && k < |MatchesOf(route.rules[ruleIdx])|
  {
    var rule := route.rules[ruleIdx];
    var ms := MatchesOf(rule);
    RouteEntry(EntryName(route.name, ruleIdx, if |ms| > 1 then Some(k) else None),
               TestOf(route, ms[k]), ActionOf(route, rule))
  }

  function RuleEntries(route: Route, ruleIdx: nat): seq<RouteEntry>
    requires ruleIdx < |route.rules|
  {
    var n := |MatchesOf(route.rules[ruleIdx])|;
    seq(n, k requires 0 <= k < n => EntryOf(route, ruleIdx, k))
  }

  /** The entries of the rules from `from` on. */
  function RouteEntries(route: Route, from: nat): seq<RouteEntry>
    requires from <= |route.rules|
    decreases |route.rules| - from
  {
    if from == |route.rules| then [] else RuleEntries(route, from) + RouteEntries(route, from + 1)
  }

  function Flatten(routes: seq<Route>): seq<RouteEntry> {
    if routes == [] then [] else RouteEntries(routes[0], 0) + Flatten(routes[1..])
  }

  // ---------------------------------------------------------------- the translator's loops

  method ApplyRouteFilters(filters: seq<Filter>) returns (rewritePath: string, addHeaders: map<string, string>)
    ensures rewritePath == FirstRewrite(filters)
    ensures addHeaders == HeaderMap(FirstAdditions(filters))
    ensures rewritePath == "" <==> forall i :: 0 <= i < |filters| ==> !(filters[i].kind == UrlRewrite && filters[i].rewritePath != "")
    ensures addHeaders == map[] <==> forall i :: 0 <= i < |filters| ==> !(filters[i].kind == AddHeader && filters[i].addHeaders != [])
  {
    NoRewriteIff(filters);
    NoAdditionsIff(filters);
    rewritePath, addHeaders := "", map[];
    var i := 0;
    while i < |filters|
      invariant 0 <= i <= |filters|
      invariant FirstRewrite(filters) == if rewritePath != "" then rewritePath else FirstRewrite(filters[i..])
      invariant HeaderMap(FirstAdditions(filters)) ==
        if addHeaders != map[] then addHeaders else HeaderMap(FirstAdditions(filters[i..]))
    {
      var f := filters[i];
      assert filters[i..][0] == f && filters[i..][1..] == filters[i + 1..];
      if f.kind == UrlRewrite && f.rewritePath != "" && rewritePath == "" {
        rewritePath := f.rewritePath;
      }
      if f.kind == AddHeader && f.addHeaders != [] && |addHeaders| == 0 {
        addHeaders := map[];
        for h := 0 to |f.addHeaders|
          invariant addHeaders == HeaderMap(f.addHeaders[..h])
          invariant h > 0 ==> addHeaders != map[]
        {
          var hdr := f.addHeaders[h];
          assert f.addHeaders[..h + 1][..h] == f.addHeaders[..h];
          addHeaders := addHeaders[hdr.name := hdr.value];
          assert hdr.name in addHeaders;
        }
        assert f.addHeaders[..|f.addHeaders|] == f.addHeaders;
      }
      i := i + 1;
    }
  }

  method TranslateMatch(route: Route, m: Option<RouteMatch>) returns (test: Test)
    ensures test == TestOf(route, m)
  {
    test := Test(route.hostnames, None, [], []);
    if m.Some? {
      var rm := m.value;
      if rm.path.Some? {
        test := test.(path := Some(PathTest(PathKindOf(rm.path.value.kind), rm.path.value.value)));
      }
      var headers: seq<Header> := [];
      for i := 0 to |rm.headers|
        invariant |headers| == i
        invariant forall j :: 0 <= j < i ==> headers[j] == Header(rm.headers[j].name, rm.headers[j].value)
      {
        headers := headers + [Header(rm.headers[i].name, rm.headers[i].value)];
      }
      test := test.(headers := headers);
      if rm.verb != "" {
        test := test.(verbs := test.verbs + [rm.verb]);
      }
    }
  }

  method TranslateAction(route: Route, rule: Rule) returns (action: Action)
    ensures action == ActionOf(route, rule)
  {
    var backends: seq<BackendWeight> := [];
    for i := 0 to |rule.backendRefs|
      invariant |backends| == i
      invariant forall j :: 0 <= j < i ==>
        backends[j] == BackendWeight(rule.backendRefs[j].name, Uint32(rule.backendRefs[j].weight))
    {
      var br := rule.backendRefs[i];
      backends := backends + [BackendWeight(br.name, Uint32(br.weight))];
    }
    var retry := None;
    if rule.retry.Some? {
      var r := rule.retry.value;
      retry := Some(RetryPolicy(Uint32(r.maxRetries), SafeUint64(r.perTryTimeoutMs), r.retryOn, SafeUint64(r.backoffBaseMs)));
    }
    var timeoutMs: uint64 := 0;
    if rule.requestTimeoutMs.Some? && rule.requestTimeoutMs.value > 0 {
      timeoutMs := SafeUint64(rule.requestTimeoutMs.value);
    }
    var rewritePath, addHeaders := ApplyRouteFilters(rule.filters);
    var mirrorCluster, mirrorPercent: uint32 := "", 0;
    if rule.mirror.Some? && rule.mirror.value.name != "" {
      mirrorCluster := rule.mirror.value.name;
      if rule.mirrorPercent > 0 {
        mirrorPercent := Uint32(rule.mirrorPercent);
      } else {
        mirrorPercent := 100;
      }
    }
    action := Action(route.middleware, backends, retry, timeoutMs, rewritePath, addHeaders, mirrorCluster, mirrorPercent);
  }

  method TranslateRouteRule(route: Route, ruleIdx: nat) returns (results: seq<RouteEntry>)
    requires ruleIdx < |route.rules|
    ensures results == RuleEntries(route, ruleIdx)
    ensures |results| == if |route.rules[ruleIdx].matches| > 1 then |route.rules[ruleIdx].matches| else 1
    ensures forall k :: 0 <= k < |results| ==>
      results[k].name == route.name + "/rule-" + Digits(ruleIdx)
                         + if |route.rules[ruleIdx].matches| > 1 then "/match-" + Digits(k) else ""
  {
    var rule := route.rules[ruleIdx];
    var matches := MatchesOf(rule);
    results := [];
    for k := 0 to |matches|
      invariant |results| == k
      invariant forall j :: 0 <= j < k ==> results[j] == EntryOf(route, ruleIdx, j)
    {
      var name := route.name + "/rule-" + Digits(ruleIdx);
      if |matches| > 1 {
        name := route.name + "/rule-" + Digits(ruleIdx) + "/match-" + Digits(k);
        assert name == EntryName(route.name, ruleIdx, Some(k));
      } else {
        assert name == EntryName(route.name, ruleIdx, None);
      }
      var test := TranslateMatch(route, matches[k]);
      var action := TranslateAction(route, rule);
      results := results + [RouteEntry(name, test, action)];
    }
  }

  method TranslateRulesOf(route: Route) returns (result: seq<RouteEntry>)
    ensures result == RouteEntries(route, 0)
  {
    result := [];
    var ruleIdx := 0;
    while ruleIdx < |route.rules|
      invariant 0 <= ruleIdx <= |route.rules|
      invariant RouteEntries(route, 0) == result + RouteEntries(route, ruleIdx)
    {
      var entries := TranslateRouteRule(route, ruleIdx);
      ghost var rest := RouteEntries(route, ruleIdx + 1);
      assert result + (entries + rest) == (result + entries) + rest;
      result := result + entries;
      ruleIdx := ruleIdx + 1;
    }
  }

  lemma FlattenFrom(routes: seq<Route>, i: nat)
    requires i < |routes|
    ensures Flatten(routes[i..]) == RouteEntries(routes[i], 0) + Flatten(routes[i + 1..])
  {
    assert routes[i..][0] == routes[i] && routes[i..][1..] == routes[i + 1..];
  }

  method TranslateRoutes(routes: seq<Route>) returns (result: seq<RouteEntry>)
    ensures result == Flatten(routes)
  {
    result := [];
    var i := 0;
    while i < |routes|
      invariant 0 <= i <= |routes|
      invariant Flatten(routes) == result + Flatten(routes[i..])
    {
      var entries := TranslateRulesOf(routes[i]);
      FlattenFrom(routes, i);
      assert result + (entries + Flatten(routes[i + 1..])) == (result + entries) + Flatten(routes[i + 1..]);
      result := result + entries;
      i := i + 1;
    }
  }

  // ---------------------------------------------------------------- what the filters mean

  /** The rewrite is that of the first filter that asks for one. */
  lemma {:induction false} FirstRewriteIs(filters: seq<Filter>, i: nat)
    requires i < |filters| && filters[i].kind.UrlRewrite? && filters[i].rewritePath != ""
    requires forall j :: 0 <= j < i ==> !(filters[j].kind.UrlRewrite? && filters[j].rewritePath != "")
    ensures FirstRewrite(filters) == filters[i].rewritePath
  {
    if i > 0 {
      FirstRewriteIs(filters[1..], i - 1);
    }
  }

  /** There is no rewrite exactly when no filter asks for one. */
  lemma {:induction false} NoRewriteIff(filters: seq<Filter>)
    ensures FirstRewrite(filters) == "" <==>
            forall i :: 0 <= i < |filters| ==> !(filters[i].kind == UrlRewrite && filters[i].rewritePath != "")
  {
    if filters != [] {
      NoRewriteIff(filters[1..]);
      assert forall i :: 1 <= i < |filters| ==> filters[i] == filters[1..][i - 1];
    }
  }

  /** The headers are those of the first filter that brings any. */
  lemma {:induction false} FirstAdditionsIs(filters: seq<Filter>, i: nat)
    requires i < |filters| && filters[i].kind.AddHeader? && filters[i].addHeaders != []
    requires forall j :: 0 <= j < i ==> !(filters[j].kind.AddHeader? && filters[j].addHeaders != [])
    ensures FirstAdditions(filters) == filters[i].addHeaders
  {
    if i > 0 {
      FirstAdditionsIs(filters[1..], i - 1);
    }
  }

  /** There are none exactly when no filter brings any. */
  lemma {:induction false} NoAdditionsIff(filters: seq<Filter>)
    ensures HeaderMap(FirstAdditions(filters)) == map[] <==>
            forall i :: 0 <= i < |filters| ==> !(filters[i].kind == AddHeader && filters[i].addHeaders != [])
  {
    if filters != [] {
      NoAdditionsIff(filters[1..]);
      assert forall i :: 1 <= i < |filters| ==> filters[i] == filters[1..][i - 1];
      HeaderMapKeys(FirstAdditions(filters), if filters[0].addHeaders != [] then filters[0].addHeaders[0].name else "");
    }
  }

  /** What a rule asks for is what its entries do, field by field. */
  lemma ActionMeans(route: Route, rule: Rule)
    ensures var a := ActionOf(route, rule);
      && a.middleware == route.middleware
      && |a.backends| == |rule.backendRefs|
      && (forall i :: 0 <= i < |a.backends| ==>
            && a.backends[i].cluster == rule.backendRefs[i].name
            && a.backends[i].weight == rule.backendRefs[i].weight + if rule.backendRefs[i].weight < 0 then 0x1_0000_0000 else 0)
      && a.timeoutMs == (if rule.requestTimeoutMs.Some? && rule.requestTimeoutMs.value > 0 then rule.requestTimeoutMs.value else 0)
      && (a.rewritePath == "" <==> forall i :: 0 <= i < |rule.filters| ==> !(rule.filters[i].kind == UrlRewrite && rule.filters[i].rewritePath != ""))
      && (a.addHeaders == map[] <==> forall i :: 0 <= i < |rule.filters| ==> !(rule.filters[i].kind == AddHeader && rule.filters[i].addHeaders != []))
      && a.mirrorCluster == (if rule.mirror.Some? then rule.mirror.value.name else "")
      && (a.mirrorCluster == "" ==> a.mirrorPercent == 0)
      && (a.mirrorCluster != "" ==> a.mirrorPercent == if rule.mirrorPercent > 0 then rule.mirrorPercent else 100)
  {
    NoRewriteIff(rule.filters);
    NoAdditionsIff(rule.filters);
  }

  /** Retries arrive as they are, except that negative times become zero and a negative count wraps. */
  lemma RetryMeans(route: Route, rule: Rule)
    ensures var a := ActionOf(route, rule);
      && a.retry.Some? == rule.retry.Some?
      && (rule.retry.Some? ==>
            && a.retry.value.maxRetries == rule.retry.value.maxRetries + (if rule.retry.value.maxRetries < 0 then 0x1_0000_0000 else 0)
            && a.retry.value.perTryTimeoutMs == (if rule.retry.value.perTryTimeoutMs < 0 then 0 else rule.retry.value.perTryTimeoutMs)
            && a.retry.value.backoffBaseMs == (if rule.retry.value.backoffBaseMs < 0 then 0 else rule.retry.value.backoffBaseMs)
            && a.retry.value.retryOn == rule.retry.value.retryOn)
  {
  }

  predicate LastFor(headers: seq<Header>, name: string, i: int) {
    && 0 <= i < |headers| && headers[i].name == name
    && forall j :: i < j < |headers| ==> headers[j].name != name
  }

  /** The headers added are those that the deciding filter names. */
  lemma {:induction false} HeaderMapKeys(headers: seq<Header>, name: string)
    ensures name in HeaderMap(headers) <==> exists i :: 0 <= i < |headers| && headers[i].name == name
  {
    if headers != [] {
      var rest := headers[..|headers| - 1];
      HeaderMapKeys(rest, name);
      assert headers == rest + [headers[|rest|]];
    }
  }

  /** Each carries the last value that the filter gives its name. */
  lemma {:induction false} HeaderMapValue(headers: seq<Header>, name: string, i: nat)
    requires LastFor(headers, name, i)
    ensures name in HeaderMap(headers) && HeaderMap(headers)[name] == headers[i].value
  {
    if i < |headers| - 1 {
      var rest := headers[..|headers| - 1];
      assert LastFor(rest, name, i);
      HeaderMapValue(rest, name, i);
    }
  }
}
