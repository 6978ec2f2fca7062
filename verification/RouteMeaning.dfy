/**
 The fan-out keeps the meaning of the routes: reading both sides as "the first one that matches
 takes the request", the flat list and the nested routes send every request to the same action.

 How hosts, paths, methods, regular expressions and routing expressions are compared is left
 open: a `Reading` supplies those comparisons to both sides, and the results hold for every one.
 */
module RouteMeaning {
  import opened Wrappers
  import opened Snapshot
  import opened Dataplane
  import opened RouteTranslation

  datatype Request = Request(host: string, path: string, verb: string, headers: seq<Header>)

  datatype Reading = Reading(
    host: (seq<string>, string) -> bool,
    exact: (string, string) -> bool,
    prefix: (string, string) -> bool,
    regex: (string, string) -> bool,
    pattern: (string, string) -> bool,
    unspecified: (string, string) -> bool,
    verb: (string, string) -> bool,
    sameName: (string, string) -> bool,
    expression: (string, Request) -> bool)

  // ---------------------------------------------------------------- the nested routes

  ghost predicate PathHolds(R: Reading, p: PathMatch, path: string) {
    match p.kind
    case PathExact => R.exact(p.value, path)
    case PathPrefix => R.prefix(p.value, path)
    case PathRegex => R.regex(p.value, path)
    case PathUnspecified => R.unspecified(p.value, path)
    case PathOther(_) => R.unspecified(p.value, path)
  }

  ghost predicate HeaderHolds(R: Reading, h: HeaderMatch, req: Request) {
    exists i :: 0 <= i < |req.headers|
                && R.sameName(h.name, req.headers[i].name)
                && if h.kind.HeaderRegex? then R.pattern(h.value, req.headers[i].value) else h.value == req.headers[i].value
  }

  ghost predicate MatchHolds(R: Reading, m: RouteMatch, req: Request) {
    && (m.path.Some? ==> PathHolds(R, m.path.value, req.path))
    && (forall i :: 0 <= i < |m.headers| ==> HeaderHolds(R, m.headers[i], req))
    && (m.verb != "" ==> R.verb(m.verb, req.verb))
  }

  ghost predicate RuleHolds(R: Reading, rule: Rule, req: Request) {
    rule.matches == [] || exists i :: 0 <= i < |rule.matches| && MatchHolds(R, rule.matches[i], req)
  }

  ghost predicate RouteTakes(R: Reading, route: Route, req: Request) {
    R.host(route.hostnames, req.host) && (route.expression != "" ==> R.expression(route.expression, req))
  }

  ghost function FirstRuleFrom(R: Reading, route: Route, from: nat, req: Request): (i: Option<nat>)
    requires from <= |route.rules|
    ensures i.Some? ==> from <= i.value < |route.rules|
    decreases |route.rules| - from
  {
    if from == |route.rules| then None
    else if RuleHolds(R, route.rules[from], req) then Some(from)
    else FirstRuleFrom(R, route, from + 1, req)
  }

  /** The first route that takes the request and has a rule for it, and that rule's index. */
  ghost function FirstRule(R: Reading, routes: seq<Route>, req: Request): (first: Option<(Route, nat)>)
    ensures first.Some? ==> first.value.0 in routes && first.value.1 < |first.value.0.rules|
  {
    if routes == [] then None
    else
      var i := if RouteTakes(R, routes[0], req) then FirstRuleFrom(R, routes[0], 0, req) else None;
      if i.Some? then Some((routes[0], i.value)) else FirstRule(R, routes[1..], req)
  }

  // ---------------------------------------------------------------- the flat list

  ghost predicate PathTestHolds(R: Reading, p: PathTest, path: string) {
    match p.kind
    case ExactPath => R.exact(p.value, path)
    case PrefixPath => R.prefix(p.value, path)
    case RegexPath => R.regex(p.value, path)
    case UnspecifiedPath => R.unspecified(p.value, path)
  }

  ghost predicate HeaderTestHolds(R: Reading, h: Header, req: Request) {
    exists i :: 0 <= i < |req.headers| && R.sameName(h.name, req.headers[i].name) && h.value == req.headers[i].value
  }

  ghost predicate TestHolds(R: Reading, t: Test, req: Request) {
    && R.host(t.hostnames, req.host)
    && (t.path.Some? ==> PathTestHolds(R, t.path.value, req.path))
    && (forall i :: 0 <= i < |t.headers| ==> HeaderTestHolds(R, t.headers[i], req))
    && (t.verbs != [] ==> exists i :: 0 <= i < |t.verbs| && R.verb(t.verbs[i], req.verb))
  }

  ghost function FirstEntry(R: Reading, entries: seq<RouteEntry>, req: Request): Option<RouteEntry> {
    if entries == [] then None
    else if TestHolds(R, entries[0].test, req) then Some(entries[0])
    else FirstEntry(R, entries[1..], req)
  }

  lemma {:induction false} FirstEntryAppend(R: Reading, a: seq<RouteEntry>, b: seq<RouteEntry>, req: Request)
    ensures FirstEntry(R, a + b, req) == if FirstEntry(R, a, req).Some? then FirstEntry(R, a, req) else FirstEntry(R, b, req)
  {
    if a == [] {
      assert a + b == b;
    } else {
      assert (a + b)[1..] == a[1..] + b;
      FirstEntryAppend(R, a[1..], b, req);
    }
  }

  lemma {:induction false} FirstEntryIs(R: Reading, entries: seq<RouteEntry>, req: Request)
    ensures FirstEntry(R, entries, req).Some? <==> exists i :: 0 <= i < |entries| && TestHolds(R, entries[i].test, req)
    ensures FirstEntry(R, entries, req).Some? ==>
      FirstEntry(R, entries, req).value in entries && TestHolds(R, FirstEntry(R, entries, req).value.test, req)
  {
    if entries != [] {
      FirstEntryIs(R, entries[1..], req);
      if TestHolds(R, entries[0].test, req) {
      } else if i :| 0 <= i < |entries| && TestHolds(R, entries[i].test, req) {
        assert entries[1..][i - 1] == entries[i];
      }
    }
  }

  // ---------------------------------------------------------------- one match

  ghost predicate ExactHeaders(m: RouteMatch) {
    forall i :: 0 <= i < |m.headers| ==> !m.headers[i].kind.HeaderRegex?
  }

  lemma TestOfMatch(R: Reading, route: Route, m: RouteMatch, req: Request)
    requires ExactHeaders(m)
    ensures TestHolds(R, TestOf(route, Some(m)), req) <==> R.host(route.hostnames, req.host) && MatchHolds(R, m, req)
  {
    var t := TestOf(route, Some(m));
    forall i | 0 <= i < |m.headers|
      ensures HeaderTestHolds(R, t.headers[i], req) <==> HeaderHolds(R, m.headers[i], req)
    {
    }
    if m.verb != "" {
      assert t.verbs[0] == m.verb;
    }
  }

  /** A reading in which everything but a header pattern or a routing expression matches. */
  function Permissive(): Reading {
    Reading((hs, h) => true, (v, p) => true, (v, p) => true, (v, p) => true, (v, p) => false, (v, p) => true,
            (v, p) => true, (a, b) => a == b, (e, q) => false)
  }

  /**
   The translator drops the type of a header match. A match keeps its meaning under every
   reading exactly when it has no pattern header.
   */
  lemma MatchKeepsMeaningIff(route: Route, m: RouteMatch)
    ensures (forall R: Reading, req: Request ::
               TestHolds(R, TestOf(route, Some(m)), req) <==> R.host(route.hostnames, req.host) && MatchHolds(R, m, req))
            <==> ExactHeaders(m)
  {
    if ExactHeaders(m) {
      forall R: Reading, req: Request
        ensures TestHolds(R, TestOf(route, Some(m)), req) <==> R.host(route.hostnames, req.host) && MatchHolds(R, m, req)
      {
        TestOfMatch(R, route, m, req);
      }
    } else {
      PermissiveAccepts(route, m);
      var R, req := Permissive(), LiteralRequest(m);
      var i :| 0 <= i < |m.headers| && m.headers[i].kind.HeaderRegex?;
      assert !HeaderHolds(R, m.headers[i], req);
      assert !MatchHolds(R, m, req);
    }
  }

  /** A request that carries the text of every header the match asks for. */
  function LiteralRequest(m: RouteMatch): Request {
    Request("", "", m.verb, HeaderTests(m.headers))
  }

  lemma PermissiveAccepts(route: Route, m: RouteMatch)
    ensures TestHolds(Permissive(), TestOf(route, Some(m)), LiteralRequest(m))
  {
    var t, req := TestOf(route, Some(m)), LiteralRequest(m);
    forall i | 0 <= i < |t.headers|
      ensures HeaderTestHolds(Permissive(), t.headers[i], req)
    {
      assert req.headers[i] == t.headers[i];
    }
    if m.verb != "" {
      assert Permissive().verb(t.verbs[0], req.verb);
    }
  }

  // ---------------------------------------------------------------- rules, routes, lists

  /** What the translator can carry over: no pattern headers and no routing expression. */
  ghost predicate Plain(route: Route) {
    && route.expression == ""
    && forall i, k :: 0 <= i < |route.rules| && 0 <= k < |route.rules[i].matches| ==> ExactHeaders(route.rules[i].matches[k])
  }

  lemma RuleEntriesHold(R: Reading, route: Route, i: nat, req: Request)
    requires Plain(route) && i < |route.rules|
    ensures (exists k :: 0 <= k < |RuleEntries(route, i)| && TestHolds(R, RuleEntries(route, i)[k].test, req))
            <==> R.host(route.hostnames, req.host) && RuleHolds(R, route.rules[i], req)
  {
    var rule, entries := route.rules[i], RuleEntries(route, i);
    if rule.matches == [] {
      assert entries[0].test == TestOf(route, None);
      assert TestHolds(R, entries[0].test, req) <==> R.host(route.hostnames, req.host);
    } else {
      forall k | 0 <= k < |rule.matches|
        ensures TestHolds(R, entries[k].test, req) <==> R.host(route.hostnames, req.host) && MatchHolds(R, rule.matches[k], req)
      {
        assert entries[k].test == TestOf(route, Some(rule.matches[k]));
        TestOfMatch(R, route, rule.matches[k], req);
      }
    }
  }

  lemma {:induction false} RouteEntriesFirst(R: Reading, route: Route, from: nat, req: Request)
    requires Plain(route) && from <= |route.rules|
    ensures var e := FirstEntry(R, RouteEntries(route, from), req);
      var i := if RouteTakes(R, route, req) then FirstRuleFrom(R, route, from, req) else None;
      (e.Some? <==> i.Some?) && (e.Some? ==> e.value in RuleEntries(route, i.value))
    decreases |route.rules| - from
  {
    if from < |route.rules| {
      RouteEntriesFirst(R, route, from + 1, req);
      FirstEntryAppend(R, RuleEntries(route, from), RouteEntries(route, from + 1), req);
      FirstEntryIs(R, RuleEntries(route, from), req);
      RuleEntriesHold(R, route, from, req);
    }
  }

  /**
   For every list of plain routes, every reading and every request: some entry of the flat list
   takes the request exactly when some rule does, and the first entry that does comes from the
   first such rule and carries its hosts and its action.
   */
  lemma {:induction false} FanOutKeepsMeaning(R: Reading, routes: seq<Route>, req: Request)
    requires forall i :: 0 <= i < |routes| ==> Plain(routes[i])
    ensures var e, r := FirstEntry(R, Flatten(routes), req), FirstRule(R, routes, req);
      && (e.Some? <==> r.Some?)
      && (e.Some? ==>
            var (route, i) := r.value;
            && e.value in RuleEntries(route, i)
            && e.value.test.hostnames == route.hostnames
            && e.value.action == ActionOf(route, route.rules[i]))
  {
    if routes != [] {
      FanOutKeepsMeaning(R, routes[1..], req);
      RouteEntriesFirst(R, routes[0], 0, req);
      FirstEntryAppend(R, RouteEntries(routes[0], 0), Flatten(routes[1..]), req);
    }
  }

  /** A routing expression is not carried over: a route with a rule keeps its meaning only without one. */
  lemma ExpressionIsDropped(route: Route)
    requires route.rules != [] && Plain(route.(expression := ""))
    ensures (forall R: Reading, req: Request ::
               FirstEntry(R, Flatten([route]), req).Some? <==> FirstRule(R, [route], req).Some?)
            <==> route.expression == ""
  {
    if route.expression == "" {
      assert Plain(route);
      forall R: Reading, req: Request
        ensures FirstEntry(R, Flatten([route]), req).Some? <==> FirstRule(R, [route], req).Some?
      {
        FanOutKeepsMeaning(R, [route], req);
      }
    } else {
      var ms := route.rules[0].matches;
      var R, req := Permissive(), if ms == [] then Request("", "", "", []) else LiteralRequest(ms[0]);
      assert !RouteTakes(R, route, req);
      assert FirstRule(R, [route], req).None?;
      var entries := Flatten([route]);
      assert entries[0] == RuleEntries(route, 0)[0];
      if ms != [] {
        PermissiveAccepts(route, ms[0]);
      }
      assert TestHolds(R, entries[0].test, req);
      assert FirstEntry(R, entries, req).Some?;
    }
  }
}
