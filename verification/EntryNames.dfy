/**
 The dataplane keeps route entries in a map from name to entry, so two entries of one name would
 become one. Entry names are distinct exactly when no two routes of one name have a rule at the
 same index that is named the same way.
 */
module EntryNames {
  import opened Wrappers
  import opened Strings
  import opened Snapshot
  import opened Dataplane
  import opened RouteTranslation

  lemma RuleNameInjective(r: string, i: nat, s: string, j: nat)
    requires r + "/rule-" + Digits(i) == s + "/rule-" + Digits(j)
    ensures r == s && i == j
  {
    var x, y := "rule-" + Digits(i), "rule-" + Digits(j);
    assert r + "/rule-" + Digits(i) == r + ['/'] + x;
    assert s + "/rule-" + Digits(j) == s + ['/'] + y;
    LastSeparatorUnique(r, x, s, y, '/');
    assert x[5..] == Digits(i) && y[5..] == Digits(j);
    DigitsInjective(i, j);
  }

  /** A name tells the route, the rule and the match it was made from, whatever the route is called. */
  lemma EntryNameInjective(r: string, i: nat, k: Option<nat>, s: string, j: nat, l: Option<nat>)
    requires EntryName(r, i, k) == EntryName(s, j, l)
    ensures r == s && i == j && k == l
  {
    var (a, x) := LastSegment(r, i, k);
    var (b, y) := LastSegment(s, j, l);
    LastSeparatorUnique(a, x, b, y, '/');
    if k.Some? && l.Some? {
      assert x[6..] == Digits(k.value) && y[6..] == Digits(l.value);
      DigitsInjective(k.value, l.value);
      RuleNameInjective(r, i, s, j);
    } else if k.None? && l.None? {
      assert EntryName(r, i, k) == r + "/rule-" + Digits(i);
      assert EntryName(s, j, l) == s + "/rule-" + Digits(j);
      RuleNameInjective(r, i, s, j);
    }
  }

  /** What stands before and after the last slash of a name. */
  function LastSegment(r: string, i: nat, k: Option<nat>): (parts: (string, string))
    ensures EntryName(r, i, k) == parts.0 + ['/'] + parts.1 && '/' !in parts.1
    ensures parts.1 == if k.Some? then "match-" + Digits(k.value) else "rule-" + Digits(i)
    ensures parts.1[0] == if k.Some? then 'm' else 'r'
    ensures k.Some? ==> parts.0 == r + "/rule-" + Digits(i)
  {
    if k.Some? then
      var p := (r + "/rule-" + Digits(i), "match-" + Digits(k.value));
      assert EntryName(r, i, k) == p.0 + ['/'] + p.1;
      p
    else
      var p := (r, "rule-" + Digits(i));
      assert EntryName(r, i, k) == p.0 + ['/'] + p.1;
      p
  }

  ghost predicate NamesDistinct(entries: seq<RouteEntry>) {
    forall i, j :: 0 <= i < j < |entries| ==> entries[i].name != entries[j].name
  }

  ghost predicate NamesDisjoint(a: seq<RouteEntry>, b: seq<RouteEntry>) {
    forall x, y :: x in a && y in b ==> x.name != y.name
  }

  lemma NamesDistinctAppend(a: seq<RouteEntry>, b: seq<RouteEntry>)
    ensures NamesDistinct(a + b) <==> NamesDistinct(a) && NamesDistinct(b) && NamesDisjoint(a, b)
  {
    var c := a + b;
    if NamesDistinct(c) {
      forall i, j | 0 <= i < j < |a|
        ensures a[i].name != a[j].name
      {
        assert c[i] == a[i] && c[j] == a[j];
      }
      forall i, j | 0 <= i < j < |b|
        ensures b[i].name != b[j].name
      {
        assert c[|a| + i] == b[i] && c[|a| + j] == b[j];
      }
      forall x, y | x in a && y in b
        ensures x.name != y.name
      {
        var i :| 0 <= i < |a| && a[i] == x;
        var j :| 0 <= j < |b| && b[j] == y;
        assert c[i] == x && c[|a| + j] == y;
      }
    }
  }

  // ---------------------------------------------------------------- one route

  /** Entries are numbered by their match only where a rule has several. */
  function Position(rule: Rule, k: nat): Option<nat> {
    if |rule.matches| > 1 then Some(k) else None
  }

  /** The rule and match that an entry of a route was made from. */
  lemma {:induction false} EntryOrigin(route: Route, from: nat, e: RouteEntry) returns (i: nat, k: nat)
    requires from <= |route.rules| && e in RouteEntries(route, from)
    ensures from <= i < |route.rules| && k < |MatchesOf(route.rules[i])|
    ensures e.name == EntryName(route.name, i, Position(route.rules[i], k))
    decreases |route.rules| - from
  {
    if e in RuleEntries(route, from) {
      i := from;
      k :| 0 <= k < |RuleEntries(route, from)| && RuleEntries(route, from)[k] == e;
    } else {
      i, k := EntryOrigin(route, from + 1, e);
    }
  }

  lemma {:induction false} EntryInRoute(route: Route, from: nat, i: nat, k: nat)
    requires from <= i < |route.rules| && k < |MatchesOf(route.rules[i])|
    ensures EntryOf(route, i, k) in RouteEntries(route, from)
    decreases |route.rules| - from
  {
    if i == from {
      assert RuleEntries(route, i)[k] == EntryOf(route, i, k);
    } else {
      EntryInRoute(route, from + 1, i, k);
    }
  }

  lemma {:induction false} RouteNamesDistinct(route: Route, from: nat)
    requires from <= |route.rules|
    ensures NamesDistinct(RouteEntries(route, from))
    decreases |route.rules| - from
  {
    if from < |route.rules| {
      var a, b := RuleEntries(route, from), RouteEntries(route, from + 1);
      RouteNamesDistinct(route, from + 1);
      forall k, l | 0 <= k < l < |a|
        ensures a[k].name != a[l].name
      {
        if a[k].name == a[l].name {
          EntryNameInjective(route.name, from, Some(k), route.name, from, Some(l));
        }
      }
      forall x, y | x in a && y in b
        ensures x.name != y.name
      {
        var i, l := EntryOrigin(route, from + 1, y);
        var k :| 0 <= k < |a| && a[k] == x;
        if x.name == y.name {
          EntryNameInjective(route.name, from, Position(route.rules[from], k), route.name, i, Position(route.rules[i], l));
        }
      }
      NamesDistinctAppend(a, b);
    }
  }

  // ---------------------------------------------------------------- two routes

  /** Routes of one name that name their i-th rule the same way. */
  predicate Clash(a: Route, b: Route) {
    a.name == b.name
    && exists i :: 0 <= i < |a.rules| && i < |b.rules| && (|a.rules[i].matches| > 1 <==> |b.rules[i].matches| > 1)
  }

  lemma SameNameClashes(a: Route, x: RouteEntry, b: Route, y: RouteEntry)
    requires x in RouteEntries(a, 0) && y in RouteEntries(b, 0) && x.name == y.name
    ensures Clash(a, b)
  {
    var i, k := EntryOrigin(a, 0, x);
    var j, l := EntryOrigin(b, 0, y);
    EntryNameInjective(a.name, i, Position(a.rules[i], k), b.name, j, Position(b.rules[j], l));
  }

  lemma ClashSharesName(a: Route, b: Route)
    requires Clash(a, b)
    ensures !NamesDisjoint(RouteEntries(a, 0), RouteEntries(b, 0))
  {
    var i :| 0 <= i < |a.rules| && i < |b.rules| && (|a.rules[i].matches| > 1 <==> |b.rules[i].matches| > 1);
    EntryInRoute(a, 0, i, 0);
    EntryInRoute(b, 0, i, 0);
    assert EntryOf(a, i, 0).name == EntryOf(b, i, 0).name;
  }

  lemma RoutesDisjointIff(a: Route, b: Route)
    ensures NamesDisjoint(RouteEntries(a, 0), RouteEntries(b, 0)) <==> !Clash(a, b)
  {
    if Clash(a, b) {
      ClashSharesName(a, b);
    }
    forall x, y | x in RouteEntries(a, 0) && y in RouteEntries(b, 0) && x.name == y.name
      ensures Clash(a, b)
    {
      SameNameClashes(a, x, b, y);
    }
  }

  // ---------------------------------------------------------------- the whole list

  lemma {:induction false} FlattenDisjointIff(a: Route, routes: seq<Route>)
    ensures NamesDisjoint(RouteEntries(a, 0), Flatten(routes)) <==> forall q :: 0 <= q < |routes| ==> !Clash(a, routes[q])
  {
    if routes != [] {
      RoutesDisjointIff(a, routes[0]);
      FlattenDisjointIff(a, routes[1..]);
      assert forall q :: 0 < q < |routes| ==> routes[q] == routes[1..][q - 1];
    }
  }

  ghost predicate NoClash(routes: seq<Route>) {
    forall p, q :: 0 <= p < q < |routes| ==> !Clash(routes[p], routes[q])
  }

  /** Entry names are pairwise distinct over the whole list exactly when no two routes clash. */
  lemma {:induction false} NamesDistinctIff(routes: seq<Route>)
    ensures NamesDistinct(Flatten(routes)) <==> NoClash(routes)
  {
    if routes != [] {
      var rest := routes[1..];
      RouteNamesDistinct(routes[0], 0);
      NamesDistinctAppend(RouteEntries(routes[0], 0), Flatten(rest));
      FlattenDisjointIff(routes[0], rest);
      NamesDistinctIff(rest);
      assert forall q :: 0 < q < |routes| ==> routes[q] == rest[q - 1];
      assert forall q :: 0 <= q < |rest| ==> rest[q] == routes[q + 1];
      assert NoClash(routes) <==> NoClash(rest) && forall q :: 0 <= q < |rest| ==> !Clash(routes[0], rest[q]);
    }
  }

  /** Routes with pairwise distinct names never clash. */
  lemma DistinctRoutesDistinctEntries(routes: seq<Route>)
    requires forall p, q :: 0 <= p < q < |routes| ==> routes[p].name != routes[q].name
    ensures NamesDistinct(Flatten(routes))
  {
    NamesDistinctIff(routes);
  }
}
