/**
 What the dataplane does with the entries it is sent. It files them by name, rebuilds its router
 from the table in whatever order the hash map yields, and gives a request to the first entry of
 that order that takes it. The router is built without the header tests.

 The translator sets no priority, so the router's stable sort by priority keeps that order.
 */
module DataplaneRouter {
  import opened Wrappers
  import opened Snapshot
  import opened Dataplane
  import opened RouteTranslation
  import opened RouteMeaning
  import opened EntryNames

  // ---------------------------------------------------------------- the route table

  function ByName(entries: seq<RouteEntry>): map<string, RouteEntry> {
    if entries == [] then map[]
    else
      var last := entries[|entries| - 1];
      ByName(entries[..|entries| - 1])[last.name := last]
  }

  lemma {:induction false} ByNameKeys(entries: seq<RouteEntry>, name: string)
    ensures name in ByName(entries) <==> exists i :: 0 <= i < |entries| && entries[i].name == name
  {
    if entries != [] {
      var rest := entries[..|entries| - 1];
      ByNameKeys(rest, name);
      assert entries == rest + [entries[|rest|]];
    }
  }

  lemma {:induction false} ByNameFinds(entries: seq<RouteEntry>, i: nat)
    requires i < |entries| && NamesDistinct(entries)
    ensures entries[i].name in ByName(entries) && ByName(entries)[entries[i].name] == entries[i]
  {
    if i < |entries| - 1 {
      ByNameFinds(entries[..|entries| - 1], i);
    }
  }

  /** A full update drops stale entries and files the new ones; what was there before is gone. */
  method ApplyFull(table: map<string, RouteEntry>, routes: seq<RouteEntry>) returns (next: map<string, RouteEntry>)
    ensures next == ByName(routes)
  {
    var keys := set i | 0 <= i < |routes| :: routes[i].name;
    next := map k | k in table && k in keys :: table[k];
    for i := 0 to |routes|
      invariant forall n :: n in ByName(routes[..i]) ==> n in next && next[n] == ByName(routes[..i])[n]
      invariant next.Keys <= keys
    {
      assert routes[..i + 1][..i] == routes[..i];
      next := next[routes[i].name := routes[i]];
    }
    assert routes[..|routes|] == routes;
    forall n | n in keys
      ensures n in ByName(routes)
    {
      ByNameKeys(routes, n);
    }
  }

  // ---------------------------------------------------------------- the router

  /** An order in which the hash map may yield its keys. */
  ghost predicate Yields(table: map<string, RouteEntry>, order: seq<string>) {
    && (forall n :: n in order <==> n in table)
    && (forall i, j :: 0 <= i < j < |order| ==> order[i] != order[j])
  }

  function Rebuild(table: map<string, RouteEntry>, order: seq<string>): (routes: seq<RouteEntry>)
    requires forall n :: n in order ==> n in table
    ensures |routes| == |order| && forall i :: 0 <= i < |order| ==> routes[i] == table[order[i]]
  {
    seq(|order|, i requires 0 <= i < |order| => table[order[i]])
  }

  /**
   The router's test: an empty path value, or a pattern that does not compile, puts no
   constraint on the path, and an unspecified path kind is read as exact.
   */
  ghost predicate Takes(R: Reading, compiles: string -> bool, e: RouteEntry, req: Request) {
    var t := e.test;
    && R.host(t.hostnames, req.host)
    && (t.path.Some? && t.path.value.value != "" ==>
          match t.path.value.kind
          case PrefixPath => R.prefix(t.path.value.value, req.path)
          case RegexPath => compiles(t.path.value.value) ==> R.regex(t.path.value.value, req.path)
          case _ => R.exact(t.path.value.value, req.path))
    && (t.verbs != [] ==> exists i :: 0 <= i < |t.verbs| && R.verb(t.verbs[i], req.verb))
  }

  ghost function Pick(R: Reading, compiles: string -> bool, routes: seq<RouteEntry>, req: Request): (e: Option<RouteEntry>)
    ensures e.Some? ==> e.value in routes && Takes(R, compiles, e.value, req)
    ensures e.None? ==> forall x :: x in routes ==> !Takes(R, compiles, x, req)
  {
    if routes == [] then None
    else if Takes(R, compiles, routes[0], req) then Some(routes[0])
    else Pick(R, compiles, routes[1..], req)
  }

  /** No request is taken by two entries. */
  ghost predicate TakenOnce(R: Reading, compiles: string -> bool, entries: seq<RouteEntry>, req: Request) {
    forall i, j :: 0 <= i < j < |entries| ==> !(Takes(R, compiles, entries[i], req) && Takes(R, compiles, entries[j], req))
  }

  lemma PickOfTable(R: Reading, compiles: string -> bool, entries: seq<RouteEntry>, order: seq<string>, req: Request)
    requires NamesDistinct(entries) && Yields(ByName(entries), order) && TakenOnce(R, compiles, entries, req)
    ensures Pick(R, compiles, Rebuild(ByName(entries), order), req) == Pick(R, compiles, entries, req)
  {
    var table := ByName(entries);
    var routes := Rebuild(table, order);
    var p, q := Pick(R, compiles, routes, req), Pick(R, compiles, entries, req);
    if p.Some? {
      var i :| 0 <= i < |routes| && routes[i] == p.value;
      InTable(entries, order[i]);
    }
    if q.Some? {
      var j :| 0 <= j < |entries| && entries[j] == q.value;
      ByNameFinds(entries, j);
      assert entries[j].name in order;
      var i :| 0 <= i < |order| && order[i] == entries[j].name;
      assert routes[i] == entries[j];
    }
  }

  lemma InTable(entries: seq<RouteEntry>, name: string)
    requires NamesDistinct(entries) && name in ByName(entries)
    ensures ByName(entries)[name] in entries
  {
    ByNameKeys(entries, name);
    var i :| 0 <= i < |entries| && entries[i].name == name;
    ByNameFinds(entries, i);
  }

  /** An order that puts the j-th entry first. */
  function OrderFrom(entries: seq<RouteEntry>, j: nat): (order: seq<string>)
    requires j < |entries|
    ensures |order| == |entries| && order[0] == entries[j].name
    ensures forall i :: 0 < i <= j ==> order[i] == entries[i - 1].name
    ensures forall i :: j < i < |entries| ==> order[i] == entries[i].name
  {
    seq(|entries|, i requires 0 <= i < |entries| =>
      if i == 0 then entries[j].name else if i <= j then entries[i - 1].name else entries[i].name)
  }

  lemma OrderFromYields(entries: seq<RouteEntry>, j: nat)
    requires j < |entries| && NamesDistinct(entries)
    ensures Yields(ByName(entries), OrderFrom(entries, j))
  {
    var order := OrderFrom(entries, j);
    forall n
      ensures n in order <==> n in ByName(entries)
    {
      ByNameKeys(entries, n);
      NamesInOrder(entries, j, n);
    }
  }

  lemma NamesInOrder(entries: seq<RouteEntry>, j: nat, n: string)
    requires j < |entries|
    ensures n in OrderFrom(entries, j) <==> exists i :: 0 <= i < |entries| && entries[i].name == n
  {
    var order := OrderFrom(entries, j);
    if i :| 0 <= i < |entries| && entries[i].name == n {
      assert order[if i == j then 0 else if i < j then i + 1 else i] == n;
    }
  }

  /**
   The dataplane gives a request to the first entry of the list, whatever the order of its hash
   map, exactly when no two entries take that request.
   */
  lemma RouterFollowsListIff(R: Reading, compiles: string -> bool, entries: seq<RouteEntry>, req: Request)
    requires NamesDistinct(entries)
    ensures (forall order :: Yields(ByName(entries), order) ==>
               Pick(R, compiles, Rebuild(ByName(entries), order), req) == Pick(R, compiles, entries, req))
            <==> TakenOnce(R, compiles, entries, req)
  {
    if TakenOnce(R, compiles, entries, req) {
      forall order | Yields(ByName(entries), order)
        ensures Pick(R, compiles, Rebuild(ByName(entries), order), req) == Pick(R, compiles, entries, req)
      {
        PickOfTable(R, compiles, entries, order, req);
      }
    } else {
      var i, j :| 0 <= i < j < |entries| && Takes(R, compiles, entries[i], req) && Takes(R, compiles, entries[j], req);
      PickBefore(R, compiles, entries, i, req);
      OrderFromYields(entries, j);
      ByNameFinds(entries, j);
      var routes := Rebuild(ByName(entries), OrderFrom(entries, j));
      assert routes[0] == entries[j];
      assert Pick(R, compiles, routes, req) == Some(entries[j]);
    }
  }

  lemma {:induction false} PickBefore(R: Reading, compiles: string -> bool, entries: seq<RouteEntry>, i: nat, req: Request)
    requires i < |entries| && Takes(R, compiles, entries[i], req)
    ensures exists k :: 0 <= k <= i && Pick(R, compiles, entries, req) == Some(entries[k])
  {
    if Takes(R, compiles, entries[0], req) {
      assert Pick(R, compiles, entries, req) == Some(entries[0]);
    } else {
      PickBefore(R, compiles, entries[1..], i - 1, req);
      var k :| 0 <= k <= i - 1 && Pick(R, compiles, entries[1..], req) == Some(entries[1..][k]);
      assert Pick(R, compiles, entries, req) == Some(entries[k + 1]);
    }
  }

  // ---------------------------------------------------------------- entries as written

  /** No header test, and a path test the router reads as the translator wrote it. */
  ghost predicate AsWritten(compiles: string -> bool, t: Test) {
    && t.headers == []
    && (t.path.Some? ==>
          && t.path.value.value != ""
          && t.path.value.kind != UnspecifiedPath
          && (t.path.value.kind == RegexPath ==> compiles(t.path.value.value)))
  }

  /** A reading that accepts everything except, when told so, the paths. */
  function PathsAs(exact: bool, others: bool): Reading {
    Reading((hs, h) => true, (v, p) => exact, (v, p) => others, (v, p) => others, (v, p) => others, (v, p) => others,
            (v, p) => true, (a, b) => a == b, (e, q) => true)
  }

  /** The router applies an entry's test under every reading exactly when it is as written. */
  lemma RouterReadsTestIff(compiles: string -> bool, e: RouteEntry)
    ensures (forall R: Reading, req: Request :: Takes(R, compiles, e, req) <==> TestHolds(R, e.test, req))
            <==> AsWritten(compiles, e.test)
  {
    var t := e.test;
    if !AsWritten(compiles, t) {
      var req := Request("", "", if t.verbs == [] then "" else t.verbs[0], []);
      var yes, no, odd := PathsAs(true, true), PathsAs(false, false), PathsAs(true, false);
      assert t.verbs != [] ==> yes.verb(t.verbs[0], req.verb) && no.verb(t.verbs[0], req.verb) && odd.verb(t.verbs[0], req.verb);
      if t.headers != [] {
        assert !HeaderTestHolds(yes, t.headers[0], req);
        assert Takes(yes, compiles, e, req) && !TestHolds(yes, t, req);
      } else if t.path.value.value != "" && t.path.value.kind == UnspecifiedPath {
        assert Takes(odd, compiles, e, req) && !TestHolds(odd, t, req);
      } else {
        assert Takes(no, compiles, e, req) && !TestHolds(no, t, req);
      }
    }
  }

  lemma {:induction false} PickAsWritten(R: Reading, compiles: string -> bool, entries: seq<RouteEntry>, req: Request)
    requires forall i :: 0 <= i < |entries| ==> AsWritten(compiles, entries[i].test)
    ensures Pick(R, compiles, entries, req) == FirstEntry(R, entries, req)
  {
    if entries != [] {
      RouterReadsTestIff(compiles, entries[0]);
      PickAsWritten(R, compiles, entries[1..], req);
    }
  }

  /**
   End to end: for plain routes that do not clash, whose entries are as written and never
   compete for the request, the running dataplane performs the action of the first rule that
   matches, for every order of its hash map and whatever it was configured with before.
   */
  lemma DataplaneKeepsMeaning(R: Reading, compiles: string -> bool, routes: seq<Route>, order: seq<string>, req: Request)
    requires forall i :: 0 <= i < |routes| ==> Plain(routes[i])
    requires NoClash(routes)
    requires forall i :: 0 <= i < |Flatten(routes)| ==> AsWritten(compiles, Flatten(routes)[i].test)
    requires TakenOnce(R, compiles, Flatten(routes), req)
    requires Yields(ByName(Flatten(routes)), order)
    ensures var e, r := Pick(R, compiles, Rebuild(ByName(Flatten(routes)), order), req), FirstRule(R, routes, req);
      && (e.Some? <==> r.Some?)
      && (e.Some? ==> var (route, i) := r.value; e.value.action == ActionOf(route, route.rules[i]))
  {
    NamesDistinctIff(routes);
    PickOfTable(R, compiles, Flatten(routes), order, req);
    PickAsWritten(R, compiles, Flatten(routes), req);
    FanOutKeepsMeaning(R, routes, req);
  }
}
