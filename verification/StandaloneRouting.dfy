/**
 The whole way from the configuration file to the running router, in the terms of the file: which
 configured route serves a request, whatever the order of the dataplane's hash map.
 */
module StandaloneRouting {
  import opened Wrappers
  import opened Snapshot
  import opened Dataplane
  import opened StandaloneConfig
  import opened RouteTranslation
  import opened RouteMeaning
  import opened Converter
  import opened Translator
  import opened Pipeline
  import opened DataplaneRouter

  /** A route whose conditions all reach the router: no headers, no expression, a usable path. */
  predicate Ordinary(compiles: string -> bool, r: RouteConfig) {
    && r.headers == [] && r.expression == ""
    && (r.path.Some? ==> r.path.value.value != "" && (r.path.value.kind == "RegularExpression" ==> compiles(r.path.value.value)))
  }

  lemma RouterReadsConfig(R: Reading, compiles: string -> bool, c: RouteConfig, r: Route, req: Request)
    requires RouteConverts(c, r) && Ordinary(compiles, c)
    ensures Takes(R, compiles, EntryOf(r, 0, 0), req) <==> ConfigHolds(R, c, req)
  {
    RouterReadsTestIff(compiles, EntryOf(r, 0, 0));
    EntryReadsConfig(R, c, r, req);
  }

  /** The index of the first configured route that matches. */
  ghost function FirstConfigured(R: Reading, routes: seq<RouteConfig>, req: Request): (i: Option<nat>)
    ensures i.Some? ==> i.value < |routes| && ConfigHolds(R, routes[i.value], req)
    ensures i.Some? ==> forall j :: 0 <= j < i.value ==> !ConfigHolds(R, routes[j], req)
    ensures i.None? ==> forall j :: 0 <= j < |routes| ==> !ConfigHolds(R, routes[j], req)
  {
    if routes == [] then None
    else if ConfigHolds(R, routes[0], req) then Some(0)
    else
      var i := FirstConfigured(R, routes[1..], req);
      assert forall j :: 0 < j < |routes| ==> routes[j] == routes[1..][j - 1];
      if i.Some? then Some(i.value + 1) else None
  }

  lemma {:induction false} PickAt(R: Reading, compiles: string -> bool, entries: seq<RouteEntry>, req: Request, i: nat)
    requires i < |entries| && Takes(R, compiles, entries[i], req)
    requires forall j :: 0 <= j < i ==> !Takes(R, compiles, entries[j], req)
    ensures Pick(R, compiles, entries, req) == Some(entries[i])
  {
    if i > 0 {
      PickAt(R, compiles, entries[1..], req, i - 1);
    }
  }

  /** The entry that the file's first matching route became. */
  ghost function Wanted(R: Reading, c: Config, entries: seq<RouteEntry>, req: Request): Option<RouteEntry>
    requires |entries| == |c.routes|
  {
    var i := FirstConfigured(R, c.routes, req);
    if i.Some? then Some(entries[i.value]) else None
  }

  lemma ListServesFirstRoute(R: Reading, compiles: string -> bool, c: Config, entries: seq<RouteEntry>, req: Request)
    requires |entries| == |c.routes|
    requires forall k :: 0 <= k < |entries| ==> (Takes(R, compiles, entries[k], req) <==> ConfigHolds(R, c.routes[k], req))
    ensures Pick(R, compiles, entries, req) == Wanted(R, c, entries, req)
  {
    var i := FirstConfigured(R, c.routes, req);
    if i.Some? {
      PickAt(R, compiles, entries, req, i.value);
    }
  }

  /**
   For ordinary routes with distinct names, the running dataplane serves a request by the first
   route of the file that matches, under every order of its hash map, exactly when no two routes
   of the file match that request.
   */
  lemma NodeServesFirstRouteIff(R: Reading, compiles: string -> bool, c: Config, scan: string -> Option<int>,
                                s: ConfigSnapshot, req: Request)
    requires SnapshotOf(c, scan, s) && forall k :: 0 <= k < |c.routes| ==> Ordinary(compiles, c.routes[k])
    requires forall p, q :: 0 <= p < q < |c.routes| ==> c.routes[p].name != c.routes[q].name
    ensures |Translation(s).routes| == |c.routes|
    ensures (forall order :: Yields(ByName(Translation(s).routes), order) ==>
               Pick(R, compiles, Rebuild(ByName(Translation(s).routes), order), req) == Wanted(R, c, Translation(s).routes, req))
            <==> forall p, q :: 0 <= p < q < |c.routes| ==> !(ConfigHolds(R, c.routes[p], req) && ConfigHolds(R, c.routes[q], req))
  {
    var entries := Translation(s).routes;
    FlattenLength(s.routes);
    forall k | 0 <= k < |c.routes|
      ensures Takes(R, compiles, entries[k], req) <==> ConfigHolds(R, c.routes[k], req)
    {
      EntryOfRoute(c, scan, s, k);
      RouterReadsConfig(R, compiles, c.routes[k], s.routes[k], req);
    }
    EntriesDistinctIff(c, scan, s);
    RouterFollowsListIff(R, compiles, entries, req);
    ListServesFirstRoute(R, compiles, c, entries, req);
  }
}
