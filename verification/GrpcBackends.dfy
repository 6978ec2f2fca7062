/**
 A GRPCRoute becomes a route whose backend references carry generated names, and a reconciler
 builds one backend per generated name. The references close only if the names tell the
 backends apart.
 */
module GrpcBackends {
  import opened Wrappers
  import opened Strings
  import opened Snapshot

  datatype GrpcRef = GrpcRef(
    name: string, namespace: Option<string>, port: Option<int32>, kind: Option<string>, weight: Option<int32>)

  datatype GrpcRoute = GrpcRoute(namespace: string, rules: seq<seq<GrpcRef>>)

  /** What a reference points at once the defaults are filled in. */
  datatype Target = Target(namespace: string, service: string, port: int32)

  datatype ProxyRef = ProxyRef(name: string, namespace: string, weight: int32)

  datatype ProxyBackend = ProxyBackend(name: string, namespace: string, service: string, port: int32)

  function TargetOf(routeNamespace: string, r: GrpcRef): Target {
    Target(if r.namespace.Some? then r.namespace.value else routeNamespace, r.name,
           if r.port.Some? then r.port.value else 80)
  }

  /** `<namespace>-<service>-<port>` */
  function BackendName(t: Target): string {
    t.namespace + "-" + t.service + "-" + Decimal(t.port)
  }

  predicate IsService(r: GrpcRef) {
    r.kind.None? || r.kind.value == "Service"
  }

  // ---------------------------------------------------------------- when names collide

  function Abs(n: int): nat {
    if n < 0 then -n else n
  }

  /** A service name with the sign of a negative port behind it. */
  function Signed(service: string, port: int): string {
    if port < 0 then service + "-" else service
  }

  lemma DecimalParts(service: string, port: int)
    ensures service + "-" + Decimal(port) == Signed(service, port) + ['-'] + Digits(Abs(port))
  {
    if port < 0 {
      assert service + "-" + ("-" + Digits(-port)) == (service + "-") + ['-'] + Digits(-port);
    }
  }

  lemma PartsIff(s: string, p: int, t: string, q: int)
    ensures s + "-" + Decimal(p) == t + "-" + Decimal(q) <==> Signed(s, p) == Signed(t, q) && Abs(p) == Abs(q)
  {
    DecimalParts(s, p);
    DecimalParts(t, q);
    if s + "-" + Decimal(p) == t + "-" + Decimal(q) {
      LastSeparatorUnique(Signed(s, p), Digits(Abs(p)), Signed(t, q), Digits(Abs(q)), '-');
      DigitsInjective(Abs(p), Abs(q));
    }
  }

  lemma BehindPrefixIff(prefix: string, a: string, b: string)
    ensures prefix + a == prefix + b <==> a == b
  {
    assert (prefix + a)[|prefix|..] == a && (prefix + b)[|prefix|..] == b;
  }

  /**
   Within one namespace two names are equal exactly when service and port are, or when one port
   is the negative of the other and its service name lacks only a final dash.
   */
  lemma SameNamespaceNamesIff(ns: string, s: string, p: int32, t: string, q: int32)
    ensures BackendName(Target(ns, s, p)) == BackendName(Target(ns, t, q)) <==>
            (s == t && p == q) || (p < 0 && p + q == 0 && t == s + "-") || (q < 0 && p + q == 0 && s == t + "-")
  {
    var a, b := s + "-" + Decimal(p), t + "-" + Decimal(q);
    assert BackendName(Target(ns, s, p)) == (ns + "-") + a;
    assert BackendName(Target(ns, t, q)) == (ns + "-") + b;
    BehindPrefixIff(ns + "-", a, b);
    PartsIff(s, p, t, q);
    assert (s + "-")[..|s|] == s && (t + "-")[..|t|] == t;
  }

  /** Across namespaces the dash is ambiguous. */
  lemma NamesCollideAcrossNamespaces()
    ensures BackendName(Target("a", "b-c", 80)) == BackendName(Target("a-b", "c", 80))
  {
    var port := Decimal(80);
    assert "a" + "-" + "b-c" + "-" + port == "a-b" + "-" + "c" + "-" + port;
  }

  // ---------------------------------------------------------------- translation

  function Concat(rules: seq<seq<GrpcRef>>): seq<GrpcRef> {
    if rules == [] then [] else Concat(rules[..|rules| - 1]) + rules[|rules| - 1]
  }

  function ProxyRefOf(routeNamespace: string, r: GrpcRef): ProxyRef {
    var t := TargetOf(routeNamespace, r);
    ProxyRef(BackendName(t), t.namespace, if r.weight.Some? then r.weight.value else 1)
  }

  /** A rule without backends is an error; otherwise its references are translated in order. */
  method TranslateRule(routeNamespace: string, refs: seq<GrpcRef>) returns (result: Result<seq<ProxyRef>, string>)
    ensures refs == [] <==> result.Err?
    ensures result.Ok? ==> |result.value| == |refs| && forall i :: 0 <= i < |refs| ==> result.value[i] == ProxyRefOf(routeNamespace, refs[i])
    ensures result.Ok? ==> forall i :: 0 <= i < |refs| ==>
      && result.value[i].namespace == (if refs[i].namespace.Some? then refs[i].namespace.value else routeNamespace)
      && result.value[i].weight == (if refs[i].weight.Some? then refs[i].weight.value else 1)
      && result.value[i].name == result.value[i].namespace + "-" + refs[i].name + "-"
                                 + Decimal(if refs[i].port.Some? then refs[i].port.value else 80)
  {
    if |refs| == 0 {
      return Err("gRPC rule has no backend refs");
    }
    var out: seq<ProxyRef> := [];
    for i := 0 to |refs|
      invariant |out| == i && forall j :: 0 <= j < i ==> out[j] == ProxyRefOf(routeNamespace, refs[j])
    {
      var namespace := routeNamespace;
      if refs[i].namespace.Some? {
        namespace := refs[i].namespace.value;
      }
      var port: int32 := 80;
      if refs[i].port.Some? {
        port := refs[i].port.value;
      }
      var weight: int32 := 1;
      if refs[i].weight.Some? {
        weight := refs[i].weight.value;
      }
      out := out + [ProxyRef(BackendName(Target(namespace, refs[i].name, port)), namespace, weight)];
    }
    return Ok(out);
  }

  // ---------------------------------------------------------------- the reconciler

  /** References by generated name; a later one of the same name replaces an earlier one. */
  function Collected(ns: string, refs: seq<GrpcRef>): map<string, GrpcRef> {
    if refs == [] then map[]
    else
      var rest, last := Collected(ns, refs[..|refs| - 1]), refs[|refs| - 1];
      if IsService(last) then rest[BackendName(TargetOf(ns, last)) := last] else rest
  }

  function BackendFor(ns: string, key: string, r: GrpcRef): ProxyBackend {
    var t := TargetOf(ns, r);
    ProxyBackend(key, t.namespace, t.service, t.port)
  }

  lemma {:induction false} CollectedAppend(ns: string, a: seq<GrpcRef>, r: GrpcRef)
    ensures Collected(ns, a + [r]) == if IsService(r) then Collected(ns, a)[BackendName(TargetOf(ns, r)) := r] else Collected(ns, a)
  {
    assert (a + [r])[..|a + [r]| - 1] == a;
  }

  method CollectRule(ns: string, ghost before: seq<GrpcRef>, was: map<string, GrpcRef>, rule: seq<GrpcRef>) returns (refs: map<string, GrpcRef>)
    requires was == Collected(ns, before)
    ensures refs == Collected(ns, before + rule)
  {
    refs := was;
    assert before + rule[..0] == before;
    for j := 0 to |rule|
      invariant refs == Collected(ns, before + rule[..j])
    {
      var r := rule[j];
      CollectedAppend(ns, before + rule[..j], r);
      assert before + rule[..j + 1] == (before + rule[..j]) + [r];
      if r.kind.None? || r.kind.value == "Service" {
        var key := BackendName(TargetOf(ns, r));
        refs := refs[key := r];
      }
    }
    assert rule[..|rule|] == rule;
  }

  /** Only service references are collected, each under its own name. */
  lemma {:induction false} CollectedOrigin(ns: string, refs: seq<GrpcRef>, key: string)
    requires key in Collected(ns, refs)
    ensures var r := Collected(ns, refs)[key];
      r in refs && (r.kind.None? || r.kind == Some("Service")) && key == BackendName(TargetOf(ns, r))
  {
    var n := |refs| - 1;
    if key in Collected(ns, refs[..n]) {
      CollectedOrigin(ns, refs[..n], key);
    }
  }

  method CollectRefs(route: GrpcRoute) returns (refs: map<string, GrpcRef>)
    ensures refs == Collected(route.namespace, Concat(route.rules))
    ensures forall key :: key in refs ==> refs[key].kind.None? || refs[key].kind == Some("Service")
  {
    forall key | key in Collected(route.namespace, Concat(route.rules))
      ensures var r := Collected(route.namespace, Concat(route.rules))[key]; r.kind.None? || r.kind == Some("Service")
    {
      CollectedOrigin(route.namespace, Concat(route.rules), key);
    }
    refs := map[];
    for i := 0 to |route.rules|
      invariant refs == Collected(route.namespace, Concat(route.rules[..i]))
    {
      refs := CollectRule(route.namespace, Concat(route.rules[..i]), refs, route.rules[i]);
      assert route.rules[..i + 1][..i] == route.rules[..i];
    }
    assert route.rules[..|route.rules|] == route.rules;
  }

  /**
   Builds a backend per collected name, in any order, and stops at the first service that does
   not exist or the first object that cannot be read or written. On success every collected name
   has its backend; either way no other backend changed.
   */
  method ReconcileBackends(
    route: GrpcRoute, services: set<(string, string)>, failing: set<(string, string)>, existing: map<(string, string), ProxyBackend>)
    returns (ok: bool, backends: map<(string, string), ProxyBackend>)
    ensures ok ==> forall key :: key in Collected(route.namespace, Concat(route.rules)) ==>
      Has(backends, BackendFor(route.namespace, key, Collected(route.namespace, Concat(route.rules))[key]))
    ensures forall id :: id in existing && id !in Ids(route) ==> id in backends && backends[id] == existing[id]
    ensures ok <==> forall key :: key in Collected(route.namespace, Concat(route.rules)) ==>
      Possible(route.namespace, key, Collected(route.namespace, Concat(route.rules))[key], services, failing)
    ensures forall id :: id in backends ==> (id in existing && backends[id] == existing[id]) || Built(route, backends[id], id)
  {
    backends := existing;
    var refs := CollectRefs(route);
    var ns := route.namespace;
    var todo := refs.Keys;
    while todo != {}
      invariant todo <= refs.Keys
      invariant forall key :: key in refs && key !in todo ==> Has(backends, BackendFor(ns, key, refs[key])) && Possible(ns, key, refs[key], services, failing)
      invariant forall id :: id in existing && id !in Ids(route) ==> id in backends && backends[id] == existing[id]
      invariant forall id :: id in backends ==> (id in existing && backends[id] == existing[id]) || Built(route, backends[id], id)
    {
      var key :| key in todo;
      todo := todo - {key};
      if (TargetOf(ns, refs[key]).namespace, refs[key].name) !in services {
        assert !Possible(ns, key, refs[key], services, failing);
        return false, backends;
      }
      var b := BackendFor(ns, key, refs[key]);
      if (b.namespace, b.name) in failing {
        assert !Possible(ns, key, refs[key], services, failing);
        return false, backends;
      }
      assert (b.namespace, b.name) in Ids(route);
      backends := backends[(b.namespace, b.name) := b];
    }
    return true, backends;
  }

  /** The backend of a collected name, under its own id. */
  ghost predicate Built(route: GrpcRoute, b: ProxyBackend, id: (string, string)) {
    var refs := Collected(route.namespace, Concat(route.rules));
    b.name in refs && b == BackendFor(route.namespace, b.name, refs[b.name]) && id == (b.namespace, b.name)
  }

  predicate Has(backends: map<(string, string), ProxyBackend>, b: ProxyBackend) {
    (b.namespace, b.name) in backends && backends[(b.namespace, b.name)] == b
  }

  /** The service exists, and its backend object can be read and written. */
  predicate Possible(ns: string, key: string, r: GrpcRef, services: set<(string, string)>, failing: set<(string, string)>) {
    (TargetOf(ns, r).namespace, r.name) in services && (TargetOf(ns, r).namespace, key) !in failing
  }

  /** The objects a reconcile may write. */
  function Ids(route: GrpcRoute): set<(string, string)> {
    var refs := Collected(route.namespace, Concat(route.rules));
    set key | key in refs :: (TargetOf(route.namespace, refs[key]).namespace, key)
  }

  // ---------------------------------------------------------------- closure

  /** The reference names a backend that is built, in its namespace, for its service and port. */
  ghost predicate Resolves(ns: string, refs: seq<GrpcRef>, r: GrpcRef) {
    var key, t := BackendName(TargetOf(ns, r)), TargetOf(ns, r);
    key in Collected(ns, refs) && BackendFor(ns, key, Collected(ns, refs)[key]) == ProxyBackend(key, t.namespace, t.service, t.port)
  }

  lemma {:induction false} CollectedIsLast(ns: string, refs: seq<GrpcRef>, i: nat)
    requires i < |refs| && IsService(refs[i])
    ensures var key := BackendName(TargetOf(ns, refs[i]));
      && key in Collected(ns, refs)
      && exists j :: i <= j < |refs| && IsService(refs[j]) && BackendName(TargetOf(ns, refs[j])) == key && Collected(ns, refs)[key] == refs[j]
  {
    var n := |refs| - 1;
    var key := BackendName(TargetOf(ns, refs[i]));
    if IsService(refs[n]) && BackendName(TargetOf(ns, refs[n])) == key {
      assert Collected(ns, refs)[key] == refs[n];
    } else {
      CollectedIsLast(ns, refs[..n], i);
      var j :| i <= j < |refs[..n]| && IsService(refs[..n][j]) && BackendName(TargetOf(ns, refs[..n][j])) == key && Collected(ns, refs[..n])[key] == refs[..n][j];
      assert refs[j] == refs[..n][j];
    }
  }

  /** No two service references share a generated name and differ in what they point at. */
  ghost predicate NamesTellApart(ns: string, refs: seq<GrpcRef>) {
    forall i, j :: 0 <= i < |refs| && 0 <= j < |refs| && IsService(refs[i]) && IsService(refs[j])
                   && BackendName(TargetOf(ns, refs[i])) == BackendName(TargetOf(ns, refs[j]))
                   ==> TargetOf(ns, refs[i]) == TargetOf(ns, refs[j])
  }

  /** Whatever other kinds are among them, every service reference resolves exactly when the generated names tell them apart. */
  lemma AllResolveIff(ns: string, refs: seq<GrpcRef>)
    ensures (forall i :: 0 <= i < |refs| && IsService(refs[i]) ==> Resolves(ns, refs, refs[i])) <==> NamesTellApart(ns, refs)
  {
    forall i | 0 <= i < |refs| && IsService(refs[i])
      ensures NamesTellApart(ns, refs) ==> Resolves(ns, refs, refs[i])
    {
      CollectedIsLast(ns, refs, i);
    }
    if forall i :: 0 <= i < |refs| && IsService(refs[i]) ==> Resolves(ns, refs, refs[i]) {
      forall i, j | 0 <= i < |refs| && 0 <= j < |refs| && IsService(refs[i]) && IsService(refs[j])
                    && BackendName(TargetOf(ns, refs[i])) == BackendName(TargetOf(ns, refs[j]))
        ensures TargetOf(ns, refs[i]) == TargetOf(ns, refs[j])
      {
        assert Resolves(ns, refs, refs[i]) && Resolves(ns, refs, refs[j]);
      }
    }
  }

  /** Service references into one namespace, with ordinary ports. */
  ghost predicate OneNamespace(ns: string, refs: seq<GrpcRef>) {
    && (forall i :: 0 <= i < |refs| && IsService(refs[i]) ==> TargetOf(ns, refs[i]).port >= 0)
    && forall i, j :: 0 <= i < |refs| && 0 <= j < |refs| && IsService(refs[i]) && IsService(refs[j]) ==>
        TargetOf(ns, refs[i]).namespace == TargetOf(ns, refs[j]).namespace
  }

  /** Their names always tell them apart, so they all resolve. */
  lemma OneNamespaceResolves(ns: string, refs: seq<GrpcRef>)
    requires OneNamespace(ns, refs)
    ensures NamesTellApart(ns, refs)
    ensures forall i :: 0 <= i < |refs| && IsService(refs[i]) ==> Resolves(ns, refs, refs[i])
  {
    forall k, l | 0 <= k < |refs| && 0 <= l < |refs| && IsService(refs[k]) && IsService(refs[l])
                  && BackendName(TargetOf(ns, refs[k])) == BackendName(TargetOf(ns, refs[l]))
      ensures TargetOf(ns, refs[k]) == TargetOf(ns, refs[l])
    {
      var a, b := TargetOf(ns, refs[k]), TargetOf(ns, refs[l]);
      SameNamespaceNamesIff(a.namespace, a.service, a.port, b.service, b.port);
    }
    AllResolveIff(ns, refs);
  }

  // ---------------------------------------------------------------- one reconcile

  method TranslateRoute(route: GrpcRoute) returns (result: Result<seq<seq<ProxyRef>>, string>)
    ensures result.Ok? <==> forall i :: 0 <= i < |route.rules| ==> route.rules[i] != []
    ensures result.Ok? ==> |result.value| == |route.rules| && forall i :: 0 <= i < |route.rules| ==>
      Translates(route.namespace, route.rules[i], result.value[i])
  {
    var rules: seq<seq<ProxyRef>> := [];
    for i := 0 to |route.rules|
      invariant |rules| == i
      invariant forall k :: 0 <= k < i ==> route.rules[k] != [] && Translates(route.namespace, route.rules[k], rules[k])
    {
      var rule := TranslateRule(route.namespace, route.rules[i]);
      if rule.Err? {
        return Err(rule.error);
      }
      rules := rules + [rule.value];
    }
    return Ok(rules);
  }

  ghost predicate Translates(ns: string, refs: seq<GrpcRef>, out: seq<ProxyRef>) {
    |out| == |refs| && forall j :: 0 <= j < |refs| ==> out[j] == ProxyRefOf(ns, refs[j])
  }

  lemma {:induction false} ConcatIndex(rules: seq<seq<GrpcRef>>, i: nat, j: nat) returns (k: nat)
    requires i < |rules| && j < |rules[i]|
    ensures k < |Concat(rules)| && Concat(rules)[k] == rules[i][j]
  {
    var n := |rules| - 1;
    if i < n {
      k := ConcatIndex(rules[..n], i, j);
    } else {
      k := |Concat(rules[..n])| + j;
    }
  }

  /** The object that a translated reference names is there, for the service and port of its source. */
  ghost predicate Found(backends: map<(string, string), ProxyBackend>, out: ProxyRef, ns: string, r: GrpcRef) {
    var id := (out.namespace, out.name);
    id in backends && backends[id].service == r.name && backends[id].port == if r.port.Some? then r.port.value else 80
  }

  ghost predicate AllFound(backends: map<(string, string), ProxyBackend>, out: seq<ProxyRef>, ns: string, refs: seq<GrpcRef>) {
    |out| == |refs| && forall j :: 0 <= j < |refs| && (refs[j].kind.None? || refs[j].kind == Some("Service")) ==> Found(backends, out[j], ns, refs[j])
  }

  /**
   Translates the references and builds the backends. When both succeed and the generated names
   tell the service references apart, each translated service reference is found among the
   backends, with its own service and port.
   */
  method Reconcile(
    route: GrpcRoute, services: set<(string, string)>, failing: set<(string, string)>, existing: map<(string, string), ProxyBackend>)
    returns (ok: bool, rules: seq<seq<ProxyRef>>, backends: map<(string, string), ProxyBackend>)
    ensures ok ==> |rules| == |route.rules| && forall i :: 0 <= i < |rules| ==> Translates(route.namespace, route.rules[i], rules[i])
    ensures ok && NamesTellApart(route.namespace, Concat(route.rules)) ==>
      forall i :: 0 <= i < |rules| ==> AllFound(backends, rules[i], route.namespace, route.rules[i])
    ensures ok <==>
      && (forall i :: 0 <= i < |route.rules| ==> route.rules[i] != [])
      && forall key :: key in Collected(route.namespace, Concat(route.rules)) ==>
          Possible(route.namespace, key, Collected(route.namespace, Concat(route.rules))[key], services, failing)
    ensures forall id :: id in existing && id !in Ids(route) ==> id in backends && backends[id] == existing[id]
  {
    var result := TranslateRoute(route);
    if result.Err? {
      return false, [], existing;
    }
    rules := result.value;
    ok, backends := ReconcileBackends(route, services, failing, existing);
    if ok {
      ReferencesFound(route, rules, backends);
    }
  }

  lemma ReferencesFound(route: GrpcRoute, rules: seq<seq<ProxyRef>>, backends: map<(string, string), ProxyBackend>)
    requires |rules| == |route.rules| && forall i :: 0 <= i < |rules| ==> Translates(route.namespace, route.rules[i], rules[i])
    requires forall key :: key in Collected(route.namespace, Concat(route.rules)) ==>
      Has(backends, BackendFor(route.namespace, key, Collected(route.namespace, Concat(route.rules))[key]))
    ensures NamesTellApart(route.namespace, Concat(route.rules)) ==>
      forall i :: 0 <= i < |rules| ==> AllFound(backends, rules[i], route.namespace, route.rules[i])
  {
    var ns, refs := route.namespace, Concat(route.rules);
    if NamesTellApart(ns, refs) {
      AllResolveIff(ns, refs);
      forall i | 0 <= i < |rules|
        ensures AllFound(backends, rules[i], ns, route.rules[i])
      {
        assert Translates(ns, route.rules[i], rules[i]);
        forall j | 0 <= j < |rules[i]| && IsService(route.rules[i][j])
          ensures Found(backends, rules[i][j], ns, route.rules[i][j])
        {
          var k := ConcatIndex(route.rules, i, j);
          assert Resolves(ns, refs, refs[k]);
        }
      }
    }
  }
}
