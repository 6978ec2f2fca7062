/**
 An Ingress becomes routes, one per HTTP rule, and backends, one per path plus one for the default
 backend, tied together by generated names.
 */
module IngressTranslation {
  import opened Wrappers
  import opened Strings

  datatype Service = Service(name: string, portNumber: int, portName: string)

  /** A backend that is not a service has no service reference. */
  datatype IngressBackend = IngressBackend(service: Option<Service>)

  datatype IngressRule = IngressRule(host: string, http: Option<seq<IngressBackend>>)

  datatype Ingress = Ingress(name: string, namespace: string, rules: seq<IngressRule>, defaultBackend: Option<IngressBackend>)

  datatype ServiceRef = ServiceRef(name: string, namespace: string, port: int)

  datatype ProxyBackend = ProxyBackend(name: string, namespace: string, service: Option<ServiceRef>)

  /** The backend reference of each path of the rule, in order. */
  datatype ProxyRoute = ProxyRoute(name: string, hostnames: seq<string>, backendRefs: seq<string>)

  datatype Translation = Translation(routes: seq<ProxyRoute>, backends: seq<ProxyBackend>)

  // ---------------------------------------------------------------- names

  function RouteName(ingress: string, rule: nat): string {
    ingress + "-route-" + Digits(rule)
  }

  function BackendName(ingress: string, rule: nat, path: nat): string {
    ingress + "-backend-" + Digits(rule) + "-" + Digits(path)
  }

  function DefaultName(ingress: string): string {
    ingress + "-backend-default"
  }

  /** A name tells the Ingress, the rule and the path it was made from. */
  lemma BackendNameInjective(a: string, r: nat, p: nat, b: string, s: nat, q: nat)
    requires BackendName(a, r, p) == BackendName(b, s, q)
    ensures a == b && r == s && p == q
  {
    var x, y := a + "-backend-" + Digits(r), b + "-backend-" + Digits(s);
    assert BackendName(a, r, p) == x + ['-'] + Digits(p);
    assert BackendName(b, s, q) == y + ['-'] + Digits(q);
    LastSeparatorUnique(x, Digits(p), y, Digits(q), '-');
    DigitsInjective(p, q);
    RulePart(a, r, b, s);
  }

  lemma RulePart(a: string, r: nat, b: string, s: nat)
    requires a + "-backend-" + Digits(r) == b + "-backend-" + Digits(s)
    ensures a == b && r == s
  {
    var x, y := a + "-backend", b + "-backend";
    assert a + "-backend-" + Digits(r) == x + ['-'] + Digits(r);
    assert b + "-backend-" + Digits(s) == y + ['-'] + Digits(s);
    LastSeparatorUnique(x, Digits(r), y, Digits(s), '-');
    DigitsInjective(r, s);
    assert x[..|x| - 8] == a && y[..|y| - 8] == b;
  }

  /** The default name is never the name of a path, of this or any other Ingress. */
  lemma DefaultNameIsApart(a: string, b: string, r: nat, p: nat)
    ensures DefaultName(a) != BackendName(b, r, p)
  {
    var x, y := a + "-backend", b + "-backend-" + Digits(r);
    assert DefaultName(a) == x + ['-'] + "default";
    assert BackendName(b, r, p) == y + ['-'] + Digits(p);
    var word := "default";
    assert word[0] == 'd' && word[0] in word && 'd' !in Digits(p);
    if DefaultName(a) == BackendName(b, r, p) {
      LastSeparatorUnique(x, word, y, Digits(p), '-');
    }
  }

  // ---------------------------------------------------------------- what is generated

  /** The port by number, else by name through the resolver, else 80. */
  function ServicePort(s: Service, resolve: (string, string) -> Option<int>): int {
    if s.portNumber != 0 then s.portNumber
    else if s.portName != "" && resolve(s.name, s.portName).Some? then resolve(s.name, s.portName).value
    else 80
  }

  function BackendOf(ing: Ingress, b: IngressBackend, name: string, resolve: (string, string) -> Option<int>): ProxyBackend {
    ProxyBackend(name, ing.namespace,
                 if b.service.None? then None
                 else Some(ServiceRef(b.service.value.name, ing.namespace, ServicePort(b.service.value, resolve))))
  }

  predicate HasPath(ing: Ingress, r: int, p: int) {
    0 <= r < |ing.rules| && ing.rules[r].http.Some? && 0 <= p < |ing.rules[r].http.value|
  }

  function PathBackend(ing: Ingress, r: nat, p: nat, resolve: (string, string) -> Option<int>): ProxyBackend
    requires HasPath(ing, r, p)
  {
    BackendOf(ing, ing.rules[r].http.value[p], BackendName(ing.name, r, p), resolve)
  }

  function PathCount(ing: Ingress, rules: nat): nat
    requires rules <= |ing.rules|
  {
    if rules == 0 then 0
    else PathCount(ing, rules - 1) + PathsOf(ing, rules - 1)
  }

  function RouteOf(ing: Ingress, r: nat): ProxyRoute
    requires r < |ing.rules| && ing.rules[r].http.Some?
  {
    var n := |ing.rules[r].http.value|;
    ProxyRoute(RouteName(ing.name, r), if ing.rules[r].host != "" then [ing.rules[r].host] else [],
               seq(n, p requires 0 <= p < n => BackendName(ing.name, r, p)))
  }

  function RoutesOf(ing: Ingress, rules: nat): seq<ProxyRoute>
    requires rules <= |ing.rules|
  {
    if rules == 0 then []
    else RoutesOf(ing, rules - 1) + if ing.rules[rules - 1].http.Some? then [RouteOf(ing, rules - 1)] else []
  }

  // ---------------------------------------------------------------- the backend table

  function PathsOf(ing: Ingress, r: nat): nat
    requires r < |ing.rules|
  {
    if ing.rules[r].http.Some? then |ing.rules[r].http.value| else 0
  }

  /** The table when the rules before `r` and the first `p` paths of `r` have been visited. */
  function Table(ing: Ingress, r: nat, p: nat, resolve: (string, string) -> Option<int>): map<string, ProxyBackend>
    requires r <= |ing.rules| && (p > 0 ==> HasPath(ing, r, p - 1))
    decreases r, p
  {
    if p > 0 then Table(ing, r, p - 1, resolve)[BackendName(ing.name, r, p - 1) := PathBackend(ing, r, p - 1, resolve)]
    else if r > 0 then Table(ing, r - 1, PathsOf(ing, r - 1), resolve)
    else map[]
  }

  /** Every name in the table was made from a path visited before. */
  lemma {:induction false} TableOrigin(ing: Ingress, r: nat, p: nat, resolve: (string, string) -> Option<int>, n: string)
    returns (r': nat, p': nat)
    requires r <= |ing.rules| && (p > 0 ==> HasPath(ing, r, p - 1)) && n in Table(ing, r, p, resolve)
    ensures HasPath(ing, r', p') && (r' < r || (r' == r && p' < p)) && n == BackendName(ing.name, r', p')
    ensures Table(ing, r, p, resolve)[n] == PathBackend(ing, r', p', resolve)
    decreases r, p
  {
    if p > 0 {
      if n == BackendName(ing.name, r, p - 1) {
        r', p' := r, p - 1;
      } else {
        r', p' := TableOrigin(ing, r, p - 1, resolve, n);
      }
    } else {
      r', p' := TableOrigin(ing, r - 1, PathsOf(ing, r - 1), resolve, n);
    }
  }

  lemma NameIsNew(ing: Ingress, r: nat, p: nat, resolve: (string, string) -> Option<int>)
    requires r <= |ing.rules| && (p > 0 ==> HasPath(ing, r, p - 1))
    ensures BackendName(ing.name, r, p) !in Table(ing, r, p, resolve)
  {
    if BackendName(ing.name, r, p) in Table(ing, r, p, resolve) {
      var r', p' := TableOrigin(ing, r, p, resolve, BackendName(ing.name, r, p));
      BackendNameInjective(ing.name, r, p, ing.name, r', p');
    }
  }

  /** No path is dropped: the names are all different. */
  lemma {:induction false} TableHolds(ing: Ingress, r: nat, p: nat, resolve: (string, string) -> Option<int>, r': nat, p': nat)
    requires r <= |ing.rules| && (p > 0 ==> HasPath(ing, r, p - 1))
    requires HasPath(ing, r', p') && (r' < r || (r' == r && p' < p))
    ensures BackendName(ing.name, r', p') in Table(ing, r, p, resolve)
    ensures Table(ing, r, p, resolve)[BackendName(ing.name, r', p')] == PathBackend(ing, r', p', resolve)
    decreases r, p
  {
    if p > 0 {
      if r' < r || p' < p - 1 {
        TableHolds(ing, r, p - 1, resolve, r', p');
        NameIsNew(ing, r, p - 1, resolve);
      }
    } else {
      TableHolds(ing, r - 1, PathsOf(ing, r - 1), resolve, r', p');
    }
  }

  lemma {:induction false} TableSize(ing: Ingress, r: nat, p: nat, resolve: (string, string) -> Option<int>)
    requires r <= |ing.rules| && (p > 0 ==> HasPath(ing, r, p - 1))
    ensures |Table(ing, r, p, resolve)| == PathCount(ing, r) + p
    decreases r, p
  {
    if p > 0 {
      TableSize(ing, r, p - 1, resolve);
      NameIsNew(ing, r, p - 1, resolve);
    } else if r > 0 {
      TableSize(ing, r - 1, PathsOf(ing, r - 1), resolve);
    }
  }

  method CollectBackends(ing: Ingress, resolve: (string, string) -> Option<int>)
    returns (routes: seq<ProxyRoute>, table: map<string, ProxyBackend>)
    ensures routes == RoutesOf(ing, |ing.rules|)
    ensures table == Table(ing, |ing.rules|, 0, resolve)
  {
    routes, table := [], map[];
    for r := 0 to |ing.rules|
      invariant routes == RoutesOf(ing, r)
      invariant table == Table(ing, r, 0, resolve)
    {
      var rule := ing.rules[r];
      if rule.http.None? {
        continue;
      }
      var route := TranslateRoute(ing, r);
      routes := routes + [route];
      for p := 0 to |rule.http.value|
        invariant table == Table(ing, r, p, resolve)
      {
        var name := BackendName(ing.name, r, p);
        NameIsNew(ing, r, p, resolve);
        if name !in table {
          table := table[name := BackendOf(ing, rule.http.value[p], name, resolve)];
        }
      }
    }
  }

  method TranslateRoute(ing: Ingress, r: nat) returns (route: ProxyRoute)
    requires r < |ing.rules| && ing.rules[r].http.Some?
    ensures route == RouteOf(ing, r)
  {
    var hostnames := [];
    if ing.rules[r].host != "" {
      hostnames := [ing.rules[r].host];
    }
    var refs: seq<string> := [];
    for p := 0 to |ing.rules[r].http.value|
      invariant |refs| == p && forall k :: 0 <= k < p ==> refs[k] == BackendName(ing.name, r, k)
    {
      refs := refs + [BackendName(ing.name, r, p)];
    }
    route := ProxyRoute(RouteName(ing.name, r), hostnames, refs);
  }

  // ---------------------------------------------------------------- the translation

  ghost predicate NamesDistinct(backends: seq<ProxyBackend>) {
    forall i, j :: 0 <= i < j < |backends| ==> backends[i].name != backends[j].name
  }

  /** The values of a table of backends kept by name, in any order. */
  method ListBackends(table: map<string, ProxyBackend>) returns (backends: seq<ProxyBackend>)
    requires forall n :: n in table ==> table[n].name == n
    ensures |backends| == |table| && NamesDistinct(backends)
    ensures forall b :: b in backends <==> b.name in table && table[b.name] == b
  {
    backends := [];
    var todo := table.Keys;
    while todo != {}
      invariant todo <= table.Keys && |backends| + |todo| == |table.Keys| && NamesDistinct(backends)
      invariant forall b :: b in backends <==> b.name in table && table[b.name] == b && b.name !in todo
    {
      var n :| n in todo;
      assert forall i :: 0 <= i < |backends| ==> backends[i] in backends;
      backends := backends + [table[n]];
      todo := todo - {n};
    }
  }

  /**
   Every reference a rule carries for its own path names exactly one generated backend, which
   carries that path's service.
   */
  ghost predicate Closes(ing: Ingress, t: Translation, resolve: (string, string) -> Option<int>) {
    && t.routes == RoutesOf(ing, |ing.rules|)
    && NamesDistinct(t.backends)
    && |t.backends| == PathCount(ing, |ing.rules|) + (if ing.defaultBackend.Some? then 1 else 0)
    && (forall r: nat, p: nat :: HasPath(ing, r, p) ==> PathBackend(ing, r, p, resolve) in t.backends)
    && (ing.defaultBackend.Some? ==> BackendOf(ing, ing.defaultBackend.value, DefaultName(ing.name), resolve) in t.backends)
  }

  /** Whatever the order of the table, the generated objects close. */
  method Translate(ing: Ingress, resolve: (string, string) -> Option<int>) returns (t: Translation)
    ensures Closes(ing, t, resolve)
  {
    var routes, table := CollectBackends(ing, resolve);
    TableNames(ing, resolve);
    TableSize(ing, |ing.rules|, 0, resolve);
    var backends := ListBackends(table);
    forall r: nat, p: nat | HasPath(ing, r, p)
      ensures PathBackend(ing, r, p, resolve) in backends
    {
      TableHolds(ing, |ing.rules|, 0, resolve, r, p);
    }
    if ing.defaultBackend.Some? {
      DefaultNotInTable(ing, resolve);
      if DefaultName(ing.name) !in table {
        backends := AppendBackend(backends, BackendOf(ing, ing.defaultBackend.value, DefaultName(ing.name), resolve));
      }
    }
    t := Translation(routes, backends);
  }

  method AppendBackend(backends: seq<ProxyBackend>, b: ProxyBackend) returns (more: seq<ProxyBackend>)
    requires NamesDistinct(backends) && forall c :: c in backends ==> c.name != b.name
    ensures NamesDistinct(more) && |more| == |backends| + 1
    ensures forall c :: c in more <==> c in backends || c == b
  {
    assert forall i :: 0 <= i < |backends| ==> backends[i] in backends;
    more := backends + [b];
  }

  lemma TableNames(ing: Ingress, resolve: (string, string) -> Option<int>)
    ensures var table := Table(ing, |ing.rules|, 0, resolve); forall n :: n in table ==> table[n].name == n
  {
    forall n | n in Table(ing, |ing.rules|, 0, resolve)
      ensures Table(ing, |ing.rules|, 0, resolve)[n].name == n
    {
      var _, _ := TableOrigin(ing, |ing.rules|, 0, resolve, n);
    }
  }

  lemma DefaultNotInTable(ing: Ingress, resolve: (string, string) -> Option<int>)
    ensures DefaultName(ing.name) !in Table(ing, |ing.rules|, 0, resolve)
  {
    if DefaultName(ing.name) in Table(ing, |ing.rules|, 0, resolve) {
      var r, p := TableOrigin(ing, |ing.rules|, 0, resolve, DefaultName(ing.name));
      DefaultNameIsApart(ing.name, ing.name, r, p);
    }
  }

  // ---------------------------------------------------------------- closure

  /** How many of the first rules have an HTTP section. */
  function HttpRules(ing: Ingress, rules: nat): nat
    requires rules <= |ing.rules|
  {
    if rules == 0 then 0 else HttpRules(ing, rules - 1) + if ing.rules[rules - 1].http.Some? then 1 else 0
  }

  lemma {:induction false} RoutesCount(ing: Ingress, rules: nat)
    requires rules <= |ing.rules|
    ensures |RoutesOf(ing, rules)| == HttpRules(ing, rules)
  {
    if rules > 0 {
      RoutesCount(ing, rules - 1);
    }
  }

  lemma {:induction false} RouteOrigin(ing: Ingress, rules: nat, k: nat) returns (r: nat)
    requires rules <= |ing.rules| && k < |RoutesOf(ing, rules)|
    ensures r < rules && ing.rules[r].http.Some? && RoutesOf(ing, rules)[k] == RouteOf(ing, r)
    ensures HttpRules(ing, r) == k
  {
    if k < |RoutesOf(ing, rules - 1)| {
      r := RouteOrigin(ing, rules - 1, k);
    } else {
      r := rules - 1;
      RoutesCount(ing, r);
    }
  }

  /** The k-th route is made from the k-th rule with an HTTP section: its host, and one reference per path. */
  lemma RouteMeans(ing: Ingress, t: Translation, resolve: (string, string) -> Option<int>, k: nat) returns (r: nat)
    requires Closes(ing, t, resolve) && k < |t.routes|
    ensures |t.routes| == HttpRules(ing, |ing.rules|)
    ensures r < |ing.rules| && ing.rules[r].http.Some? && HttpRules(ing, r) == k
    ensures t.routes[k].name == ing.name + "-route-" + Digits(r)
    ensures t.routes[k].hostnames == if ing.rules[r].host == "" then [] else [ing.rules[r].host]
    ensures |t.routes[k].backendRefs| == |ing.rules[r].http.value|
    ensures forall p :: 0 <= p < |t.routes[k].backendRefs| ==>
      t.routes[k].backendRefs[p] == ing.name + "-backend-" + Digits(r) + "-" + Digits(p)
  {
    RoutesCount(ing, |ing.rules|);
    r := RouteOrigin(ing, |ing.rules|, k);
  }

  /**
   A generated backend serves an Ingress backend: it lies in the namespace of the Ingress, has a
   service iff that has one, and then its name, and as port the number if there is one, else the
   resolved named port, else 80.
   */
  ghost predicate ServesBackend(b: ProxyBackend, ing: Ingress, want: IngressBackend, resolve: (string, string) -> Option<int>) {
    && b.namespace == ing.namespace
    && b.service.Some? == want.service.Some?
    && (want.service.Some? ==>
          var s := want.service.value; var got := b.service.value;
          && got.name == s.name && got.namespace == ing.namespace
          && (s.portNumber != 0 ==> got.port == s.portNumber)
          && (s.portNumber == 0 && s.portName != "" && resolve(s.name, s.portName).Some? ==>
                got.port == resolve(s.name, s.portName).value)
          && (s.portNumber == 0 && (s.portName == "" || resolve(s.name, s.portName).None?) ==> got.port == 80))
  }

  /** The name of this backend belongs to it alone. */
  ghost predicate OnlyOne(t: Translation, b: ProxyBackend) {
    b in t.backends && forall c :: c in t.backends && c.name == b.name ==> c == b
  }

  lemma NamedOnce(t: Translation, b: ProxyBackend)
    requires NamesDistinct(t.backends) && b in t.backends
    ensures OnlyOne(t, b)
  {
    forall c | c in t.backends && c.name == b.name
      ensures c == b
    {
      var i :| 0 <= i < |t.backends| && t.backends[i] == b;
      var j :| 0 <= j < |t.backends| && t.backends[j] == c;
    }
  }

  /**
   Every reference of every generated route names one backend and only one, and that serves what
   this very path of this very rule points at.
   */
  lemma ReferencesClose(ing: Ingress, t: Translation, resolve: (string, string) -> Option<int>, k: nat, p: nat)
    returns (r: nat, b: ProxyBackend)
    requires Closes(ing, t, resolve) && k < |t.routes| && p < |t.routes[k].backendRefs|
    ensures HasPath(ing, r, p) && t.routes[k] == RouteOf(ing, r) && HttpRules(ing, r) == k
    ensures b.name == t.routes[k].backendRefs[p] && OnlyOne(t, b)
    ensures ServesBackend(b, ing, ing.rules[r].http.value[p], resolve)
  {
    r := RouteOrigin(ing, |ing.rules|, k);
    b := PathBackend(ing, r, p, resolve);
    assert HasPath(ing, r, p) && b in t.backends;
    NamedOnce(t, b);
  }

  /** The default backend is there once, under its name, and serves what the Ingress points at. */
  lemma DefaultCloses(ing: Ingress, t: Translation, resolve: (string, string) -> Option<int>) returns (b: ProxyBackend)
    requires Closes(ing, t, resolve) && ing.defaultBackend.Some?
    ensures b.name == ing.name + "-backend-default" && OnlyOne(t, b)
    ensures ServesBackend(b, ing, ing.defaultBackend.value, resolve)
  {
    b := BackendOf(ing, ing.defaultBackend.value, DefaultName(ing.name), resolve);
    NamedOnce(t, b);
  }

  /** Two Ingresses of one namespace never generate the same backend name. */
  lemma IngressesAreApart(a: Ingress, r: nat, p: nat, b: Ingress, s: nat, q: nat)
    requires a.name != b.name
    ensures BackendName(a.name, r, p) != BackendName(b.name, s, q)
    ensures DefaultName(a.name) != BackendName(b.name, s, q)
    ensures DefaultName(a.name) != DefaultName(b.name)
  {
    if BackendName(a.name, r, p) == BackendName(b.name, s, q) {
      BackendNameInjective(a.name, r, p, b.name, s, q);
    }
    DefaultNameIsApart(a.name, b.name, s, q);
    var x, y := DefaultName(a.name), DefaultName(b.name);
    assert x[..|x| - 16] == a.name && y[..|y| - 16] == b.name;
  }
}
