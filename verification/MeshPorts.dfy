/** The ports that the mesh intercepts, collected from the mesh-enabled services of a snapshot. */
module MeshPorts {
  import opened Wrappers
  import opened Snapshot

  datatype Service = Service(meshEnabled: bool, ports: seq<int32>)

  /** A port that some mesh-enabled service asks for, after Go's wrapping conversion. */
  ghost predicate Wanted(services: seq<Service>, p: uint32) {
    p != 0 && exists s, k :: 0 <= s < |services| && services[s].meshEnabled
                             && 0 <= k < |services[s].ports| && Uint32(services[s].ports[k]) == p
  }

  ghost predicate Increasing(ports: seq<uint32>) {
    forall i, j :: 0 <= i < j < |ports| ==> ports[i] < ports[j]
  }

  ghost predicate Distinct(ports: seq<uint32>) {
    forall i, j :: 0 <= i < j < |ports| ==> ports[i] != ports[j]
  }

  /** The ports wanted by the services before `s` and by the first `k` ports of `s`. */
  ghost predicate Seen(services: seq<Service>, s: nat, k: nat, p: uint32) {
    Wanted(services[..if s <= |services| then s else |services|], p)
    || (s < |services| && services[s].meshEnabled && p != 0
        && exists j :: 0 <= j < k && j < |services[s].ports| && Uint32(services[s].ports[j]) == p)
  }

  method CollectPorts(services: seq<Service>) returns (ports: seq<uint32>)
    ensures Distinct(ports) && forall p :: p in ports <==> Wanted(services, p)
  {
    ports := [];
    var portSet: set<uint32> := {};
    for s := 0 to |services|
      invariant Distinct(ports)
      invariant forall p :: p in ports <==> p in portSet
      invariant forall p :: p in ports <==> Seen(services, s, 0, p)
    {
      assert services[..s + 1] == services[..s] + [services[s]];
      if !services[s].meshEnabled {
        SeenSkip(services, s);
        continue;
      }
      for k := 0 to |services[s].ports|
        invariant Distinct(ports)
        invariant forall p :: p in ports <==> p in portSet
        invariant forall p :: p in ports <==> Seen(services, s, k, p)
      {
        var p := Uint32(services[s].ports[k]);
        ghost var before := ports;
        if p > 0 && p !in portSet {
          portSet := portSet + {p};
          ports := ports + [p];
        }
        SeenPort(services, s, k);
        assert forall q :: q in ports <==> q in before || (q == p && p != 0);
      }
      SeenService(services, s);
    }
    assert services[..|services|] == services;
  }

  lemma SeenPort(services: seq<Service>, s: nat, k: nat)
    requires s < |services| && services[s].meshEnabled && k < |services[s].ports|
    ensures forall q :: Seen(services, s, k + 1, q) <==>
      Seen(services, s, k, q) || (q != 0 && q == Uint32(services[s].ports[k]))
  {
  }

  lemma WantedUpTo(services: seq<Service>, s: nat, q: uint32)
    requires s < |services|
    ensures Wanted(services[..s + 1], q) <==>
      Wanted(services[..s], q)
      || (q != 0 && services[s].meshEnabled && exists k :: 0 <= k < |services[s].ports| && Uint32(services[s].ports[k]) == q)
  {
    var a, b := services[..s], services[..s + 1];
    assert forall i :: 0 <= i < s ==> a[i] == b[i];
    assert b[s] == services[s];
  }

  lemma SeenSkip(services: seq<Service>, s: nat)
    requires s < |services| && !services[s].meshEnabled
    ensures forall q :: Seen(services, s + 1, 0, q) <==> Seen(services, s, 0, q)
  {
    forall q {
      WantedUpTo(services, s, q);
    }
  }

  lemma SeenService(services: seq<Service>, s: nat)
    requires s < |services| && services[s].meshEnabled
    ensures forall q :: Seen(services, s + 1, 0, q) <==> Seen(services, s, |services[s].ports|, q)
  {
    forall q {
      WantedUpTo(services, s, q);
    }
  }

  // ---------------------------------------------------------------- sorting

  method InsertPort(sorted: seq<uint32>, p: uint32) returns (more: seq<uint32>)
    requires Increasing(sorted) && p !in sorted
    ensures Increasing(more) && forall q :: q in more <==> q in sorted || q == p
  {
    var k := 0;
    while k < |sorted| && sorted[k] < p
      invariant 0 <= k <= |sorted|
      invariant forall j :: 0 <= j < k ==> sorted[j] < p
    {
      k := k + 1;
    }
    assert k < |sorted| ==> sorted[k] in sorted;
    InsertedAt(sorted, k, p);
    more := sorted[..k] + [p] + sorted[k..];
  }

  lemma InsertedAt(sorted: seq<uint32>, k: nat, p: uint32)
    requires Increasing(sorted) && k <= |sorted| && (k < |sorted| ==> p < sorted[k])
    requires forall j :: 0 <= j < k ==> sorted[j] < p
    ensures var more := sorted[..k] + [p] + sorted[k..];
      Increasing(more) && forall q :: q in more <==> q in sorted || q == p
  {
    var more := sorted[..k] + [p] + sorted[k..];
    forall i, j | 0 <= i < j < |more|
      ensures more[i] < more[j]
    {
      assert i < k ==> more[i] == sorted[i];
      assert i > k ==> more[i] == sorted[i - 1];
      assert j < k ==> more[j] == sorted[j];
      assert j > k ==> more[j] == sorted[j - 1];
    }
    InsertedMembers(sorted, k, p);
  }

  lemma InsertedMembers(sorted: seq<uint32>, k: nat, p: uint32)
    requires k <= |sorted|
    ensures forall q :: q in sorted[..k] + [p] + sorted[k..] <==> q in sorted || q == p
  {
    assert sorted == sorted[..k] + sorted[k..];
  }

  method SortPorts(ports: seq<uint32>) returns (sorted: seq<uint32>)
    requires Distinct(ports)
    ensures Increasing(sorted) && forall p :: p in sorted <==> p in ports
  {
    sorted := [];
    for i := 0 to |ports|
      invariant Increasing(sorted)
      invariant forall p :: p in sorted <==> p in ports[..i]
    {
      assert ports[i] !in ports[..i];
      sorted := InsertPort(sorted, ports[i]);
      assert ports[..i + 1] == ports[..i] + [ports[i]];
    }
    assert ports[..|ports|] == ports;
  }

  /** The workload identity: SPIFFE id, trust domain, and the PEM texts. */
  datatype MeshTls = MeshTls(spiffeId: string, trustDomain: string, caCert: string, cert: string, key: string)

  datatype MeshConfig = MeshConfig(enabled: bool, identity: MeshTls, interceptPorts: seq<uint32>, mtlsMode: string)

  /** Without a TLS section the identity fields stay empty. */
  function IdentityOf(tls: Option<MeshTls>): MeshTls {
    if tls.Some? then tls.value else MeshTls("", "", "", "", "")
  }

  /** What a mesh configuration of these services is: it says everything about the result. */
  ghost predicate MeshOf(services: seq<Service>, tls: Option<MeshTls>, mc: MeshConfig) {
    && Increasing(mc.interceptPorts)
    && (forall p :: p in mc.interceptPorts <==> Wanted(services, p))
    && (mc.enabled <==> mc.interceptPorts != [])
    && mc.mtlsMode == (if mc.enabled then "permissive" else "")
    && mc.identity == IdentityOf(tls)
  }

  /** The intercepted ports written out: some mesh-enabled service has the number that wraps to the port. */
  lemma InterceptsIff(services: seq<Service>, tls: Option<MeshTls>, mc: MeshConfig, p: uint32)
    requires MeshOf(services, tls, mc)
    ensures p in mc.interceptPorts <==> p != 0 && exists s, k ::
      && 0 <= s < |services| && 0 <= k < |services[s].ports| && services[s].meshEnabled
      && services[s].ports[k] == if p >= 0x8000_0000 then p - 0x1_0000_0000 else p
  {
  }

  method TranslateMeshConfig(services: seq<Service>, tls: Option<MeshTls>) returns (mc: MeshConfig)
    ensures MeshOf(services, tls, mc)
    ensures mc.identity == if tls.Some? then tls.value else MeshTls("", "", "", "", "")
    ensures mc.mtlsMode == if mc.interceptPorts == [] then "" else "permissive"
  {
    var ports := CollectPorts(services);
    var enabled := |ports| > 0;
    var sorted := SortPorts(ports);
    assert enabled ==> ports[0] in sorted;
    assert sorted != [] ==> sorted[0] in ports;
    var identity := MeshTls("", "", "", "", "");
    if tls.Some? {
      identity := tls.value;
    }
    mc := MeshConfig(enabled, identity, sorted, "");
    if mc.enabled && mc.mtlsMode == "" {
      mc := mc.(mtlsMode := "permissive");
    }
  }

  // ---------------------------------------------------------------- canonical

  lemma SomeMember(a: seq<uint32>)
    ensures a != [] ==> exists p :: p in a
  {
    if a != [] {
      assert a[0] in a;
    }
  }

  lemma {:induction false} IncreasingUnique(a: seq<uint32>, b: seq<uint32>)
    requires Increasing(a) && Increasing(b) && forall p :: p in a <==> p in b
    ensures a == b
  {
    SomeMember(a);
    SomeMember(b);
    if a != [] {
      assert a[0] in b;
      assert b[0] in a;
      assert a == [a[0]] + a[1..] && b == [b[0]] + b[1..];
      forall p
        ensures p in a[1..] <==> p in b[1..]
      {
        assert p in a[1..] ==> p in a && p != a[0];
        assert p in b[1..] ==> p in b && p != b[0];
      }
      IncreasingUnique(a[1..], b[1..]);
    }
  }

  /**
   Besides the identity the configuration depends only on which ports are wanted: reordering or
   repeating services or ports leaves it unchanged.
   */
  lemma MeshIsCanonical(a: seq<Service>, s: Option<MeshTls>, x: MeshConfig, b: seq<Service>, t: Option<MeshTls>, y: MeshConfig)
    requires MeshOf(a, s, x) && MeshOf(b, t, y)
    ensures x == y <==> IdentityOf(s) == IdentityOf(t) && forall p :: Wanted(a, p) <==> Wanted(b, p)
  {
    if forall p :: Wanted(a, p) <==> Wanted(b, p) {
      IncreasingUnique(x.interceptPorts, y.interceptPorts);
    }
    if x == y {
      forall p
        ensures Wanted(a, p) <==> Wanted(b, p)
      {
        assert p in x.interceptPorts <==> p in y.interceptPorts;
      }
    }
  }

  /** Each service of `a` has a counterpart in `b` with the same switch and the same ports, in any order. */
  ghost predicate Covered(a: seq<Service>, b: seq<Service>) {
    forall s :: 0 <= s < |a| ==> exists t :: 0 <= t < |b| && a[s].meshEnabled == b[t].meshEnabled
                                             && forall p :: p in a[s].ports ==> p in b[t].ports
  }

  lemma CoveredWants(a: seq<Service>, b: seq<Service>, p: uint32)
    requires Covered(a, b) && Wanted(a, p)
    ensures Wanted(b, p)
  {
    var s, k :| 0 <= s < |a| && a[s].meshEnabled && 0 <= k < |a[s].ports| && Uint32(a[s].ports[k]) == p;
    var t :| 0 <= t < |b| && a[s].meshEnabled == b[t].meshEnabled && forall q :: q in a[s].ports ==> q in b[t].ports;
    assert a[s].ports[k] in b[t].ports;
    var j :| 0 <= j < |b[t].ports| && b[t].ports[j] == a[s].ports[k];
  }

  /** Permuting or duplicating services, or ports within them, changes nothing. */
  lemma ReorderingChangesNothing(a: seq<Service>, x: MeshConfig, b: seq<Service>, y: MeshConfig, tls: Option<MeshTls>)
    requires MeshOf(a, tls, x) && MeshOf(b, tls, y) && Covered(a, b) && Covered(b, a)
    ensures x == y
  {
    forall p
      ensures Wanted(a, p) <==> Wanted(b, p)
    {
      if Wanted(a, p) {
        CoveredWants(a, b, p);
      }
      if Wanted(b, p) {
        CoveredWants(b, a, p);
      }
    }
    MeshIsCanonical(a, tls, x, b, tls, y);
  }
}
