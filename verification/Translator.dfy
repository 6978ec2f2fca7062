/** The rest of the translator: clusters with their endpoints, and the whole request. */
module Translator {
  import opened Snapshot
  import opened Dataplane
  import opened RouteTranslation

  function DpEndpointOf(e: Endpoint): DpEndpoint {
    DpEndpoint(e.address, Uint32(e.port), if Uint32(e.weight) == 0 then 1 else Uint32(e.weight), e.ready)
  }

  function DpEndpointsOf(es: seq<Endpoint>): seq<DpEndpoint> {
    seq(|es|, i requires 0 <= i < |es| => DpEndpointOf(es[i]))
  }

  function DpClusterOf(c: Cluster, endpoints: map<string, seq<Endpoint>>): DpCluster {
    var key := c.namespace + "/" + c.name;
    DpCluster(c.name, if key in endpoints then DpEndpointsOf(endpoints[key]) else [])
  }

  /** The endpoints under the key of the cluster, each as it is, with weight zero as one. */
  ghost predicate ServesCluster(c: Cluster, endpoints: map<string, seq<Endpoint>>, d: DpCluster) {
    var key := c.namespace + "/" + c.name;
    && d.name == c.name
    && |d.endpoints| == (if key in endpoints then |endpoints[key]| else 0)
    && forall k :: 0 <= k < |d.endpoints| ==>
        var e := endpoints[key][k];
        && d.endpoints[k].ip == e.address && d.endpoints[k].healthy == e.ready
        && d.endpoints[k].port == (if e.port < 0 then e.port + 0x1_0000_0000 else e.port)
        && d.endpoints[k].weight == if e.weight == 0 then 1 else if e.weight < 0 then e.weight + 0x1_0000_0000 else e.weight
  }

  method TranslateClusters(clusters: seq<Cluster>, endpoints: map<string, seq<Endpoint>>) returns (result: seq<DpCluster>)
    ensures |result| == |clusters| && forall i :: 0 <= i < |clusters| ==> result[i] == DpClusterOf(clusters[i], endpoints)
    ensures forall i :: 0 <= i < |clusters| ==> ServesCluster(clusters[i], endpoints, result[i])
  {
    result := [];
    for i := 0 to |clusters|
      invariant |result| == i && forall j :: 0 <= j < i ==> result[j] == DpClusterOf(clusters[j], endpoints)
    {
      var cl := clusters[i];
      var list: seq<DpEndpoint> := [];
      var key := cl.namespace + "/" + cl.name;
      if key in endpoints {
        var es := endpoints[key];
        for k := 0 to |es|
          invariant |list| == k && forall j :: 0 <= j < k ==> list[j] == DpEndpointOf(es[j])
        {
          var weight := Uint32(es[k].weight);
          if weight == 0 {
            weight := 1;
          }
          list := list + [DpEndpoint(es[k].address, Uint32(es[k].port), weight, es[k].ready)];
        }
        assert list == DpEndpointsOf(es);
      }
      result := result + [DpCluster(cl.name, list)];
    }
  }

  function Translation(s: ConfigSnapshot): ApplyRequest {
    ApplyRequest(Flatten(s.routes),
                 seq(|s.clusters|, i requires 0 <= i < |s.clusters| => DpClusterOf(s.clusters[i], s.endpoints)))
  }

  method TranslateSnapshot(s: ConfigSnapshot) returns (req: ApplyRequest)
    ensures req == Translation(s)
  {
    var routes := TranslateRoutes(s.routes);
    var clusters := TranslateClusters(s.clusters, s.endpoints);
    req := ApplyRequest(routes, clusters);
  }
}
