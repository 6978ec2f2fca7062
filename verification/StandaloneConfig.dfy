/**
 The standalone configuration and its validation.

 Durations and sizes appear as their parsed values; the parsers are library code.
 */
module StandaloneConfig {
  import opened Wrappers
  import opened Snapshot

  datatype Issuer = Issuer(kind: string, acmeEmail: Option<string>, manual: Option<(string, string)>)

  datatype CertificateConfig = CertificateConfig(name: string, domains: seq<string>, issuer: Issuer)

  datatype ListenerTls = ListenerTls(certificate: string, certFile: string, keyFile: string)

  datatype Listener = Listener(name: string, port: int, protocol: string, tls: Option<ListenerTls>)

  datatype EndpointConfig = EndpointConfig(address: string, weight: int)

  datatype Backend = Backend(name: string, endpoints: seq<EndpointConfig>)

  datatype RouteBackend = RouteBackend(name: string, weight: int)

  datatype PathConfig = PathConfig(kind: string, value: string)

  datatype HeaderConfig = HeaderConfig(name: string, value: string, kind: string)

  datatype FilterConfig = FilterConfig(kind: string, add: map<string, string>, rewritePath: string)

  datatype MirrorConfig = MirrorConfig(backend: string, percentage: int)

  datatype RetryConfig = RetryConfig(maxRetries: int, perTryTimeoutMs: int64, retryOn: seq<string>, backoffBaseMs: int64)

  datatype RouteConfig = RouteConfig(
    name: string, hostnames: seq<string>, path: Option<PathConfig>, headers: seq<HeaderConfig>, verb: string,
    backends: seq<RouteBackend>, filters: seq<FilterConfig>, mirror: Option<MirrorConfig>,
    requestTimeoutMs: Option<int64>, retry: Option<RetryConfig>, middleware: seq<string>, expression: string)

  datatype Config = Config(
    version: string, listeners: seq<Listener>, certificates: seq<CertificateConfig>,
    backends: seq<Backend>, routes: seq<RouteConfig>)

  // ---------------------------------------------------------------- what each item must satisfy

  predicate IssuerOk(issuer: Issuer) {
    match issuer.kind
    case "acme" => issuer.acmeEmail.Some? && issuer.acmeEmail.value != ""
    case "manual" => issuer.manual.Some? && issuer.manual.value.0 != "" && issuer.manual.value.1 != ""
    case "self-signed" => true
    case _ => false
  }

  predicate CertificateOk(certs: seq<CertificateConfig>, i: nat)
    requires i < |certs|
  {
    && certs[i].name != ""
    && (forall j :: 0 <= j < i ==> certs[j].name != certs[i].name)
    && certs[i].domains != []
    && IssuerOk(certs[i].issuer)
  }

  predicate ListenerOk(l: Listener, certNames: set<string>) {
    && l.name != ""
    && 0 < l.port <= 65535
    && l.protocol != ""
    && (l.protocol == "HTTPS" || l.protocol == "TLS" ==>
          && l.tls.Some?
          && if l.tls.value.certificate != "" then l.tls.value.certificate in certNames
             else l.tls.value.certFile != "" && l.tls.value.keyFile != "")
  }

  predicate BackendOk(backends: seq<Backend>, i: nat)
    requires i < |backends|
  {
    && backends[i].name != ""
    && (forall j :: 0 <= j < i ==> backends[j].name != backends[i].name)
    && backends[i].endpoints != []
  }

  predicate RouteOk(r: RouteConfig, backendNames: set<string>) {
    && r.name != ""
    && r.backends != []
    && forall j :: 0 <= j < |r.backends| ==> r.backends[j].name in backendNames
  }

  function CertNames(certs: seq<CertificateConfig>): set<string> {
    set i | 0 <= i < |certs| :: certs[i].name
  }

  function BackendNames(backends: seq<Backend>): set<string> {
    set i | 0 <= i < |backends| :: backends[i].name
  }

  /** What an accepted configuration promises the later passes. */
  predicate Accepted(c: Config) {
    && c.version != ""
    && c.listeners != []
    && (forall i :: 0 <= i < |c.certificates| ==> CertificateOk(c.certificates, i))
    && (forall i :: 0 <= i < |c.listeners| ==> ListenerOk(c.listeners[i], CertNames(c.certificates)))
    && (forall i :: 0 <= i < |c.backends| ==> BackendOk(c.backends, i))
    && (forall i :: 0 <= i < |c.routes| ==> RouteOk(c.routes[i], BackendNames(c.backends)))
  }

  lemma IssuerOkIff(issuer: Issuer)
    ensures IssuerOk(issuer) <==>
      || (issuer.kind == "acme" && issuer.acmeEmail.Some? && issuer.acmeEmail.value != "")
      || (issuer.kind == "manual" && issuer.manual.Some? && issuer.manual.value.0 != "" && issuer.manual.value.1 != "")
      || issuer.kind == "self-signed"
  {
  }

  lemma CertificatesOkIff(certs: seq<CertificateConfig>)
    ensures (forall i :: 0 <= i < |certs| ==> CertificateOk(certs, i)) <==>
      && (forall i :: 0 <= i < |certs| ==> certs[i].name != "" && certs[i].domains != [] && IssuerOk(certs[i].issuer))
      && (forall i, j :: 0 <= i < j < |certs| ==> certs[i].name != certs[j].name)
  {
    if forall i :: 0 <= i < |certs| ==> CertificateOk(certs, i) {
      forall i | 0 <= i < |certs|
        ensures certs[i].name != "" && certs[i].domains != [] && IssuerOk(certs[i].issuer)
        ensures forall j :: 0 <= j < i ==> certs[j].name != certs[i].name
      {
        assert CertificateOk(certs, i);
      }
    }
  }

  lemma BackendsOkIff(backends: seq<Backend>)
    ensures (forall i :: 0 <= i < |backends| ==> BackendOk(backends, i)) <==>
      && (forall i :: 0 <= i < |backends| ==> backends[i].name != "" && backends[i].endpoints != [])
      && (forall i, j :: 0 <= i < j < |backends| ==> backends[i].name != backends[j].name)
  {
    if forall i :: 0 <= i < |backends| ==> BackendOk(backends, i) {
      forall i | 0 <= i < |backends|
        ensures backends[i].name != "" && backends[i].endpoints != []
        ensures forall j :: 0 <= j < i ==> backends[j].name != backends[i].name
      {
        assert BackendOk(backends, i);
      }
    }
  }

  /** Some certificate has this name. */
  ghost predicate HasCertificate(c: Config, name: string) {
    exists k :: 0 <= k < |c.certificates| && c.certificates[k].name == name
  }

  ghost predicate HasBackend(c: Config, name: string) {
    exists k :: 0 <= k < |c.backends| && c.backends[k].name == name
  }

  /**
   Acceptance written out: a version and a listener; certificates with distinct names, domains and
   a usable issuer; listeners with a port, and for HTTPS and TLS a known certificate or a pair of
   files; backends with distinct names and endpoints; routes with known backends. Nothing else is
   asked for.
   */
  lemma AcceptedIff(c: Config)
    ensures Accepted(c) <==>
      && c.version != "" && c.listeners != []
      && (forall i :: 0 <= i < |c.certificates| ==>
            c.certificates[i].name != "" && c.certificates[i].domains != [] && IssuerOk(c.certificates[i].issuer))
      && (forall i, j :: 0 <= i < j < |c.certificates| ==> c.certificates[i].name != c.certificates[j].name)
      && (forall i :: 0 <= i < |c.listeners| ==>
            var l := c.listeners[i];
            && l.name != "" && 1 <= l.port <= 65535 && l.protocol != ""
            && ((l.protocol != "HTTPS" && l.protocol != "TLS")
                || (l.tls.Some? && l.tls.value.certificate == "" && l.tls.value.certFile != "" && l.tls.value.keyFile != "")
                || (l.tls.Some? && l.tls.value.certificate != "" && HasCertificate(c, l.tls.value.certificate))))
      && (forall i :: 0 <= i < |c.backends| ==> c.backends[i].name != "" && c.backends[i].endpoints != [])
      && (forall i, j :: 0 <= i < j < |c.backends| ==> c.backends[i].name != c.backends[j].name)
      && (forall i :: 0 <= i < |c.routes| ==>
            && c.routes[i].name != "" && c.routes[i].backends != []
            && forall j :: 0 <= j < |c.routes[i].backends| ==> HasBackend(c, c.routes[i].backends[j].name))
  {
    CertificatesOkIff(c.certificates);
    BackendsOkIff(c.backends);
    assert forall n :: n in CertNames(c.certificates) <==> HasCertificate(c, n);
    assert forall n :: n in BackendNames(c.backends) <==> HasBackend(c, n);
  }

  // ---------------------------------------------------------------- the validators

  /** An error names the first item of its section that is at fault. */
  datatype ConfigError =
    | VersionRequired
    | ListenerRequired
    | BadCertificate(index: nat)
    | BadListener(index: nat)
    | BadBackend(index: nat)
    | BadRoute(index: nat)

  method ValidateIssuer(issuer: Issuer) returns (ok: bool)
    ensures ok <==> IssuerOk(issuer)
    ensures ok <==>
      || (issuer.kind == "acme" && issuer.acmeEmail.Some? && issuer.acmeEmail.value != "")
      || (issuer.kind == "manual" && issuer.manual.Some? && issuer.manual.value.0 != "" && issuer.manual.value.1 != "")
      || issuer.kind == "self-signed"
  {
    if issuer.kind == "" {
      return false;
    }
    if issuer.kind == "acme" {
      if issuer.acmeEmail.None? {
        return false;
      }
      return issuer.acmeEmail.value != "";
    } else if issuer.kind == "manual" {
      if issuer.manual.None? {
        return false;
      }
      return !(issuer.manual.value.0 == "" || issuer.manual.value.1 == "");
    } else if issuer.kind == "self-signed" {
      return true;
    }
    return false;
  }

  method ValidateCertificates(certs: seq<CertificateConfig>) returns (names: set<string>, err: Option<ConfigError>)
    ensures err.None? ==> names == CertNames(certs) && forall i :: 0 <= i < |certs| ==> CertificateOk(certs, i)
    ensures err.Some? ==>
      && err.value.BadCertificate? && err.value.index < |certs| && !CertificateOk(certs, err.value.index)
      && forall j :: 0 <= j < err.value.index ==> CertificateOk(certs, j)
  {
    names := {};
    for i := 0 to |certs|
      invariant names == CertNames(certs[..i])
      invariant forall j :: 0 <= j < i ==> CertificateOk(certs, j)
    {
      var cert := certs[i];
      assert forall j :: 0 <= j < i ==> certs[..i][j] == certs[j];
      if cert.name == "" {
        return names, Some(BadCertificate(i));
      }
      if cert.name in names {
        return names, Some(BadCertificate(i));
      }
      assert CertNames(certs[..i + 1]) == CertNames(certs[..i]) + {cert.name} by {
        assert certs[..i + 1] == certs[..i] + [cert];
      }
      names := names + {cert.name};
      if cert.domains == [] {
        return names, Some(BadCertificate(i));
      }
      var ok := ValidateIssuer(cert.issuer);
      if !ok {
        return names, Some(BadCertificate(i));
      }
    }
    assert certs[..|certs|] == certs;
    return names, None;
  }

  method ValidateListeners(listeners: seq<Listener>, certNames: set<string>) returns (err: Option<ConfigError>)
    ensures err.None? ==> forall i :: 0 <= i < |listeners| ==> ListenerOk(listeners[i], certNames)
    ensures err.Some? ==>
      && err.value.BadListener? && err.value.index < |listeners|
      && !ListenerOk(listeners[err.value.index], certNames)
      && forall j :: 0 <= j < err.value.index ==> ListenerOk(listeners[j], certNames)
  {
    for i := 0 to |listeners|
      invariant forall j :: 0 <= j < i ==> ListenerOk(listeners[j], certNames)
    {
      var l := listeners[i];
      if l.name == "" {
        return Some(BadListener(i));
      }
      if l.port <= 0 || l.port > 65535 {
        return Some(BadListener(i));
      }
      if l.protocol == "" {
        return Some(BadListener(i));
      }
      if l.protocol == "HTTPS" || l.protocol == "TLS" {
        if l.tls.None? {
          return Some(BadListener(i));
        }
        if l.tls.value.certificate != "" {
          if l.tls.value.certificate !in certNames {
            return Some(BadListener(i));
          }
        } else if l.tls.value.certFile == "" || l.tls.value.keyFile == "" {
          return Some(BadListener(i));
        }
      }
    }
    return None;
  }

  method ValidateBackends(backends: seq<Backend>) returns (names: set<string>, err: Option<ConfigError>)
    ensures err.None? ==> names == BackendNames(backends) && forall i :: 0 <= i < |backends| ==> BackendOk(backends, i)
    ensures err.Some? ==>
      && err.value.BadBackend? && err.value.index < |backends| && !BackendOk(backends, err.value.index)
      && forall j :: 0 <= j < err.value.index ==> BackendOk(backends, j)
  {
    names := {};
    for i := 0 to |backends|
      invariant names == BackendNames(backends[..i])
      invariant forall j :: 0 <= j < i ==> BackendOk(backends, j)
    {
      var b := backends[i];
      assert forall j :: 0 <= j < i ==> backends[..i][j] == backends[j];
      if b.name == "" {
        return names, Some(BadBackend(i));
      }
      if b.name in names {
        return names, Some(BadBackend(i));
      }
      assert BackendNames(backends[..i + 1]) == BackendNames(backends[..i]) + {b.name} by {
        assert backends[..i + 1] == backends[..i] + [b];
      }
      names := names + {b.name};
      if b.endpoints == [] {
        return names, Some(BadBackend(i));
      }
    }
    assert backends[..|backends|] == backends;
    return names, None;
  }

  method ValidateRoutes(routes: seq<RouteConfig>, backendNames: set<string>) returns (err: Option<ConfigError>)
    ensures err.None? ==> forall i :: 0 <= i < |routes| ==> RouteOk(routes[i], backendNames)
    ensures err.Some? ==>
      && err.value.BadRoute? && err.value.index < |routes|
      && !RouteOk(routes[err.value.index], backendNames)
      && forall j :: 0 <= j < err.value.index ==> RouteOk(routes[j], backendNames)
  {
    for i := 0 to |routes|
      invariant forall j :: 0 <= j < i ==> RouteOk(routes[j], backendNames)
    {
      var r := routes[i];
      if r.name == "" {
        return Some(BadRoute(i));
      }
      if r.backends == [] {
        return Some(BadRoute(i));
      }
      for j := 0 to |r.backends|
        invariant forall k :: 0 <= k < j ==> r.backends[k].name in backendNames
      {
        if r.backends[j].name !in backendNames {
          return Some(BadRoute(i));
        }
      }
    }
    return None;
  }

  /** Validation succeeds exactly on the configurations that keep every promise. */
  /** No error iff accepted; otherwise the error of the first section that has one, at its first bad item. */
  method Validate(c: Config) returns (err: Option<ConfigError>)
    ensures err.None? <==> Accepted(c)
    ensures err == Some(VersionRequired) <==> c.version == ""
    ensures err == Some(ListenerRequired) <==> c.version != "" && c.listeners == []
    ensures err.Some? && err.value.BadCertificate? ==>
      && err.value.index < |c.certificates| && !CertificateOk(c.certificates, err.value.index)
      && forall i :: 0 <= i < err.value.index ==> CertificateOk(c.certificates, i)
    ensures err.Some? && (err.value.BadListener? || err.value.BadBackend? || err.value.BadRoute?) ==>
      forall i :: 0 <= i < |c.certificates| ==> CertificateOk(c.certificates, i)
    ensures err.Some? && err.value.BadListener? ==>
      && err.value.index < |c.listeners| && !ListenerOk(c.listeners[err.value.index], CertNames(c.certificates))
      && forall i :: 0 <= i < err.value.index ==> ListenerOk(c.listeners[i], CertNames(c.certificates))
    ensures err.Some? && (err.value.BadBackend? || err.value.BadRoute?) ==>
      forall i :: 0 <= i < |c.listeners| ==> ListenerOk(c.listeners[i], CertNames(c.certificates))
    ensures err.Some? && err.value.BadBackend? ==>
      && err.value.index < |c.backends| && !BackendOk(c.backends, err.value.index)
      && forall i :: 0 <= i < err.value.index ==> BackendOk(c.backends, i)
    ensures err.Some? && err.value.BadRoute? ==>
      && (forall i :: 0 <= i < |c.backends| ==> BackendOk(c.backends, i))
      && err.value.index < |c.routes| && !RouteOk(c.routes[err.value.index], BackendNames(c.backends))
      && forall i :: 0 <= i < err.value.index ==> RouteOk(c.routes[i], BackendNames(c.backends))
  {
    if c.version == "" {
      return Some(VersionRequired);
    }
    if c.listeners == [] {
      return Some(ListenerRequired);
    }
    var certNames, certErr := ValidateCertificates(c.certificates);
    if certErr.Some? {
      return certErr;
    }
    err := ValidateListeners(c.listeners, certNames);
    if err.Some? {
      return;
    }
    var backendNames, backendErr := ValidateBackends(c.backends);
    if backendErr.Some? {
      return backendErr;
    }
    err := ValidateRoutes(c.routes, backendNames);
  }
}
