/**
 The standalone certificate manager: certificates are loaded or obtained at start, renewed in
 three phases (pick under a read lock, obtain without a lock, install under a write lock), and
 reloaded from disk when a file changes. Any number of renewal passes may overlap.
 */
module CertManager {
  import opened Wrappers
  import opened GoTime
  import opened StandaloneConfig
  import opened SniSelection

  /** A certificate and the validity it was issued for; times are Unix nanoseconds. */
  datatype Cert = Cert(id: int, notBefore: int, notAfter: int)

  datatype Managed = Managed(
    domains: seq<string>, issuer: string, installed: Option<Cert>, notBefore: int, notAfter: int,
    certFile: string, lastMod: int)

  datatype Manager = Manager(config: seq<CertificateConfig>, certs: map<string, Managed>, clients: set<string>)

  const THIRTY_DAYS := 30 * 24 * 3600 * 1_000_000_000

  // ---------------------------------------------------------------- loading one certificate

  /**
   What the outside world answers while one certificate is set up: whether an ACME client could
   be made, the stored certificate, the issued or generated or loaded one, whether it loads as a
   TLS certificate, the file's time, and whether its validity could be parsed.
   */
  datatype Answer = Answer(
    client: bool, existing: Option<Cert>, obtained: Option<Cert>, loads: bool, fileTime: Option<int>, parsed: bool)

  function Entry0(c: CertificateConfig): Managed {
    Managed(c.domains, c.issuer.kind, None, ZERO_TIME, ZERO_TIME, "", ZERO_TIME)
  }

  predicate ExpiresWithin30Days(notAfter: int, now: int) {
    notAfter - now < THIRTY_DAYS
  }

  /** The certificate that an ACME entry starts with: the stored one unless it is about to expire. */
  function FirstAcmeCert(a: Answer, now: int): Option<Cert> {
    if a.existing.Some? && !(now + THIRTY_DAYS > a.existing.value.notAfter) then a.existing else a.obtained
  }

  function Setup(m: Manager, c: CertificateConfig, a: Answer, now: int): (r: (Manager, bool))
    ensures r.0.config == m.config
    ensures !r.1 ==> r.0.certs == m.certs
  {
    var e := Entry0(c);
    match c.issuer.kind
    case "acme" =>
      if !a.client then (m, false)
      else
        var m' := m.(clients := m.clients + {c.name});
        var cert := FirstAcmeCert(a, now);
        if cert.None? || !a.loads then (m', false)
        else (m'.(certs := m.certs[c.name := Installed(e, cert.value)]), true)
    case "manual" =>
      if a.obtained.None? then (m, false)
      else
        var cert := a.obtained.value;
        var e' := e.(installed := Some(cert), certFile := if c.issuer.manual.Some? then c.issuer.manual.value.0 else "",
                     lastMod := if a.fileTime.Some? then a.fileTime.value else ZERO_TIME,
                     notBefore := if a.parsed then cert.notBefore else ZERO_TIME,
                     notAfter := if a.parsed then cert.notAfter else ZERO_TIME);
        (m.(certs := m.certs[c.name := e']), true)
    case "self-signed" =>
      if a.obtained.None? || !a.loads then (m, false)
      else (m.(certs := m.certs[c.name := Installed(e, a.obtained.value)]), true)
    case _ => (m, false)
  }

  /** A certificate is put in place together with its validity. */
  function Installed(e: Managed, cert: Cert): Managed {
    e.(installed := Some(cert), notBefore := cert.notBefore, notAfter := cert.notAfter)
  }

  /** Setting up all certificates stops at the first failure and keeps what came before. */
  function SetupFrom(m: Manager, answers: seq<Answer>, now: int, i: nat): (Manager, bool)
    requires i <= |m.config| && |answers| == |m.config|
    decreases |m.config| - i
  {
    if i == |m.config| then (m, true)
    else
      var (m', ok) := Setup(m, m.config[i], answers[i], now);
      if !ok then (m', false) else SetupFrom(m', answers, now, i + 1)
  }

  /** Setting one certificate up leaves the entries of the others alone. */
  lemma SetupFrame(m: Manager, c: CertificateConfig, a: Answer, now: int, n: string)
    ensures n != c.name ==> SameEntry(m, Setup(m, c, a, now).0, n)
  {
  }

  predicate SameEntry(m: Manager, m': Manager, n: string) {
    (n in m.certs <==> n in m'.certs) && (n in m.certs ==> m'.certs[n] == m.certs[n])
  }

  /**
   The certificate that an ACME entry starts with, written out: the stored one iff there is one
   and it lasts for 30 days from now, else the one obtained; with its validity.
   */
  ghost predicate StartsWith(e: Managed, c: CertificateConfig, a: Answer, now: int) {
    && e.domains == c.domains && e.issuer == "acme" && e.installed.Some?
    && (e.installed == if a.existing.Some? && a.existing.value.notAfter >= now + 2_592_000_000_000_000 then a.existing else a.obtained)
    && e.notBefore == e.installed.value.notBefore && e.notAfter == e.installed.value.notAfter
  }

  lemma AcmeSetupMeans(m: Manager, c: CertificateConfig, a: Answer, now: int)
    requires c.issuer.kind == "acme"
    ensures var (m', ok) := Setup(m, c, a, now);
      && (ok <==> a.client && a.loads
                  && (a.obtained.Some? || (a.existing.Some? && a.existing.value.notAfter >= now + 2_592_000_000_000_000)))
      && m'.clients == (if a.client then m.clients + {c.name} else m.clients)
      && (ok ==> c.name in m'.certs && StartsWith(m'.certs[c.name], c, a, now))
      && (!ok ==> m'.certs == m.certs)
  {
  }

  /**
   A manual entry starts with the certificate of its file and remembers the file and its time; its
   validity is only recorded if it could be parsed. A self-signed one carries the validity of the
   generated certificate. No other kind is set up.
   */
  lemma OtherSetupMeans(m: Manager, c: CertificateConfig, a: Answer, now: int)
    requires c.issuer.kind != "acme"
    ensures var (m', ok) := Setup(m, c, a, now);
      && (ok <==> a.obtained.Some? && (c.issuer.kind == "manual" || (c.issuer.kind == "self-signed" && a.loads)))
      && m'.clients == m.clients
      && (!ok ==> m'.certs == m.certs)
      && (ok ==>
            && c.name in m'.certs
            && var e := m'.certs[c.name];
              && e.domains == c.domains && e.issuer == c.issuer.kind && e.installed == a.obtained
              && (c.issuer.kind == "self-signed" || a.parsed ==>
                    e.notBefore == a.obtained.value.notBefore && e.notAfter == a.obtained.value.notAfter)
              && (c.issuer.kind == "manual" && !a.parsed ==>
                    e.notBefore == -62135596800_000_000_000 && e.notAfter == -62135596800_000_000_000)
              && (c.issuer.kind == "manual" && c.issuer.manual.Some? ==> e.certFile == c.issuer.manual.value.0)
              && (c.issuer.kind == "manual" ==> e.lastMod == if a.fileTime.Some? then a.fileTime.value else -62135596800_000_000_000)
              && (c.issuer.kind == "self-signed" ==> e.certFile == ""))
  {
  }

  /** Setting all certificates up starts each ACME entry so, or leaves it alone after a failure. */
  lemma {:induction false} SetupFromStarts(m: Manager, answers: seq<Answer>, now: int, i: nat, k: nat)
    requires i <= |m.config| && |answers| == |m.config| && k < |m.config| && m.config[k].issuer.kind == "acme"
    requires forall j, l :: 0 <= j < l < |m.config| ==> m.config[j].name != m.config[l].name
    ensures var c := m.config[k]; var (m', ok) := SetupFrom(m, answers, now, i);
      && (k < i ==> SameEntry(m, m', c.name))
      && (k >= i ==> SameEntry(m, m', c.name) || (c.name in m'.certs && StartsWith(m'.certs[c.name], c, answers[k], now)))
      && (k >= i && ok ==> c.name in m'.certs && StartsWith(m'.certs[c.name], c, answers[k], now))
    decreases |m.config| - i
  {
    if i < |m.config| {
      var (m1, ok) := Setup(m, m.config[i], answers[i], now);
      SetupFrame(m, m.config[i], answers[i], now, m.config[k].name);
      if i == k {
        AcmeSetupMeans(m, m.config[i], answers[i], now);
      }
      if ok {
        SetupFromStarts(m1, answers, now, i + 1, k);
      }
    }
  }

  // ---------------------------------------------------------------- renewal and reload

  datatype Candidate = Candidate(name: string, domains: seq<string>)

  datatype Renewed = Renewed(name: string, cert: Cert)

  predicate Due(m: Manager, n: string, now: int) {
    n in m.certs && m.certs[n].issuer == "acme" && ExpiresWithin30Days(m.certs[n].notAfter, now)
  }

  function ConfigOf(config: seq<CertificateConfig>, name: string): Option<CertificateConfig> {
    if config == [] then None
    else if config[0].name == name then Some(config[0])
    else ConfigOf(config[1..], name)
  }

  /** Phase one looks a due entry up in the client table and in the configuration. */
  predicate Pickable(m: Manager, n: string, now: int) {
    Due(m, n, now) && n in m.clients && ConfigOf(m.config, n).Some?
  }

  function Install(m: Manager, results: seq<Renewed>): Manager {
    if results == [] then m
    else
      var before, r := Install(m, results[..|results| - 1]), results[|results| - 1];
      if r.name in before.certs then before.(certs := before.certs[r.name := Installed(before.certs[r.name], r.cert)]) else before
  }

  /** What a look at the file of a manual certificate finds: its time, and the certificate if it loads. */
  datatype FileState = FileState(modTime: int, cert: Option<Cert>)

  /** Only a manual entry whose file is newer is replaced; its recorded validity is not. */
  function Reloaded(e: Managed, f: Option<FileState>): Managed {
    if e.issuer == "manual" && e.certFile != "" && f.Some? && f.value.modTime > e.lastMod && f.value.cert.Some?
    then e.(installed := f.value.cert, lastMod := f.value.modTime)
    else e
  }

  function FileOf(files: map<string, FileState>, n: string): Option<FileState> {
    if n in files then Some(files[n]) else None
  }

  function Reload(m: Manager, files: map<string, FileState>): Manager {
    m.(certs := map n | n in m.certs :: Reloaded(m.certs[n], FileOf(files, n)))
  }

  /** The entries after a loop over `order` has looked at each name in turn. */
  function ReloadAlong(certs: map<string, Managed>, files: map<string, FileState>, order: seq<string>): (r: map<string, Managed>)
    requires forall n :: n in order ==> n in certs
    ensures r.Keys == certs.Keys
  {
    if order == [] then certs
    else
      var rest, n := ReloadAlong(certs, files, order[..|order| - 1]), order[|order| - 1];
      rest[n := Reloaded(rest[n], FileOf(files, n))]
  }

  lemma {:induction false} ReloadAlongAt(certs: map<string, Managed>, files: map<string, FileState>, order: seq<string>, n: string)
    requires (forall m :: m in order ==> m in certs) && n in certs
    requires forall i, j :: 0 <= i < j < |order| ==> order[i] != order[j]
    ensures ReloadAlong(certs, files, order)[n] == if n in order then Reloaded(certs[n], FileOf(files, n)) else certs[n]
  {
    if order != [] {
      var rest := order[..|order| - 1];
      ReloadAlongAt(certs, files, rest, n);
      assert order == rest + [order[|rest|]];
    }
  }

  /** In whatever order the entries are visited, each is looked at once. */
  lemma ReloadAlongAll(m: Manager, files: map<string, FileState>, order: seq<string>)
    requires forall n :: n in order <==> n in m.certs
    requires forall i, j :: 0 <= i < j < |order| ==> order[i] != order[j]
    ensures ReloadAlong(m.certs, files, order) == Reload(m, files).certs
  {
    forall n | n in m.certs
      ensures ReloadAlong(m.certs, files, order)[n] == Reloaded(m.certs[n], FileOf(files, n))
    {
      ReloadAlongAt(m.certs, files, order, n);
    }
  }

  // ---------------------------------------------------------------- what holds of the manager

  /** The configuration as validation leaves it. */
  ghost predicate ValidConfig(config: seq<CertificateConfig>) {
    forall i :: 0 <= i < |config| ==> CertificateOk(config, i)
  }

  ghost predicate EntryOk(m: Manager, n: string)
    requires n in m.certs
  {
    var e := m.certs[n];
    && e.installed.Some?
    && (e.issuer == "acme" ==> n in m.clients)
    && (e.issuer != "manual" ==> e.notBefore == e.installed.value.notBefore && e.notAfter == e.installed.value.notAfter)
    && ConfigOf(m.config, n).Some? && ConfigOf(m.config, n).value.domains == e.domains
    && ConfigOf(m.config, n).value.issuer.kind == e.issuer
  }

  ghost predicate Good(m: Manager) {
    ValidConfig(m.config) && forall n :: n in m.certs ==> EntryOk(m, n)
  }

  lemma {:induction false} ConfigOfFinds(config: seq<CertificateConfig>, i: nat)
    requires i < |config| && forall j :: 0 <= j < i ==> config[j].name != config[i].name
    ensures ConfigOf(config, config[i].name) == Some(config[i])
  {
    if i > 0 {
      ConfigOfFinds(config[1..], i - 1);
    }
  }

  lemma SetupKeepsGood(m: Manager, i: nat, a: Answer, now: int)
    requires Good(m) && i < |m.config|
    ensures Good(Setup(m, m.config[i], a, now).0)
  {
    var c, m' := m.config[i], Setup(m, m.config[i], a, now).0;
    assert CertificateOk(m.config, i);
    ConfigOfFinds(m.config, i);
    forall n | n in m'.certs
      ensures EntryOk(m', n)
    {
      if n != c.name || m'.certs == m.certs {
        assert EntryOk(m, n);
      }
    }
  }

  lemma {:induction false} SetupFromKeepsGood(m: Manager, answers: seq<Answer>, now: int, i: nat)
    requires i <= |m.config| && |answers| == |m.config| && Good(m)
    ensures Good(SetupFrom(m, answers, now, i).0) && SetupFrom(m, answers, now, i).0.config == m.config
    decreases |m.config| - i
  {
    if i < |m.config| {
      SetupKeepsGood(m, i, answers[i], now);
      var (m', ok) := Setup(m, m.config[i], answers[i], now);
      if ok {
        SetupFromKeepsGood(m', answers, now, i + 1);
      }
    }
  }

  lemma {:induction false} InstallKeepsGood(m: Manager, results: seq<Renewed>)
    requires Good(m)
    requires forall i :: 0 <= i < |results| ==> results[i].name in m.certs ==> m.certs[results[i].name].issuer != "manual"
    ensures Good(Install(m, results)) && Install(m, results).config == m.config
    ensures Install(m, results).certs.Keys == m.certs.Keys
    ensures forall n :: n in m.certs ==> Install(m, results).certs[n].issuer == m.certs[n].issuer
  {
    if results != [] {
      var k := |results| - 1;
      InstallKeepsGood(m, results[..k]);
      var before, after := Install(m, results[..k]), Install(m, results);
      forall n | n in after.certs
        ensures EntryOk(after, n)
      {
        assert EntryOk(before, n);
      }
    }
  }

  /** Installing changes the entries of the results and nothing else. */
  lemma {:induction false} InstallChangesOnly(m: Manager, results: seq<Renewed>, n: string)
    requires n in m.certs && forall i :: 0 <= i < |results| ==> results[i].name != n
    ensures n in Install(m, results).certs && Install(m, results).certs[n] == m.certs[n]
  {
    if results != [] {
      InstallChangesOnly(m, results[..|results| - 1], n);
    }
  }

  /** Each result that is not followed by another of its name ends up in place, with its validity. */
  lemma {:induction false} InstallInstalls(m: Manager, results: seq<Renewed>, i: nat)
    requires i < |results| && results[i].name in m.certs
    requires forall j :: i < j < |results| ==> results[j].name != results[i].name
    ensures var n := results[i].name; var after := Install(m, results).certs;
      n in after && after[n].installed == Some(results[i].cert)
      && after[n].notBefore == results[i].cert.notBefore && after[n].notAfter == results[i].cert.notAfter
      && after[n].domains == m.certs[n].domains
  {
    var k := |results| - 1;
    if i < k {
      InstallInstalls(m, results[..k], i);
    } else {
      InstallFrame(m, results[..k], results[i].name);
    }
  }

  lemma {:induction false} InstallFrame(m: Manager, results: seq<Renewed>, n: string)
    requires n in m.certs
    ensures n in Install(m, results).certs && Install(m, results).certs[n].domains == m.certs[n].domains
  {
    if results != [] {
      InstallFrame(m, results[..|results| - 1], n);
    }
  }

  lemma ReloadKeepsGood(m: Manager, files: map<string, FileState>)
    requires Good(m)
    ensures Good(Reload(m, files))
    ensures forall n :: n in m.certs && m.certs[n].issuer != "manual" ==> Reload(m, files).certs[n] == m.certs[n]
  {
    forall n | n in m.certs
      ensures EntryOk(Reload(m, files), n)
    {
      assert EntryOk(m, n);
    }
  }

  function Entries(m: Manager): map<string, Entry<Cert>> {
    map n | n in m.certs :: Entry(m.certs[n].domains, m.certs[n].installed)
  }

  // ---------------------------------------------------------------- runs

  /** A renewal pass between its phases: what it picked, and what it has obtained so far. */
  datatype Pass = Pass(now: int, picked: seq<Candidate>, results: seq<Renewed>)

  datatype System = System(manager: Manager, passes: seq<Pass>)

  datatype Step =
    | Initialize(answers: seq<Answer>, at: int)
    | Pick(at: int, picked: seq<Candidate>)
    | Obtain(pass: nat, candidate: nat, cert: Option<Cert>)
    | Finish(pass: nat)
    | HotReload(files: map<string, FileState>)

  ghost predicate PickedFrom(m: Manager, now: int, picked: seq<Candidate>) {
    && (forall n :: Pickable(m, n, now) <==> exists i :: 0 <= i < |picked| && picked[i].name == n)
    && (forall i, j :: 0 <= i < j < |picked| ==> picked[i].name != picked[j].name)
    && (forall i :: 0 <= i < |picked| ==>
          ConfigOf(m.config, picked[i].name).Some? && picked[i].domains == ConfigOf(m.config, picked[i].name).value.domains)
  }

  ghost predicate Next(s: System, step: Step, t: System) {
    match step
    case Initialize(answers, at) =>
      |answers| == |s.manager.config| && t == s.(manager := SetupFrom(s.manager, answers, at, 0).0)
    case Pick(at, picked) =>
      PickedFrom(s.manager, at, picked) && t == s.(passes := s.passes + [Pass(at, picked, [])])
    case Obtain(p, c, cert) =>
      && p < |s.passes| && c < |s.passes[p].picked|
      && t == if cert.None? then s
              else s.(passes := s.passes[p := s.passes[p].(results := s.passes[p].results + [Renewed(s.passes[p].picked[c].name, cert.value)])])
    case Finish(p) =>
      p < |s.passes| && t == s.(manager := Install(s.manager, s.passes[p].results))
    case HotReload(files) => t == s.(manager := Reload(s.manager, files))
  }

  ghost predicate IsRun(states: seq<System>, steps: seq<Step>) {
    && |states| == |steps| + 1
    && ValidConfig(states[0].manager.config) && states[0].manager.certs == map[] && states[0].passes == []
    && forall i :: 0 <= i < |steps| ==> Next(states[i], steps[i], states[i + 1])
  }

  /** A pass only ever obtains certificates for ACME entries that it picked. */
  ghost predicate PassOk(m: Manager, p: Pass) {
    && (forall i :: 0 <= i < |p.picked| ==> AcmeName(m, p.picked[i].name))
    && ResultsWerePicked(p)
  }

  ghost predicate ResultsWerePicked(p: Pass) {
    forall i :: 0 <= i < |p.results| ==> exists c :: 0 <= c < |p.picked| && p.picked[c].name == p.results[i].name
  }

  ghost predicate AcmeName(m: Manager, n: string) {
    ConfigOf(m.config, n).Some? && ConfigOf(m.config, n).value.issuer.kind == "acme"
  }

  ghost predicate Inv(s: System) {
    Good(s.manager) && forall p :: 0 <= p < |s.passes| ==> PassOk(s.manager, s.passes[p])
  }

  lemma PickKeepsInv(s: System, step: Step, t: System)
    requires Inv(s) && step.Pick? && Next(s, step, t)
    ensures Inv(t)
  {
    var p := Pass(step.at, step.picked, []);
    forall i | 0 <= i < |p.picked|
      ensures AcmeName(s.manager, p.picked[i].name)
    {
      assert Pickable(s.manager, p.picked[i].name, step.at);
      assert EntryOk(s.manager, p.picked[i].name);
    }
    assert PassOk(t.manager, p);
  }

  lemma ObtainKeepsInv(s: System, step: Step, t: System)
    requires Inv(s) && step.Obtain? && Next(s, step, t)
    ensures Inv(t)
  {
    if t != s {
      var p, q := s.passes[step.pass], t.passes[step.pass];
      assert PassOk(s.manager, p);
      forall i | 0 <= i < |q.results|
        ensures exists c :: 0 <= c < |q.picked| && q.picked[c].name == q.results[i].name
      {
        if i < |p.results| {
          assert q.results[i] == p.results[i];
        } else {
          assert q.picked[step.candidate].name == q.results[i].name;
        }
      }
    }
  }

  /** The results of a pass never name a manual entry. */
  lemma ResultsAreAcme(s: System, p: nat, i: nat)
    requires Inv(s) && p < |s.passes| && i < |s.passes[p].results|
    ensures var n := s.passes[p].results[i].name; n in s.manager.certs ==> s.manager.certs[n].issuer == "acme"
  {
    var pass := s.passes[p];
    assert PassOk(s.manager, pass);
    var c :| 0 <= c < |pass.picked| && pass.picked[c].name == pass.results[i].name;
    assert AcmeName(s.manager, pass.picked[c].name);
    if pass.results[i].name in s.manager.certs {
      assert EntryOk(s.manager, pass.results[i].name);
    }
  }

  lemma NextKeepsInv(s: System, step: Step, t: System)
    requires Inv(s) && Next(s, step, t)
    ensures Inv(t) && t.manager.config == s.manager.config
  {
    match step {
      case Initialize(answers, at) =>
        SetupFromKeepsGood(s.manager, answers, at, 0);
        SameConfigKeepsPasses(s, t);
      case Pick(_, _) =>
        PickKeepsInv(s, step, t);
      case Obtain(_, _, _) =>
        ObtainKeepsInv(s, step, t);
      case Finish(p) =>
        forall i | 0 <= i < |s.passes[p].results|
          ensures s.passes[p].results[i].name in s.manager.certs ==> s.manager.certs[s.passes[p].results[i].name].issuer != "manual"
        {
          ResultsAreAcme(s, p, i);
        }
        InstallKeepsGood(s.manager, s.passes[p].results);
        SameConfigKeepsPasses(s, t);
      case HotReload(files) =>
        ReloadKeepsGood(s.manager, files);
        SameConfigKeepsPasses(s, t);
    }
  }

  lemma SameConfigKeepsPasses(s: System, t: System)
    requires Inv(s) && t.passes == s.passes && t.manager.config == s.manager.config
    ensures forall p :: 0 <= p < |t.passes| ==> PassOk(t.manager, t.passes[p])
  {
    forall p | 0 <= p < |t.passes|
      ensures PassOk(t.manager, t.passes[p])
    {
      assert PassOk(s.manager, s.passes[p]);
      assert forall n :: AcmeName(t.manager, n) <==> AcmeName(s.manager, n);
    }
  }

  /**
   In every reachable state every entry holds a loaded certificate, every ACME entry has its
   client and its configuration, and ACME and self-signed entries carry the validity of the
   certificate that is installed.
   */
  lemma {:induction false} RunKeepsInv(states: seq<System>, steps: seq<Step>, i: nat)
    requires IsRun(states, steps) && i < |states|
    ensures Inv(states[i])
  {
    if i > 0 {
      RunKeepsInv(states, steps, i - 1);
      NextKeepsInv(states[i - 1], steps[i - 1], states[i]);
    }
  }

  // ---------------------------------------------------------------- who changes an entry

  /** Step `a` picked the candidates of pass `p`, and `n` was due at that moment. */
  ghost predicate PickedAt(states: seq<System>, steps: seq<Step>, p: nat, n: string, a: nat)
    requires |states| == |steps| + 1
  {
    a < |steps| && steps[a].Pick? && |states[a].passes| == p && Due(states[a].manager, n, steps[a].at)
  }

  /** Step `o` obtained `cert` for `n` in pass `p`. */
  ghost predicate ObtainedAt(states: seq<System>, steps: seq<Step>, p: nat, n: string, cert: Cert, o: nat)
    requires |states| == |steps| + 1
  {
    && o < |steps| && steps[o].Obtain? && steps[o].pass == p && steps[o].cert == Some(cert)
    && p < |states[o].passes| && steps[o].candidate < |states[o].passes[p].picked|
    && states[o].passes[p].picked[steps[o].candidate].name == n
  }

  /** Every candidate of every pass was due when the pass picked it. */
  lemma {:induction false} PickOrigin(states: seq<System>, steps: seq<Step>, i: nat, p: nat, c: nat) returns (a: nat)
    requires IsRun(states, steps) && i < |states| && p < |states[i].passes| && c < |states[i].passes[p].picked|
    ensures a < i && PickedAt(states, steps, p, states[i].passes[p].picked[c].name, a)
    decreases i
  {
    var s, t := states[i - 1], states[i];
    assert Next(s, steps[i - 1], t);
    if p < |s.passes| {
      a := PickOrigin(states, steps, i - 1, p, c);
    } else {
      a := i - 1;
      assert Pickable(s.manager, steps[a].picked[c].name, steps[a].at);
    }
  }

  /** Every result of every pass was obtained for one of its candidates. */
  lemma {:induction false} ResultOrigin(states: seq<System>, steps: seq<Step>, i: nat, p: nat, r: nat) returns (o: nat)
    requires IsRun(states, steps) && i < |states| && p < |states[i].passes| && r < |states[i].passes[p].results|
    ensures o < i && ObtainedAt(states, steps, p, states[i].passes[p].results[r].name, states[i].passes[p].results[r].cert, o)
    decreases i
  {
    var s := states[i - 1];
    assert Next(s, steps[i - 1], states[i]);
    if p < |s.passes| && r < |s.passes[p].results| {
      o := ResultOrigin(states, steps, i - 1, p, r);
    } else {
      o := i - 1;
    }
  }

  /** Installing leaves an entry alone or puts the certificate of one of the results in place. */
  lemma {:induction false} InstallOrigin(m: Manager, results: seq<Renewed>, n: string)
    requires n in m.certs
    ensures var after := Install(m, results).certs;
      && n in after
      && (after[n] == m.certs[n] || exists r :: 0 <= r < |results| && results[r].name == n && after[n] == Installed(m.certs[n], results[r].cert))
  {
    if results != [] {
      var k := |results| - 1;
      InstallOrigin(m, results[..k], n);
      if results[k].name != n && Install(m, results[..k]).certs[n] != m.certs[n] {
        var r :| 0 <= r < k && results[..k][r].name == n && Install(m, results[..k]).certs[n] == Installed(m.certs[n], results[..k][r].cert);
        assert results[r] == results[..k][r];
      }
    }
  }

  /** Pass `p` picked `n` when it was due, then obtained the certificate that `e` now holds. */
  ghost predicate Renews(states: seq<System>, steps: seq<Step>, b: nat, p: nat, n: string, was: Managed, e: Managed)
    requires |states| == |steps| + 1
  {
    exists a: nat, o: nat, cert ::
      a < o < b && PickedAt(states, steps, p, n, a) && ObtainedAt(states, steps, p, n, cert, o) && e == Installed(was, cert)
  }

  /**
   However passes overlap: the end of a pass changes an entry, of whatever issuer, only if the
   pass picked it when it was due and then obtained a certificate for it; what changes is the
   certificate and its validity.
   */
  lemma FinishChangesOnlyRenewed(states: seq<System>, steps: seq<Step>, b: nat, n: string)
    requires IsRun(states, steps) && b < |steps| && steps[b].Finish? && n in states[b].manager.certs
    ensures n in states[b + 1].manager.certs
    ensures states[b + 1].manager.certs[n] == states[b].manager.certs[n]
            || Renews(states, steps, b, steps[b].pass, n, states[b].manager.certs[n], states[b + 1].manager.certs[n])
  {
    var p := steps[b].pass;
    assert Next(states[b], steps[b], states[b + 1]);
    var results := states[b].passes[p].results;
    InstallOrigin(states[b].manager, results, n);
    if states[b + 1].manager.certs[n] != states[b].manager.certs[n] {
      var r :| 0 <= r < |results| && results[r].name == n
               && states[b + 1].manager.certs[n] == Installed(states[b].manager.certs[n], results[r].cert);
      var o := ResultOrigin(states, steps, b, p, r);
      var a := PickOrigin(states, steps, o, p, steps[o].candidate);
    }
  }

  /**
   Over every run an entry changes only by a new setup, by the reload of a manual certificate's
   file, or by the end of a pass that renewed it when it was due.
   */
  lemma EntryChangesOnlyIf(states: seq<System>, steps: seq<Step>, b: nat, n: string)
    requires IsRun(states, steps) && b < |steps| && n in states[b].manager.certs && !steps[b].Initialize?
    ensures n in states[b + 1].manager.certs
    ensures var was, e := states[b].manager.certs[n], states[b + 1].manager.certs[n];
      || e == was
      || (steps[b].HotReload? && was.issuer == "manual" && e == Reloaded(was, FileOf(steps[b].files, n)))
      || (steps[b].Finish? && Renews(states, steps, b, steps[b].pass, n, was, e))
  {
    assert Next(states[b], steps[b], states[b + 1]);
    if steps[b].Finish? {
      FinishChangesOnlyRenewed(states, steps, b, n);
    }
  }

  /**
   In every run phase one picks exactly the ACME entries with under 30 days left, and asks for
   the domains they serve: the client and configuration lookups never drop one.
   */
  lemma RunPicksExactlyDue(states: seq<System>, steps: seq<Step>, i: nat, n: string)
    requires IsRun(states, steps) && i < |steps| && steps[i].Pick?
    ensures (exists c :: 0 <= c < |steps[i].picked| && steps[i].picked[c].name == n) <==>
      && n in states[i].manager.certs && states[i].manager.certs[n].issuer == "acme"
      && states[i].manager.certs[n].notAfter - steps[i].at < 2_592_000_000_000_000
    ensures forall c :: 0 <= c < |steps[i].picked| && steps[i].picked[c].name == n ==>
      n in states[i].manager.certs && steps[i].picked[c].domains == states[i].manager.certs[n].domains
  {
    RunKeepsInv(states, steps, i);
    var m := states[i].manager;
    assert Next(states[i], steps[i], states[i + 1]);
    assert n in m.certs ==> EntryOk(m, n);
    assert Pickable(m, n, steps[i].at) <==> Due(m, n, steps[i].at);
  }

  /**
   In every run setting up starts each ACME entry with the stored certificate iff that lasts for
   30 days, else with the one obtained, or leaves it alone after a failure; so an entry it set up
   is due at that instant only if the certificate just obtained is itself that short.
   */
  lemma SetupStartsFresh(states: seq<System>, steps: seq<Step>, i: nat, k: nat)
    requires IsRun(states, steps) && i < |steps| && steps[i].Initialize?
    requires k < |states[i].manager.config| && states[i].manager.config[k].issuer.kind == "acme"
    ensures |steps[i].answers| == |states[i].manager.config|
    ensures var c, a := states[i].manager.config[k], steps[i].answers[k]; var m' := states[i + 1].manager;
      && (!SameEntry(states[i].manager, m', c.name) ==> c.name in m'.certs && StartsWith(m'.certs[c.name], c, a, steps[i].at))
      && (!SameEntry(states[i].manager, m', c.name) && m'.certs[c.name].notAfter - steps[i].at < 2_592_000_000_000_000 ==>
            a.obtained.Some? && m'.certs[c.name].installed == a.obtained
            && a.obtained.value.notAfter - steps[i].at < 2_592_000_000_000_000)
  {
    RunKeepsInv(states, steps, i);
    assert Next(states[i], steps[i], states[i + 1]);
    var config := states[i].manager.config;
    DistinctNames(config);
    SetupFromStarts(states[i].manager, steps[i].answers, steps[i].at, 0, k);
  }

  lemma DistinctNames(config: seq<CertificateConfig>)
    requires ValidConfig(config)
    ensures forall j, l :: 0 <= j < l < |config| ==> config[j].name != config[l].name
  {
    forall j, l | 0 <= j < l < |config|
      ensures config[j].name != config[l].name
    {
      assert CertificateOk(config, l);
    }
  }

  /** A step other than setting up reloads a manual entry or leaves it alone. */
  lemma ManualStep(s: System, step: Step, t: System, n: string)
    requires Inv(s) && Next(s, step, t) && !step.Initialize?
    requires n in s.manager.certs && s.manager.certs[n].issuer == "manual"
    ensures n in t.manager.certs
    ensures t.manager.certs[n] == if step.HotReload? then Reloaded(s.manager.certs[n], FileOf(step.files, n)) else s.manager.certs[n]
  {
    if step.Finish? {
      var results := s.passes[step.pass].results;
      forall i | 0 <= i < |results|
        ensures results[i].name != n
      {
        ResultsAreAcme(s, step.pass, i);
      }
      InstallChangesOnly(s.manager, results, n);
    }
  }

  /**
   However often its file is reloaded, a manual entry keeps the validity recorded when it was set up.
   */
  lemma {:induction false} ManualValidityNeverMoves(states: seq<System>, steps: seq<Step>, a: nat, b: nat, n: string)
    requires IsRun(states, steps) && a <= b < |states|
    requires forall i :: a <= i < b ==> !steps[i].Initialize?
    requires n in states[a].manager.certs && states[a].manager.certs[n].issuer == "manual"
    ensures n in states[b].manager.certs && states[b].manager.certs[n].issuer == "manual"
    ensures states[b].manager.certs[n].notBefore == states[a].manager.certs[n].notBefore
    ensures states[b].manager.certs[n].notAfter == states[a].manager.certs[n].notAfter
    decreases b
  {
    if a < b {
      ManualValidityNeverMoves(states, steps, a, b - 1, n);
      RunKeepsInv(states, steps, b - 1);
      assert !steps[b - 1].Initialize?;
      ManualStep(states[b - 1], steps[b - 1], states[b], n);
    }
  }

  /** The file that a manual entry `e` last took over these steps: loadable, and newer than what it had. */
  function LastTaken(e: Managed, steps: seq<Step>, n: string): Option<FileState> {
    if steps == [] || e.certFile == "" then None
    else
      var before, step := LastTaken(e, steps[..|steps| - 1], n), steps[|steps| - 1];
      var since := if before.Some? then before.value.modTime else e.lastMod;
      if step.HotReload? && n in step.files && step.files[n].cert.Some? && step.files[n].modTime > since
      then Some(step.files[n]) else before
  }

  /** It is the newest of the loadable files that the reloads found, if that is newer than the first. */
  lemma {:induction false} LastTakenIsNewest(e: Managed, steps: seq<Step>, n: string)
    requires e.certFile != ""
    ensures var f := LastTaken(e, steps, n);
      && (f.Some? ==> f.value.modTime > e.lastMod && f.value.cert.Some?
                      && exists i :: 0 <= i < |steps| && steps[i].HotReload? && FileOf(steps[i].files, n) == f)
      && (forall i :: 0 <= i < |steps| && steps[i].HotReload? && n in steps[i].files && steps[i].files[n].cert.Some? ==>
            steps[i].files[n].modTime <= if f.Some? then f.value.modTime else e.lastMod)
  {
    if steps != [] {
      var k := |steps| - 1;
      var before := LastTaken(e, steps[..k], n);
      LastTakenIsNewest(e, steps[..k], n);
      assert steps == steps[..k] + [steps[k]];
      if before.Some? {
        var i :| 0 <= i < k && steps[..k][i].HotReload? && FileOf(steps[..k][i].files, n) == before;
        assert steps[i].HotReload? && FileOf(steps[i].files, n) == before;
      }
      if LastTaken(e, steps, n) != before {
        assert steps[k].HotReload? && FileOf(steps[k].files, n) == LastTaken(e, steps, n);
      }
    }
  }

  /** What a manual entry holds at `b`, from what it held at `a` and the files in between. */
  ghost predicate HoldsLastTaken(was: Managed, e: Managed, taken: Option<FileState>) {
    && e.certFile == was.certFile
    && e.installed == (if taken.Some? then taken.value.cert else was.installed)
    && e.lastMod == (if taken.Some? then taken.value.modTime else was.lastMod)
  }

  lemma TakenStep(was: Managed, e: Managed, steps: seq<Step>, step: Step, n: string)
    requires e.issuer == "manual" && HoldsLastTaken(was, e, LastTaken(was, steps, n))
    ensures HoldsLastTaken(was, if step.HotReload? then Reloaded(e, FileOf(step.files, n)) else e, LastTaken(was, steps + [step], n))
  {
    assert (steps + [step])[..|steps|] == steps;
  }

  lemma HoldsStep(s: System, step: Step, t: System, was: Managed, steps: seq<Step>, n: string)
    requires Inv(s) && Next(s, step, t) && !step.Initialize?
    requires n in s.manager.certs && s.manager.certs[n].issuer == "manual"
    requires HoldsLastTaken(was, s.manager.certs[n], LastTaken(was, steps, n))
    ensures n in t.manager.certs && HoldsLastTaken(was, t.manager.certs[n], LastTaken(was, steps + [step], n))
  {
    ManualStep(s, step, t, n);
    TakenStep(was, s.manager.certs[n], steps, step, n);
  }

  /** A manual entry at `a` and what became of it at `b`, with the steps in between. */
  ghost predicate Follows(s: System, t: System, steps: seq<Step>, n: string) {
    && n in s.manager.certs && n in t.manager.certs && t.manager.certs[n].issuer == "manual"
    && HoldsLastTaken(s.manager.certs[n], t.manager.certs[n], LastTaken(s.manager.certs[n], steps, n))
  }

  lemma FollowsStep(s: System, t: System, steps: seq<Step>, step: Step, u: System, n: string)
    requires Follows(s, t, steps, n) && Inv(t) && Next(t, step, u) && !step.Initialize?
    ensures Follows(s, u, steps + [step], n)
  {
    HoldsStep(t, step, u, s.manager.certs[n], steps, n);
    ManualStep(t, step, u, n);
  }

  lemma FollowsInRun(states: seq<System>, steps: seq<Step>, a: nat, b: nat, n: string)
    requires IsRun(states, steps) && a <= b < |steps| && !steps[b].Initialize? && Follows(states[a], states[b], steps[a..b], n)
    ensures Follows(states[a], states[b + 1], steps[a..b + 1], n)
  {
    assert Inv(states[b]) by {
      RunKeepsInv(states, steps, b);
    }
    FollowsStep(states[a], states[b], steps[a..b], steps[b], states[b + 1], n);
    assert steps[a..b + 1] == steps[a..b] + [steps[b]];
  }

  lemma ManualHoldsLastTaken(states: seq<System>, steps: seq<Step>, a: nat, b: nat, n: string)
    requires IsRun(states, steps) && a <= b < |states|
    requires forall i :: a <= i < b ==> !steps[i].Initialize?
    requires n in states[a].manager.certs && states[a].manager.certs[n].issuer == "manual"
    ensures Follows(states[a], states[b], steps[a..b], n)
  {
    var i := a;
    while i < b
      invariant a <= i <= b && Follows(states[a], states[i], steps[a..i], n)
    {
      FollowsInRun(states, steps, a, i, n);
      i := i + 1;
    }
  }

  /** The recorded expiry of an entry is that of the certificate it serves. */
  predicate ExpiryRight(e: Managed) {
    e.installed.Some? && e.notAfter == e.installed.value.notAfter
  }

  /**
   Over every run without a new setup, the recorded expiry of a manual entry is right at the end
   exactly when the newest file taken holds a certificate that expires at the time recorded at
   the start, or no file was taken and it was right at the start.
   */
  lemma ManualExpiryIff(states: seq<System>, steps: seq<Step>, a: nat, b: nat, n: string)
    requires IsRun(states, steps) && a <= b < |states|
    requires forall i :: a <= i < b ==> !steps[i].Initialize?
    requires n in states[a].manager.certs && states[a].manager.certs[n].issuer == "manual"
    ensures n in states[b].manager.certs
    ensures var was := states[a].manager.certs[n]; var taken := LastTaken(was, steps[a..b], n);
      ExpiryRight(states[b].manager.certs[n]) <==>
        if taken.Some? then taken.value.cert.Some? && taken.value.cert.value.notAfter == was.notAfter else ExpiryRight(was)
  {
    ManualHoldsLastTaken(states, steps, a, b, n);
    ManualValidityNeverMoves(states, steps, a, b, n);
  }

  /** A run in which a manual certificate is replaced by one that expires later, unnoticed. */
  lemma ManualExpiryGoesStale() returns (states: seq<System>, steps: seq<Step>)
    ensures IsRun(states, steps) && "web" in states[|steps|].manager.certs
    ensures states[|steps|].manager.certs["web"].issuer == "manual" && !ExpiryRight(states[|steps|].manager.certs["web"])
  {
    var c := CertificateConfig("web", ["a.example"], Issuer("manual", None, Some(("web.pem", "web.key"))));
    var old1, new1 := Cert(1, 0, 10), Cert(2, 0, 20);
    var answer := Answer(false, None, Some(old1), true, Some(1), true);
    var files := map["web" := FileState(2, Some(new1))];
    var m0 := Manager([c], map[], {});
    var m1 := SetupFrom(m0, [answer], 0, 0).0;
    var m2 := Reload(m1, files);
    assert CertificateOk([c], 0);
    assert SetupFrom(Setup(m0, c, answer, 0).0, [answer], 0, 1).0 == Setup(m0, c, answer, 0).0;
    assert m1.certs["web"] == Managed(["a.example"], "manual", Some(old1), 0, 10, "web.pem", 1);
    states := [System(m0, []), System(m1, []), System(m2, [])];
    steps := [Initialize([answer], 0), HotReload(files)];
  }

  // ---------------------------------------------------------------- the manager

  /** The candidates among the names seen so far. */
  ghost predicate Collected(m: Manager, now: int, seen: seq<string>, picked: seq<Candidate>) {
    && (forall n :: (exists c :: 0 <= c < |picked| && picked[c].name == n) <==> n in seen && Pickable(m, n, now))
    && (forall c, d :: 0 <= c < d < |picked| ==> picked[c].name != picked[d].name)
    && (forall c :: 0 <= c < |picked| ==>
          ConfigOf(m.config, picked[c].name).Some? && picked[c].domains == ConfigOf(m.config, picked[c].name).value.domains)
  }

  lemma CollectedStep(m: Manager, now: int, seen: seq<string>, picked: seq<Candidate>, name: string, candidate: Option<Candidate>)
    requires Collected(m, now, seen, picked) && name !in seen
    requires candidate.Some? <==> Pickable(m, name, now)
    requires candidate.Some? ==> candidate.value.name == name && candidate.value.domains == ConfigOf(m.config, name).value.domains
    ensures Collected(m, now, seen + [name], if candidate.Some? then picked + [candidate.value] else picked)
  {
    if candidate.Some? {
      var more := picked + [candidate.value];
      assert forall c :: 0 <= c < |picked| ==> more[c] == picked[c];
      assert more[|picked|].name == name;
      forall n
        ensures (exists c :: 0 <= c < |more| && more[c].name == n) <==> n in seen + [name] && Pickable(m, n, now)
      {
        assert (exists c :: 0 <= c < |more| && more[c].name == n) <==> (exists c :: 0 <= c < |picked| && picked[c].name == n) || n == name;
      }
    }
  }


  class CertificateManager {
    const config: seq<CertificateConfig>
    var certificates: map<string, Managed>
    var acmeClients: set<string>

    function View(): Manager
      reads this
    {
      Manager(config, certificates, acmeClients)
    }

    constructor (config: seq<CertificateConfig>)
      requires ValidConfig(config)
      ensures View() == Manager(config, map[], {}) && Good(View())
    {
      this.config := config;
      certificates, acmeClients := map[], {};
    }

    method InitializeCertificate(c: CertificateConfig, a: Answer, now: int) returns (ok: bool)
      modifies this
      ensures (View(), ok) == Setup(old(View()), c, a, now)
    {
      var mc := Managed(c.domains, c.issuer.kind, None, ZERO_TIME, ZERO_TIME, "", ZERO_TIME);
      if c.issuer.kind == "acme" {
        if !a.client {
          return false;
        }
        acmeClients := acmeClients + {c.name};
        var cert := a.existing;
        if cert.None? || now + THIRTY_DAYS > cert.value.notAfter {
          cert := a.obtained;
          if cert.None? {
            return false;
          }
        }
        if !a.loads {
          return false;
        }
        mc := mc.(installed := cert, notBefore := cert.value.notBefore, notAfter := cert.value.notAfter);
      } else if c.issuer.kind == "manual" {
        if a.obtained.None? {
          return false;
        }
        mc := mc.(installed := a.obtained, certFile := if c.issuer.manual.Some? then c.issuer.manual.value.0 else "");
        if a.fileTime.Some? {
          mc := mc.(lastMod := a.fileTime.value);
        }
        if a.parsed {
          mc := mc.(notBefore := a.obtained.value.notBefore, notAfter := a.obtained.value.notAfter);
        }
      } else if c.issuer.kind == "self-signed" {
        if a.obtained.None? || !a.loads {
          return false;
        }
        mc := mc.(installed := a.obtained, notBefore := a.obtained.value.notBefore, notAfter := a.obtained.value.notAfter);
      } else {
        return false;
      }
      certificates := certificates[c.name := mc];
      return true;
    }

    method Initialize(answers: seq<Answer>, now: int) returns (ok: bool)
      requires |answers| == |config| && Good(View())
      modifies this
      ensures (View(), ok) == SetupFrom(old(View()), answers, now, 0) && Good(View())
    {
      SetupFromKeepsGood(View(), answers, now, 0);
      for i := 0 to |config|
        invariant SetupFrom(old(View()), answers, now, 0) == SetupFrom(View(), answers, now, i)
      {
        var done := InitializeCertificate(config[i], answers[i], now);
        if !done {
          return false;
        }
      }
      return true;
    }

    /** Looks at one entry: it is a candidate iff it is due and has a client and a configuration. */
    method Candidacy(name: string, now: int) returns (candidate: Option<Candidate>)
      requires name in certificates
      ensures candidate.Some? <==> Pickable(View(), name, now)
      ensures candidate.Some? ==>
        candidate.value.name == name && candidate.value.domains == ConfigOf(config, name).value.domains
    {
      var mc := certificates[name];
      if mc.issuer != "acme" {
        return None;
      }
      if mc.notAfter - now >= THIRTY_DAYS {
        return None;
      }
      if name !in acmeClients {
        return None;
      }
      var c := ConfigOf(config, name);
      if c.None? {
        return None;
      }
      return Some(Candidate(name, c.value.domains));
    }

    /** Phase one, in any order of the map; the lock is only held here. */
    method CollectCandidates(order: seq<string>, now: int) returns (picked: seq<Candidate>)
      requires forall n :: n in order <==> n in certificates
      requires forall i, j :: 0 <= i < j < |order| ==> order[i] != order[j]
      ensures PickedFrom(View(), now, picked)
    {
      picked := [];
      for i := 0 to |order|
        invariant Collected(View(), now, order[..i], picked)
      {
        var candidate := Candidacy(order[i], now);
        CollectedStep(View(), now, order[..i], picked, order[i], candidate);
        assert order[..i + 1] == order[..i] + [order[i]];
        if candidate.Some? {
          picked := picked + [candidate.value];
        }
      }
      assert order[..|order|] == order;
    }

    /**
     The certificate for a server name, for every order of the map: once the manager holds an
     entry a handshake always gets one, and one that covers the name if there is any.
     */
    method CertificateFor(first: seq<string>, second: seq<string>, serverName: string) returns (cert: Option<Cert>)
      requires Good(View()) && Visits(Entries(View()), first) && Visits(Entries(View()), second)
      ensures cert.None? <==> certificates == map[]
      ensures cert.Some? ==>
        exists n :: n in certificates && certificates[n].installed == cert && BestChoice(Entries(View()), n, serverName)
    {
      cert := SelectCertificate(Entries(View()), first, second, serverName);
      assert certificates != map[] ==> exists n :: n in certificates;
      assert forall n :: n in certificates ==> EntryOk(View(), n);
    }

    /** Phase three, under the write lock. */
    method InstallRenewed(results: seq<Renewed>)
      modifies this
      ensures View() == Install(old(View()), results)
    {
      for i := 0 to |results|
        invariant View() == Install(old(View()), results[..i])
      {
        var r := results[i];
        assert results[..i + 1][..i] == results[..i];
        if r.name !in certificates {
          continue;
        }
        var mc := certificates[r.name];
        mc := mc.(installed := Some(r.cert));
        mc := mc.(notBefore := r.cert.notBefore, notAfter := r.cert.notAfter);
        certificates := certificates[r.name := mc];
      }
      assert results[..|results|] == results;
    }

    method CheckHotReload(order: seq<string>, files: map<string, FileState>)
      requires forall n :: n in order <==> n in certificates
      requires forall i, j :: 0 <= i < j < |order| ==> order[i] != order[j]
      modifies this
      ensures View() == Reload(old(View()), files)
    {
      ReloadAlongAll(View(), files, order);
      certificates := ReloadInOrder(certificates, order, files);
    }
  }

  /** One entry: only a manual certificate whose file is newer and loads is replaced. */
  method CheckFile(e: Managed, file: Option<FileState>) returns (mc: Managed)
    ensures mc == Reloaded(e, file)
  {
    mc := e;
    if mc.issuer != "manual" || mc.certFile == "" {
      return;
    }
    if file.None? {
      return;
    }
    if file.value.modTime > mc.lastMod {
      if file.value.cert.None? {
        return;
      }
      mc := mc.(installed := file.value.cert);
      mc := mc.(lastMod := file.value.modTime);
    }
  }

  /** The loop over the entries, in the order that the map yields. */
  method ReloadInOrder(was: map<string, Managed>, order: seq<string>, files: map<string, FileState>)
    returns (certs: map<string, Managed>)
    requires forall n :: n in order ==> n in was
    ensures certs == ReloadAlong(was, files, order)
  {
    certs := was;
    for i := 0 to |order|
      invariant certs == ReloadAlong(was, files, order[..i])
    {
      var name := order[i];
      assert name in was && order[..i + 1][..i] == order[..i];
      var mc := CheckFile(certs[name], FileOf(files, name));
      certs := certs[name := mc];
    }
    assert order[..|order|] == order;
  }

  /** The certificates obtained for the candidates, in their order. */
  function Obtained(picked: seq<Candidate>, answers: seq<Option<Cert>>): seq<Renewed>
    requires |answers| == |picked|
  {
    if picked == [] then []
    else
      var n := |picked| - 1;
      Obtained(picked[..n], answers[..n]) + if answers[n].Some? then [Renewed(picked[n].name, answers[n].value)] else []
  }

  /** Phase two: without a lock, one attempt per candidate; failures are skipped. */
  method ObtainRenewals(picked: seq<Candidate>, answers: seq<Option<Cert>>) returns (results: seq<Renewed>)
    requires |answers| == |picked|
    ensures results == Obtained(picked, answers)
    ensures forall r :: r in results <==>
      exists c :: 0 <= c < |picked| && answers[c] == Some(r.cert) && picked[c].name == r.name
  {
    results := [];
    for i := 0 to |picked|
      invariant results == Obtained(picked[..i], answers[..i])
      invariant forall r :: r in results <==> exists c :: 0 <= c < i && answers[c] == Some(r.cert) && picked[c].name == r.name
    {
      assert picked[..i + 1][..i] == picked[..i] && answers[..i + 1][..i] == answers[..i];
      if answers[i].None? {
        continue;
      }
      results := results + [Renewed(picked[i].name, answers[i].value)];
    }
    assert picked[..|picked|] == picked && answers[..|answers|] == answers;
  }
}
