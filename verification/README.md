# NovaEdge: verified configuration and certificate core

A Dafny model of the parts of NovaEdge that decide where traffic goes and which certificates are
served, with proofs of what they promise. `dafny verify dfyconfig.toml` checks everything.

- **Routes.** `RouteTranslation` turns nested routes into the flat entry list that is pushed to the
  dataplane. `RouteMeaning` proves that the fan-out keeps first-match meaning under every way of
  comparing hosts, paths, methods and patterns. `EntryNames` says exactly when entry names are
  distinct, and `DataplaneRouter` says exactly when the dataplane, which files entries by name and
  rebuilds its router in hash order without header tests, follows the list.
- **The standalone pipeline.** `StandaloneConfig` validates, `Converter` makes the snapshot,
  `Translator` makes the request, and `Pipeline` composes them: references close across all passes
  and each configured route keeps its meaning and its action. `StandaloneRouting` goes on to the
  running router and says, in terms of the file, when a request is served by the first route that
  matches. `ConfigWatch` carries this to a running node: whenever it reports ready, the request its
  dataplane holds is closed.
- **The ACME file store.** `DomainCodec` measures how lossy the directory names are, and `FileStore`
  proves store histories and the two-phase listing under every interleaving.
- **Certificate lifecycles.** `RenewalManager` and `NextRenewal` for the renewal loop, `CertManager`
  for the three-phase renewal with any number of overlapping passes, `SniSelection` for the choice by
  server name.
- **Load balancing.** `Turns` and `Maglev`: filling the Maglev table terminates, and every backend
  gets the slots its weight is due, whatever the hashes are.
- **Controllers.** `ListenerConflicts`, `GenerationCheck`, `IngressTranslation`, `GrpcBackends`, and
  `MeshPorts` for the canonical port list.

Loops and objects of the source are methods and classes here, each proved against a function or a
relation; lemmas prove what the source promises about those. Concurrency is a step relation, and
the results hold for every run. Clocks, files, the network, issuance and map iteration order are
parameters or free choices.

## Results that differ from what one might expect

Each of these is stated as an exact condition. The rows of the model table name the concrete inputs
and runs that show a failing case.

- A match with a pattern header, or a route with an expression, does not keep its meaning
  (`MatchKeepsMeaningIff`, `ExpressionIsDropped`).
- The dataplane follows the order of the list only for requests that at most one entry takes
  (`RouterFollowsListIff`, and in terms of the file `NodeServesFirstRouteIff`). A path pattern that
  does not compile leaves the path unconstrained, while the log line beside it says that the route
  will never match; the model follows the code.
- Validation accepts two routes of one name, and the dataplane then keeps one (`EntriesDistinctIff`).
- Two domains share a store directory iff they decode alike (`ShareDirectoryIff`), and a domain with
  neighbouring separators is stored but never listed (`ListedIff`). Deleting the empty domain removes
  the whole store.
- After a failed push, polling an unchanged file never pushes again (`FailedPushIsRetriedIff`). A
  failed initial push ends the watcher.
- A ready node in mid-reload need not serve what it has stored (`ServesStoredIff`).
- The recorded expiry of a manual certificate does not follow its file (`ManualExpiryIff`).
- A status write that is reported as failed although it took effect loses its configuration update
  (`TriggeredIff`).
- A renewal loop can outlive its run and stop the next one (`OneLoopIff`, `CanBeOverrunIff`,
  shown by `StaleLoopStopsNewRun`).
- The next renewal time forgets an instant that equals the zero time (`NextRenewalAgreesIff`).
- gRPC backends of different namespaces can collide (`AllResolveIff`).

## Model

| member | source | states |
|---|---|---|
| `RouteTranslation.ApplyRouteFilters` | internal/dataplane/translator.go:292-304 | the first rewrite filter with a path and the first add-header filter with headers decide; the rewrite is empty iff no filter asks for one, and the headers iff no filter brings any |
| `RouteTranslation.TranslateMatch` | internal/dataplane/translator.go:229-252 | path kind and value, every header name and value in order, and the method if any; no match gives hosts only |
| `RouteTranslation.TranslateAction` | internal/dataplane/translator.go:254-283 | backends in order with wrapped weights, clamped retry times, positive timeout only, filters, mirror cluster and its percentage default of 100 |
| `RouteTranslation.ActionMeans` | internal/dataplane/translator.go:254-304 | every field of the action in terms of the rule: backends and wrapped weights, timeout, rewrite and headers empty iff no filter asks, mirror and its percentage |
| `RouteTranslation.RetryMeans` | internal/dataplane/translator.go:263-275 | retries arrive as they are, with negative times as zero and a negative count wrapped |
| `RouteTranslation.TranslateRouteRule` | internal/dataplane/translator.go:215-289 | one entry per match in order, or one unconditional entry, with its name spelled out |
| `RouteTranslation.TranslateRoutes` | internal/dataplane/translator.go:306-319 | the flat list is the concatenation of the entries of all rules of all routes in order |
| `RouteTranslation.FirstRewriteIs` | internal/dataplane/translator.go:294-296 | an earlier eligible rewrite filter wins over all later ones |
| `RouteTranslation.HeaderMapKeys` | internal/dataplane/translator.go:297-302 | the added headers are exactly those the deciding filter names |
| `RouteTranslation.HeaderMapValue` | internal/dataplane/translator.go:299-301 | a header named twice carries its last value |
| `RouteMeaning.FanOutKeepsMeaning` | internal/dataplane/translator.go:215-319 | for all plain routes, readings and requests, the flat list has a first match iff some rule matches, and it comes from the first such rule with its hosts and its whole action |
| `RouteMeaning.MatchKeepsMeaningIff` | internal/dataplane/translator.go:236-252 | the header match type is dropped: one match keeps its meaning under every reading iff it has no pattern header |
| `RouteMeaning.ExpressionIsDropped` | internal/dataplane/translator.go:229-233 | the routing expression is not read: a route with a rule keeps its meaning under every reading iff it has no expression |
| `RouteMeaning.RuleEntriesHold` | internal/dataplane/translator.go:216-252 | some entry of a rule takes a request iff the host matches and some match of the rule does, or the rule has none |
| `Strings.DigitsReadBack` | internal/dataplane/translator.go:224-227 | a printed index reads back as the number and has no leading zero |
| `EntryNames.EntryNameInjective` | internal/dataplane/translator.go:224-227 | a generated entry name determines route name, rule index and match index, whatever characters the route name holds |
| `EntryNames.RoutesDisjointIff` | internal/dataplane/translator.go:224-227 | two routes share an entry name iff they share their name and name some rule index the same way |
| `EntryNames.NamesDistinctIff` | internal/dataplane/translator.go:222-227 | entry names are pairwise distinct over the whole list iff no two routes clash |
| `EntryNames.DistinctRoutesDistinctEntries` | internal/dataplane/translator.go:306-319 | distinct route names suffice |
| `DataplaneRouter.ApplyFull` | dataplane/novaedge-dataplane/src/config.rs:390-416 | a full update leaves exactly the new entries by name, whatever the table held before |
| `DataplaneRouter.ByNameFinds` | dataplane/novaedge-dataplane/src/config.rs:414-416 | with distinct names no entry is lost in the table |
| `DataplaneRouter.RouterFollowsListIff` | dataplane/novaedge-dataplane/src/server.rs:73-131 | for a request, the rebuilt router picks the first entry of the list under every hash order iff at most one entry takes the request |
| `DataplaneRouter.RouterReadsTestIff` | dataplane/novaedge-dataplane/src/server.rs:75-123 | the router applies the test of an entry under every reading iff it has no header test and its path test is non-empty, of a stated kind and compiles |
| `DataplaneRouter.DataplaneKeepsMeaning` | dataplane/novaedge-dataplane/src/proxy/router.rs:166-219 | from nested routes to the running router: under the conditions above it performs the action of the first rule that matches |
| `StandaloneConfig.ValidateIssuer` | internal/standalone/config.go:946-971 | accepts exactly the three issuer kinds with the settings each needs |
| `StandaloneConfig.ValidateCertificates` | internal/standalone/config.go:924-943 | success iff every certificate is named, unique, has a domain and a good issuer; the error is the first bad index; the names collected |
| `StandaloneConfig.ValidateListeners` | internal/standalone/config.go:974-999 | success iff every listener is in order and its certificate known; the error is the first bad index |
| `StandaloneConfig.ValidateBackends` | internal/standalone/config.go:1002-1018 | success iff backend names are non-empty and unique and every backend has an endpoint; the error is the first bad index |
| `StandaloneConfig.ValidateRoutes` | internal/standalone/config.go:1021-1036 | success iff every route is named, has a backend and only known ones; the error is the first bad index |
| `StandaloneConfig.Validate` | internal/standalone/config.go:1039-1059 | no error iff the configuration is accepted as a whole; otherwise the error of the first section at fault, at its first bad item |
| `StandaloneConfig.AcceptedIff` | internal/standalone/config.go:924-1059 | acceptance written out over the whole configuration, with nothing else asked for |
| `StandaloneConfig.IssuerOkIff` | internal/standalone/config.go:946-971 | the three usable issuer kinds and what each needs |
| `Converter.ParsesHostPort` | internal/standalone/converter.go:548-557 | host and port come apart at a single colon; an unreadable port is zero |
| `Converter.ParsesHostAlone` | internal/standalone/converter.go:548-558 | an address without a colon keeps its text and gets port 80 |
| `Converter.ParsesManyColons` | internal/standalone/converter.go:548-558 | an address with several colons is taken whole, on port 80 |
| `Converter.ConvertRouteFilters` | internal/standalone/converter.go:433-459 | each filter converts by its kind; the headers of a Go map come out once each in any order |
| `Converter.ConvertRoute` | internal/standalone/converter.go:278-371 | one rule; one match iff there is a condition; weights clamped with zero as one; mirror percentage default |
| `Converter.ConvertedRoute` | internal/standalone/converter.go:278-371 | the fields of a converted route in the terms of the file, among them which headers are patterns |
| `Converter.ConvertedFilter` | internal/standalone/converter.go:433-459 | the kind, the rewrite and the headers of a converted filter |
| `Converter.ConvertRoutes` | internal/standalone/converter.go:275-375 | one converted route per configured route, in order |
| `Converter.ListsHeaderMap` | internal/standalone/converter.go:441-447 | whatever the iteration order, the header map that results is the configured one |
| `Converter.ConvertBackends` | internal/standalone/converter.go:461-545 | one cluster per backend in order, and the endpoint map keyed by namespace and name |
| `Converter.EndpointMapFinds` | internal/standalone/converter.go:523-541 | with distinct backend names each key finds the endpoints of its own backend |
| `Converter.ToSnapshot` | internal/standalone/converter.go:76-129 | routes, clusters and endpoints of the snapshot are those of the configuration |
| `Translator.TranslateClusters` | internal/dataplane/translator.go:340-368 | each cluster has exactly the endpoints under its key, each with its address, wrapped port, readiness, and weight zero as one |
| `Translator.TranslateSnapshot` | internal/dataplane/translator.go:112-133 | routes and clusters of the request are the translations of those of the snapshot |
| `Pipeline.EntryOfRoute` | internal/standalone/converter.go:362-371 | each configured route becomes exactly one entry, at its own index |
| `Pipeline.PipelineCloses` | internal/standalone/config.go:1002-1059 | for every accepted configuration every backend reference of every entry names exactly one cluster, which serves that backend's endpoints one for one in order, and weighs at least one |
| `Pipeline.BackendBecomesCluster` | internal/dataplane/translator.go:354-368 | every backend becomes the only cluster of its name, with its non-empty endpoint list in order, healthy, weights at least one |
| `Pipeline.EntriesDistinctIff` | internal/standalone/config.go:1021-1036 | no configured route is lost in the dataplane's table iff route names are distinct, which validation does not require |
| `Pipeline.AcceptedWithSharedName` | internal/standalone/config.go:1021-1036 | a configuration with two routes of one name is accepted |
| `Pipeline.PipelineKeepsMeaning` | internal/standalone/converter.go:275-375 | the i-th configured route is the first that matches iff the i-th entry is, for every reading and request |
| `Pipeline.ActionReaches` | internal/dataplane/translator.go:261-283 | middleware, timeout, retry and mirror arrive as configured, with their clamps and defaults |
| `Pipeline.RewriteReaches` | internal/dataplane/translator.go:292-296 | the first configured rewrite with a path arrives |
| `Pipeline.AddedHeadersReach` | internal/dataplane/translator.go:297-302 | the map of the first non-empty add-header filter arrives unchanged |
| `Pipeline.NothingAddedIff` | internal/dataplane/translator.go:292-304 | a configured route arrives without a rewrite iff no filter of it asks for one, and without headers iff none brings any |
| `StandaloneRouting.RouterReadsConfig` | dataplane/novaedge-dataplane/src/server.rs:75-123 | for a route without headers or expression and with a usable path, the running router takes a request iff the configured route matches it |
| `StandaloneRouting.NodeServesFirstRouteIff` | dataplane/novaedge-dataplane/src/server.rs:73-131 | from the file to the running router: with such routes and distinct names, a request is served by the first configured route that matches, under every hash order, iff no two configured routes match it |
| `ConfigWatch.ConfigWatcher.LoadAndApply` | internal/standalone/watcher.go:160-196 | a failed read, parse or validation changes nothing; otherwise hash, configuration and snapshot of one text are stored and readiness follows the push |
| `ConfigWatch.ConfigWatcher.HasChanged` | internal/standalone/watcher.go:199-210 | a text that loaded the stored configuration never counts as changed, with an injective hash every other text does, and an unreadable file does not |
| `ConfigWatch.ConfigWatcher.Tick` | internal/standalone/watcher.go:147-154 | a poll changes nothing unless the hash differs and the file then loads; if so it is a full reload of the second read |
| `ConfigWatch.StoredIsConsistent` | internal/standalone/watcher.go:163-184 | in every run hash, configuration and snapshot come from one text that parsed and validated |
| `ConfigWatch.ReadyMeansServed` | cmd/novaedge-standalone/main.go:161-176 | in every run a ready node's dataplane holds the translation of the stored snapshot, or, during a reload, of the one marked before |
| `ConfigWatch.ReadyMeansClosed` | internal/dataplane/translator.go:76-108 | in every run every backend reference held by a ready node's dataplane names exactly one cluster with an endpoint |
| `ConfigWatch.ServesStoredIff` | cmd/novaedge-standalone/main.go:161-176 | in every state of every run a ready node serves what it has stored iff no reload is under way, or its push succeeded or failed after it took effect, or the new file translates to the request marked before |
| `ConfigWatch.ReadyButBehind` | internal/standalone/watcher.go:179-195 | a run that ends in a ready node which does not serve what it has stored |
| `ConfigWatch.PollSkipsOnlySame` | internal/standalone/watcher.go:147-154 | in every run a skipped poll saw the very text that was loaded, given an injective hash |
| `ConfigWatch.FailedPushIsRetriedIff` | internal/standalone/watcher.go:117-196 | in every run and up to every state after a failed push, the watcher stores and pushes again iff there was a file event, or a poll that read another hash than that of the failed text, and the file then loaded; until then nothing changes |
| `ConfigWatch.UnchangedFileIsNotRetried` | internal/standalone/watcher.go:147-209 | a run in which a push fails, a poll sees the same text, and the node stays not ready |
| `DomainCodec.DecodeEncode` | internal/acme/storage.go:245-246 | decoding an encoded domain gives what decoding the domain itself gives |
| `DomainCodec.NoStraddle` | internal/acme/storage.go:374-377 | an occurrence of the word in an expanded name comes whole from a star or was there before |
| `DomainCodec.Reencode` | internal/acme/storage.go:245-246 | re-encoding a decoded directory name gives that directory, for every name without dot or star |
| `DomainCodec.ShareDirectoryIff` | internal/acme/storage.go:373-379 | two domains share a directory iff they decode to the same text |
| `DomainCodec.SharedDirectory` | internal/acme/storage.go:373-379 | a.b and a_b share a directory, and a_b does not come back |
| `DomainCodec.RoundTripIff` | internal/acme/storage.go:373-379 | the round trip returns the domain iff it has no underscore and no occurrence of the word wildcard |
| `DomainCodec.EncodeInjective` | internal/acme/storage.go:373-379 | on such domains the encoding is injective |
| `DomainCodec.ListedIff` | internal/acme/storage.go:358-368 | the decoded name of a valid domain passes validation iff the domain has no two neighbouring separators |
| `DomainCodec.ValidDomainIff` | internal/acme/storage.go:358-368 | refused are a slash, a backslash or a NUL at any index and two neighbouring dots, and nothing else |
| `DomainCodec.EncodesPathElement` | internal/acme/storage.go:358-379 | the directory name of an accepted domain has no separator, no NUL and no dot, so it stays below the store |
| `DomainCodec.EncodedExample` | internal/acme/storage.go:373-379 | *.b is stored as wildcard_b |
| `DomainCodec.StoredButNotListed` | internal/acme/storage.go:358-368 | a._b is stored and its directory name does not pass the validation of a listing |
| `FileStore.FileStorage.SaveCertificate` | internal/acme/storage.go:67-131 | refuses exactly the domains with a separator, a NUL or two neighbouring dots; a write that fails leaves what was written by then; otherwise the files of exactly one directory are written, the chain only if there is one |
| `FileStore.FaultLeaves` | internal/acme/storage.go:67-131 | a save that failed has written the files before the fault, left those after it as they were, and touched no other directory |
| `FileStore.FileStorage.LoadCertificate` | internal/acme/storage.go:143-204 | refuses exactly such domains, fails on a missing file, else returns what the files hold with parsed times |
| `FileStore.FileStorage.DeleteCertificate` | internal/acme/storage.go:207-224 | refuses exactly such domains, else removes the directory of the domain, and everything for the empty domain |
| `FileStore.LastSaveLoads` | internal/acme/storage.go:67-204 | in every history loading returns certificate, key and metadata of the last save, times cut to seconds, or the zero time for a year outside 0 to 9999 |
| `FileStore.ChainOfLastSaveWithOne` | internal/acme/storage.go:98-104 | the loaded chain is that of the last save that carried one, even if later saves carried none |
| `FileStore.NoChainWithoutSave` | internal/acme/storage.go:166-168 | with no such save since a wipe, or ever, the chain is empty |
| `FileStore.WipedDoesNotLoad` | internal/acme/storage.go:207-217 | a directory wiped or never saved to does not load |
| `FileStore.DistinctDomainsDoNotInterfere` | internal/acme/storage.go:373-379 | operations on other round-tripping domains leave what a domain loads unchanged |
| `FileStore.RunFrame` | internal/acme/storage.go:66-224 | operations that do not touch a directory leave it as it is, over any run |
| `FileStore.CollectDomains` | internal/acme/storage.go:240-248 | phase one decodes every scanned name in order |
| `FileStore.LoadListed` | internal/acme/storage.go:251-265 | phase two returns the loads that succeed, in order, each against the tree of its moment |
| `FileStore.ListingSlot` | internal/acme/storage.go:227-266 | for every interleaving, an untouched certificate is loaded iff its domain has no neighbouring separators, else its slot is a validation error |
| `FileStore.ListingMissesNothing` | internal/acme/storage.go:227-266 | for every interleaving of saves and deletes, a certificate present at the scan and untouched is returned |
| `FileStore.ListedSound` | internal/acme/storage.go:253-263 | every returned certificate was on disk when it was loaded |
| `FileStore.ListingLoadsOnce` | internal/acme/storage.go:241-248 | no directory is loaded twice by a listing |
| `FileStore.DirectoriesAreEncodings` | internal/acme/storage.go:358-379 | every directory of every run is a single non-empty path element without dot or star |
| `RenewalManager.Renewals.Start` | internal/acme/renewal.go:72-81 | makes a fresh open channel and once-guard unless already running |
| `RenewalManager.Renewals.Stop` | internal/acme/renewal.go:100-113 | afterwards nothing runs and every channel is closed exactly once |
| `RenewalManager.ChannelsAreSafe` | internal/acme/renewal.go:72-143 | in every run no channel is closed twice, running iff the current channel is open, and when not running all channels are closed |
| `RenewalManager.StoppedLoopsCanLeave` | internal/acme/renewal.go:127-136 | while stopped, every waiting loop can take its exit case, and so can every loop that is about to wait |
| `RenewalManager.OneLoopIff` | internal/acme/renewal.go:72-96 | a run never has two live loops iff every effective start comes after the earlier loops exited |
| `RenewalManager.CanBeOverrunIff` | internal/acme/renewal.go:72-143 | in every reachable state of a running manager, some continuation without a call to stop lets a loop stop it while the context it was started with is alive, iff some loop other than the newest has not exited |
| `RenewalManager.StaleLoopStopsNewRun` | internal/acme/renewal.go:123-143 | a run in which an old loop joins a restarted manager and stops it when its own context ends |
| `NextRenewal.GetNextRenewalTime` | internal/acme/renewal.go:222-241 | the scan with a zero sentinel |
| `NextRenewal.NeedingRenewal` | internal/acme/client.go:333-349 | picks exactly the certificates whose threshold is reached, each once and in order |
| `NextRenewal.EarliestIsMinIff` | internal/acme/renewal.go:232-238 | the reported time is the minimum iff the minimum is not the zero time or the last instant is |
| `NextRenewal.NextRenewalAgreesIff` | internal/acme/renewal.go:222-241 | the reported time is before now iff some certificate needs renewal, exactly unless a zero instant was forgotten |
| `NextRenewal.DueButForgotten` | internal/acme/renewal.go:232-238 | a due certificate that the reported time does not show |
| `SniSelection.SuffixIffLabels` | internal/standalone/cert_manager.go:611-627 | the suffix test on strings is the left-most-label wildcard on dot-separated labels |
| `SniSelection.MatchDomain` | internal/standalone/cert_manager.go:606-630 | true iff equal, or the wildcard has as many labels, equal after the first, and the first is not empty |
| `SniSelection.SelectCertificate` | internal/standalone/cert_manager.go:353-386 | for every iteration order a covering certificate if any, else any loaded one, and none iff none is loaded |
| `CertManager.CertificateManager.InitializeCertificate` | internal/standalone/cert_manager.go:126-327 | sets one certificate up by issuer kind, with the client registered before issuance |
| `CertManager.AcmeSetupMeans` | internal/standalone/cert_manager.go:191-228 | setting an ACME certificate up succeeds iff client, certificate and load do, and installs the stored one iff it lasts for 30 days, else the one obtained |
| `CertManager.OtherSetupMeans` | internal/standalone/cert_manager.go:233-327 | what manual and self-signed entries start with: certificate, validity, file and file time |
| `CertManager.SetupStartsFresh` | internal/standalone/cert_manager.go:112-228 | in every run an ACME entry just set up is due at that instant only if the certificate just obtained is itself that short |
| `CertManager.CertificateManager.Initialize` | internal/standalone/cert_manager.go:112-123 | sets certificates up in order, stops at the first failure and keeps the manager good |
| `CertManager.CertificateManager.CollectCandidates` | internal/standalone/cert_manager.go:434-474 | for every iteration order, picks exactly the due ACME entries that have a client and a configuration, each once |
| `CertManager.ObtainRenewals` | internal/standalone/cert_manager.go:480-510 | keeps exactly the issuances that succeeded, in order and under their names |
| `CertManager.CertificateManager.InstallRenewed` | internal/standalone/cert_manager.go:516-533 | installs the results in order into entries that still exist |
| `CertManager.CertificateManager.CheckHotReload` | internal/standalone/cert_manager.go:537-574 | replaces exactly the manual entries whose file is newer and loads |
| `CertManager.CertificateManager.CertificateFor` | internal/standalone/cert_manager.go:353-386 | a manager with an entry always yields a certificate, a covering one if there is any |
| `CertManager.RunKeepsInv` | internal/standalone/cert_manager.go:112-574 | in every run with overlapping renewals all entries are loaded, ACME entries have client and configuration, and ACME and self-signed validity is that of the installed certificate |
| `CertManager.RunPicksExactlyDue` | internal/standalone/cert_manager.go:437-472 | in every run phase one picks exactly the ACME entries with under 30 days left, the 30 days written as nanoseconds, and asks for the domains they serve |
| `CertManager.FinishChangesOnlyRenewed` | internal/standalone/cert_manager.go:431-534 | in every run, however passes overlap, the end of a pass changes an entry of whatever issuer only if that pass picked it when it was due and then obtained the certificate that is now in place |
| `CertManager.EntryChangesOnlyIf` | internal/standalone/cert_manager.go:431-574 | in every run an entry changes only by a new setup, by the reload of a manual certificate, or by a pass that renewed it when it was due |
| `CertManager.InstallInstalls` | internal/standalone/cert_manager.go:520-527 | each result ends up installed with its own validity and the entry's domains |
| `CertManager.ManualValidityNeverMoves` | internal/standalone/cert_manager.go:551-567 | over every run without a new setup a manual entry keeps the validity recorded at first, whatever is reloaded |
| `CertManager.ManualExpiryIff` | internal/standalone/cert_manager.go:537-574 | over every run without a new setup the recorded expiry of a manual entry is right at the end iff the last file taken holds a certificate that expires at the time recorded at the start, or no file was taken and it was right at the start |
| `CertManager.LastTakenIsNewest` | internal/standalone/cert_manager.go:551-567 | the last file taken is the newest loadable one that the reloads found, if that is newer than the first |
| `CertManager.ManualExpiryGoesStale` | internal/standalone/cert_manager.go:551-567 | a run after which a manual entry reports another expiry than that of its certificate |
| `ListenerConflicts.ValidateListeners` | internal/controller/gateway_controller.go:212-334 | the error table, and for every listener whether it is in conflict, or accepted because its protocol is one of four |
| `ListenerConflicts.ConflictIff` | internal/controller/gateway_controller.go:227-252 | a conflict in terms of the listeners before on the port, and the message reported for it |
| `ListenerConflicts.NoConflictIff` | internal/controller/gateway_controller.go:227-252 | no conflict is found iff no two listeners of one port differ in protocol or share a hostname |
| `ListenerConflicts.ReportProgrammed` | internal/controller/gateway_controller.go:182-186 | Programmed iff all listeners are pairwise compatible |
| `ListenerConflicts.AcceptedAreApart` | internal/controller/gateway_controller.go:243-267 | two accepted listeners never share port and hostname |
| `GenerationCheck.Reconciler.Reconcile` | internal/controller/config.go:61-100 | one reconcile: when it reports failure, what it records, and the one trigger after a recorded success |
| `GenerationCheck.ObservedIsMonotone` | internal/controller/proxyroute_controller.go:127-134 | in every run the persisted observed generation never decreases and never passes the generation |
| `GenerationCheck.TriggersAreSound` | internal/controller/config.go:83-99 | in every run triggers have strictly increasing generations, each recorded free of errors |
| `GenerationCheck.FailedGenerationNeverTriggers` | internal/controller/proxyroute_controller.go:116-138 | a generation recorded with errors is never triggered |
| `GenerationCheck.LostUpdate` | internal/controller/config.go:83-96 | a status write that took effect but reported an error leaves its generation done, and it is never triggered however the run goes on |
| `GenerationCheck.TriggeredIff` | internal/controller/config.go:83-99 | in every run a generation recorded free of errors has been triggered, or is about to be, iff no status write for it was reported as failed after it took effect |
| `GenerationCheck.RecordedButLost` | internal/controller/config.go:83-96 | a run whose generation is recorded free of errors and never triggered |
| `IngressTranslation.BackendNameInjective` | internal/controller/ingress_translator.go:632-634 | a backend name determines Ingress name, rule and path |
| `IngressTranslation.DefaultNameIsApart` | internal/controller/ingress_translator.go:636-638 | the default name is never a path's name, for any two Ingresses |
| `IngressTranslation.IngressesAreApart` | internal/controller/ingress_translator.go:632-638 | two Ingress names never generate a common backend name |
| `IngressTranslation.CollectBackends` | internal/controller/ingress_translator.go:204-225 | the routes of the HTTP rules in order, and the table of all path backends |
| `IngressTranslation.TableSize` | internal/controller/ingress_translator.go:217-224 | the table holds as many backends as there are HTTP paths |
| `IngressTranslation.Translate` | internal/controller/ingress_translator.go:195-242 | for every map order: distinct names, every path's backend present, and a count of paths plus the default |
| `IngressTranslation.ReferencesClose` | internal/controller/ingress_translator.go:393-443 | every reference names exactly one backend, which lies in the namespace of the Ingress and carries the service and the port of that very path |
| `IngressTranslation.DefaultCloses` | internal/controller/ingress_translator.go:232-239 | the default backend is there once and carries its own service and port |
| `IngressTranslation.RouteMeans` | internal/controller/ingress_translator.go:393-421 | the k-th route comes from the k-th HTTP rule, with its host or none, and one named reference per path |
| `GrpcBackends.TranslateRule` | internal/controller/gatewayapi_translator.go:641-671 | an empty rule is an error; otherwise each reference in order, with its generated name and its namespace, port and weight defaults spelled out |
| `Strings.DecimalReadsBack` | internal/controller/gatewayapi_translator.go:504-506 | a printed port reads back as the number, with its sign in front if it is negative |
| `GrpcBackends.SameNamespaceNamesIff` | internal/controller/gatewayapi_translator.go:504-506 | in one namespace two generated names are equal iff service and port are, or a negative port meets a trailing dash |
| `GrpcBackends.NamesCollideAcrossNamespaces` | internal/controller/gatewayapi_translator.go:504-506 | across namespaces two different targets can share a name |
| `GrpcBackends.CollectRefs` | internal/controller/grpcroute_controller.go:215-233 | service references and no others by generated name, the last one winning |
| `GrpcBackends.ReconcileBackends` | internal/controller/grpcroute_controller.go:235-311 | succeeds iff every collected service exists and every backend object can be read and written, and then every collected name has its backend; nothing else changes and nothing else is made |
| `GrpcBackends.AllResolveIff` | internal/controller/grpcroute_controller.go:212-286 | among references of any kinds, every service reference resolves to its own backend iff generated names tell service targets apart |
| `GrpcBackends.OneNamespaceResolves` | internal/controller/grpcroute_controller.go:212-286 | service references into one namespace with non-negative ports are told apart by their names, so they all resolve |
| `GrpcBackends.TranslateRoute` | internal/controller/gatewayapi_translator.go:521-529 | succeeds iff no rule is without references, and then translates every rule |
| `GrpcBackends.Reconcile` | internal/controller/grpcroute_controller.go:102-130 | translation and backends together: on success, if names tell targets apart, every translated service reference is found among the resulting backends with its own service and port |
| `MeshPorts.CollectPorts` | internal/dataplane/translator.go:799-811 | each wanted non-zero port exactly once |
| `MeshPorts.TranslateMeshConfig` | internal/dataplane/translator.go:784-822 | strictly increasing, exactly the wanted ports, enabled iff non-empty, permissive iff enabled, and the identity of the TLS section or an empty one |
| `MeshPorts.InterceptsIff` | internal/dataplane/translator.go:797-812 | a port is intercepted iff it is not zero and some mesh-enabled service has the number that wraps to it |
| `MeshPorts.MeshIsCanonical` | internal/dataplane/translator.go:789-819 | two configurations are equal iff the identity is the same and the same ports are wanted |
| `MeshPorts.ReorderingChangesNothing` | internal/dataplane/translator.go:797-819 | permuting or duplicating services or ports leaves the result unchanged |
| `Maglev.Reaches` | dataplane/novaedge-dataplane/src/lb/maglev.rs:66-73 | the table size is prime, so every slot is on the preference list of every entry |
| `Maglev.TableSizeIsPrime` | dataplane/novaedge-dataplane/src/lb/maglev.rs:10-11 | 65537 is prime |
| `Maglev.Expand` | dataplane/novaedge-dataplane/src/lb/maglev.rs:45-59 | as many entries as the backends weigh together, each backend counting at least one |
| `Maglev.ExpansionMeans` | dataplane/novaedge-dataplane/src/lb/maglev.rs:45-59 | where the r-th entry of a backend is, and its offset and skip from the two hashes of address, port and r |
| `Maglev.ExpandedCount` | dataplane/novaedge-dataplane/src/lb/maglev.rs:45-59 | a healthy backend is expanded weight times and at least once, and no other is |
| `Maglev.FillTable` | dataplane/novaedge-dataplane/src/lb/maglev.rs:61-83 | terminates, and although each entry only keeps its place on its list, the table is the one in which entries take turns in claiming the first free slot of their whole list |
| `Turns.EachTurn` | dataplane/novaedge-dataplane/src/lb/maglev.rs:66-81 | turn by turn, in strict rotation, an entry gets the first slot on its list that nobody owns |
| `Maglev.ListsAre` | dataplane/novaedge-dataplane/src/lb/maglev.rs:69-73 | the j-th slot on the list of an entry is offset plus j times skip, modulo the size |
| `Turns.TableIsBalanced` | dataplane/novaedge-dataplane/src/lb/maglev.rs:66-81 | every slot is taken, and the slot counts of any two entries differ by at most one, earlier entries having the larger ones |
| `Turns.FairShares` | dataplane/novaedge-dataplane/src/lb/maglev.rs:66-81 | whoever entries act for has the fair share of the slots for each of them, rounded down or up |
| `Maglev.SharesFollowWeights` | dataplane/novaedge-dataplane/src/lb/maglev.rs:36-84 | for all backends, weights and hashes the 65537 slots are full of healthy backends, and each has the share that max(1, weight) is of the total of these, rounded down or up per unit |
| `Maglev.BuildTable` | dataplane/novaedge-dataplane/src/lb/maglev.rs:40-84 | no table without healthy backends, otherwise one that is full and shared by weight as above |

## Left out

- Host comparison in the router, and how patterns match: left open in `Reading`, so results hold for every choice; retry, mirror and weighted backend selection in the proxy handler are not modelled.
- Priorities of route entries: the translator never sets one, so the router's stable sort by priority has no effect.
- YAML, JSON, protobuf, durations, SHA-256, PEM and X.509: library code, present as parameters or as parsed values.
- Snapshot version and generation time: they depend on the clock and on map order.
- ACME accounts, challenge providers and the exchange with the server: issuance is an answer that may fail.
- FileStorage reads and deletes that fail: not modelled separately from missing files; failing writes of a save are.
- RFC 3339 zones: certificate times are taken to be in UTC, so a stored time loses only its fraction of a second.
- Validation of a ProxyRoute's references and matches: the state machine takes its outcome as a free choice, so the results hold for every outcome.
- Kubernetes machinery (finalizers, owner references, labels, requeueing, events): the API object is a sequence of versions with refusable status writes.
- IngressTranslation.Translate: leaves out the gateway, the path match types and the backend settings that come from annotations, because they are field copies that no reference depends on.
- Converter.ToSnapshot: leaves out gateways, policies, L4 listeners and access logs, because they are field copies that no route or cluster depends on.
- Translator.TranslateClusters: leaves out balancing, health check, pool, TLS and affinity settings, because they are field copies.
- Translator.TranslateSnapshot: leaves out gateways, L4 listeners, policies and WAN links, because they are field copies and single switches; the mesh section is `MeshPorts`.
- Maglev: the cache around the table and its fingerprint are not modelled, nor is how much a table changes with its backends; machine integers do not matter, since the largest product stays below 2^33.
- gRPC match translation and HTTPRoute translation: HTTPRoute references carry the Service name while its backends are created under generated names, so no closure is claimed there.
- FanOutKeepsMeaning: stated for routes without pattern headers and expressions; `MatchKeepsMeaningIff` and `ExpressionIsDropped` show why, match by match and route by route. The converse over a whole list fails because an earlier rule may hide a later one.
- StandaloneRouting.NodeServesFirstRouteIff: assumes routes without headers and expression, with a usable path and distinct names, because `RouterReadsTestIff`, `ExpressionIsDropped` and `EntriesDistinctIff` show that each of these is needed for the router to read the route as written.
- CertManager.RunKeepsInv: says nothing about the recorded validity of manual entries after a reload, because the code does not update it; `ManualValidityNeverMoves` and `ManualExpiryIff` say what it is.
- SortPorts: stands for the library sort; only its result matters.
