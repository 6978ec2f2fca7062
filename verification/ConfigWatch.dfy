/**
 The standalone node: a watcher reloads the configuration file, stores what it loaded, pushes its
 translation to the dataplane and then reports the node ready or not. Other goroutines may look
 at any moment, so a reload is a sequence of steps.
 */
module ConfigWatch {
  import opened Wrappers
  import opened Snapshot
  import opened Dataplane
  import opened StandaloneConfig
  import opened Converter
  import opened Translator
  import opened Pipeline

  /** Library code: the YAML parser, the hash and the port scanner. */
  datatype Env = Env(parse: string -> Option<Config>, hash: string -> string, scan: string -> Option<int>)

  datatype Stored = Stored(hash: string, config: Config, snapshot: ConfigSnapshot)

  /** Before the initial load, between reloads, inside a reload, or after the watcher returned. */
  datatype Phase = Starting | Idle | Loaded | Pushed(ok: bool) | Over

  /** `marked` is the snapshot of the last push that was reported as a success. */
  datatype Node = Node(
    stored: Option<Stored>, phase: Phase, initial: bool, ready: bool, dataplane: Option<ApplyRequest>,
    marked: Option<ConfigSnapshot>)

  /** What came of a push: accepted, or an error that may have reached the dataplane or not. */
  datatype PushResult = PushAccepted | PushFailed(applied: bool)

  // ---------------------------------------------------------------- steps

  ghost predicate Loads(env: Env, data: string, st: Stored) {
    && env.parse(data) == Some(st.config)
    && Accepted(st.config)
    && st.hash == env.hash(data)
    && SnapshotOf(st.config, env.scan, st.snapshot)
  }

  /** The file could be read, parsed and validated. */
  ghost predicate Loadable(env: Env, read: Option<string>) {
    read.Some? && env.parse(read.value).Some? && Accepted(env.parse(read.value).value)
  }

  /** The hash that a poll compares with; nothing stored has the empty hash. */
  function LastHash(stored: Option<Stored>): string {
    if stored.Some? then stored.value.hash else ""
  }

  /** A poll that could read the file finds another hash. */
  predicate Changed(env: Env, last: string, seen: Option<string>) {
    seen.Some? && env.hash(seen.value) != last
  }

  /**
   A poll first reads the file to hash it and, if that differs, reads it again to load it; a file
   event always loads. `Quit` is the end of the context.
   */
  datatype Step =
    | Begin(read: Option<string>)
    | FileEvent(read: Option<string>)
    | Poll(seen: Option<string>, read: Option<string>)
    | Push(result: PushResult)
    | Mark
    | Quit

  ghost predicate Reload(env: Env, n: Node, read: Option<string>, m: Node) {
    if Loadable(env, read) then exists st :: Loads(env, read.value, st) && m == n.(stored := Some(st), phase := Loaded)
    else m == n
  }

  /** The watcher returns when its initial load fails, at whatever stage. */
  ghost predicate Next(env: Env, n: Node, step: Step, m: Node) {
    match step
    case Begin(read) =>
      n.phase.Starting? && if Loadable(env, read) then Reload(env, n, read, m) else m == n.(phase := Over)
    case FileEvent(read) => n.phase.Idle? && Reload(env, n, read, m)
    case Poll(seen, read) =>
      n.phase.Idle? && if Changed(env, LastHash(n.stored), seen) then Reload(env, n, read, m) else m == n
    case Push(result) =>
      && n.phase.Loaded? && n.stored.Some?
      && var req := Some(Translation(n.stored.value.snapshot));
        m == n.(phase := Pushed(result.PushAccepted?),
                dataplane := if result.PushAccepted? || result.applied then req else n.dataplane)
    case Mark =>
      && n.phase.Pushed? && n.stored.Some?
      && m == n.(phase := if n.initial && !n.phase.ok then Over else Idle, initial := false, ready := n.phase.ok,
                 marked := if n.phase.ok then Some(n.stored.value.snapshot) else n.marked)
    case Quit => n.phase.Idle? && m == n.(phase := Over)
  }

  ghost predicate Init(n: Node) {
    n.stored.None? && n.phase.Starting? && n.initial && !n.ready && n.marked.None?
  }

  ghost predicate IsRun(env: Env, nodes: seq<Node>, steps: seq<Step>) {
    && |nodes| == |steps| + 1
    && Init(nodes[0])
    && forall i :: 0 <= i < |steps| ==> Next(env, nodes[i], steps[i], nodes[i + 1])
  }

  // ---------------------------------------------------------------- what every run keeps

  /** A snapshot made from one text that parsed and validated. */
  ghost predicate FromFile(env: Env, s: ConfigSnapshot) {
    exists data, st :: Loads(env, data, st) && st.snapshot == s
  }

  ghost predicate Holds(n: Node, s: Option<ConfigSnapshot>) {
    s.Some? && n.dataplane == Some(Translation(s.value))
  }

  function Current(n: Node): Option<ConfigSnapshot> {
    if n.stored.Some? then Some(n.stored.value.snapshot) else None
  }

  /** No reload is under way. */
  predicate Settled(n: Node) {
    n.phase.Idle? || n.phase.Over?
  }

  ghost predicate Inv(env: Env, n: Node) {
    && (n.stored.Some? ==> exists data :: Loads(env, data, n.stored.value))
    && (n.marked.Some? ==> FromFile(env, n.marked.value))
    && (n.phase.Starting? ==> !n.ready && n.stored.None?)
    && (n.phase.Idle? || n.phase.Loaded? || n.phase.Pushed? ==> n.stored.Some?)
    && (n.phase == Pushed(true) ==> Holds(n, Current(n)))
    && (n.ready && Settled(n) ==> Holds(n, Current(n)) && n.marked == Current(n))
    && (n.ready && n.phase.Loaded? ==> Holds(n, n.marked))
    && (n.ready && n.phase.Pushed? ==> n.marked.Some? && (Holds(n, n.marked) || Holds(n, Current(n))))
  }

  lemma ReloadKeepsInv(env: Env, n: Node, read: Option<string>, m: Node)
    requires Inv(env, n) && (n.phase.Idle? || (n.phase.Starting? && Loadable(env, read))) && Reload(env, n, read, m)
    ensures Inv(env, m)
  {
    if Loadable(env, read) {
      var st :| Loads(env, read.value, st) && m == n.(stored := Some(st), phase := Loaded);
    }
  }

  lemma MarkKeepsInv(env: Env, n: Node, m: Node)
    requires Inv(env, n) && Next(env, n, Mark, m)
    ensures Inv(env, m)
  {
    var data :| Loads(env, data, n.stored.value);
    assert FromFile(env, n.stored.value.snapshot);
  }

  lemma PushKeepsInv(env: Env, n: Node, result: PushResult, m: Node)
    requires Inv(env, n) && Next(env, n, Push(result), m)
    ensures Inv(env, m)
  {
  }

  lemma NextKeepsInv(env: Env, n: Node, step: Step, m: Node)
    requires Inv(env, n) && Next(env, n, step, m)
    ensures Inv(env, m)
  {
    match step {
      case Begin(read) =>
        if Loadable(env, read) {
          ReloadKeepsInv(env, n, read, m);
        }
      case FileEvent(read) =>
        ReloadKeepsInv(env, n, read, m);
      case Poll(seen, read) =>
        if Changed(env, LastHash(n.stored), seen) {
          ReloadKeepsInv(env, n, read, m);
        }
      case Push(result) =>
        PushKeepsInv(env, n, result, m);
      case Mark =>
        MarkKeepsInv(env, n, m);
      case Quit =>
    }
  }

  lemma {:induction false} RunKeepsInv(env: Env, nodes: seq<Node>, steps: seq<Step>, i: nat)
    requires IsRun(env, nodes, steps) && i < |nodes|
    ensures Inv(env, nodes[i])
  {
    if i > 0 {
      RunKeepsInv(env, nodes, steps, i - 1);
      assert Next(env, nodes[i - 1], steps[i - 1], nodes[i]);
      NextKeepsInv(env, nodes[i - 1], steps[i - 1], nodes[i]);
    }
  }

  /** Hash, configuration and snapshot always come from one text that passed validation. */
  lemma StoredIsConsistent(env: Env, nodes: seq<Node>, steps: seq<Step>, i: nat)
    requires IsRun(env, nodes, steps) && i < |nodes| && nodes[i].stored.Some?
    ensures exists data :: Loads(env, data, nodes[i].stored.value)
  {
    RunKeepsInv(env, nodes, steps, i);
  }

  /**
   Whenever the node is ready, between reloads the dataplane holds the translation of the stored
   snapshot; during a reload it holds that or the translation of the snapshot marked before.
   */
  lemma ReadyMeansServed(env: Env, nodes: seq<Node>, steps: seq<Step>, i: nat)
    requires IsRun(env, nodes, steps) && i < |nodes| && nodes[i].ready
    ensures Settled(nodes[i]) ==> Holds(nodes[i], Current(nodes[i]))
    ensures Holds(nodes[i], Current(nodes[i])) || Holds(nodes[i], nodes[i].marked)
  {
    RunKeepsInv(env, nodes, steps, i);
  }

  /**
   So whenever the node is ready, every backend reference of the request that the dataplane
   holds names exactly one cluster, and that cluster has an endpoint, in every run.
   */
  lemma ReadyMeansClosed(env: Env, nodes: seq<Node>, steps: seq<Step>, i: nat, r: nat, b: nat)
    requires IsRun(env, nodes, steps) && i < |nodes| && nodes[i].ready
    requires nodes[i].dataplane.Some? ==>
      r < |nodes[i].dataplane.value.routes| && b < |nodes[i].dataplane.value.routes[r].action.backends|
    ensures nodes[i].dataplane.Some?
    ensures var req := nodes[i].dataplane.value; var name := req.routes[r].action.backends[b].cluster;
      exists k: nat :: NamesCluster(req, name, k) && req.clusters[k].endpoints != []
  {
    ReadyMeansServed(env, nodes, steps, i);
    RunKeepsInv(env, nodes, steps, i);
    var n := nodes[i];
    var s := if Holds(n, Current(n)) then Current(n).value else n.marked.value;
    assert FromFile(env, s);
    var data, st :| Loads(env, data, st) && st.snapshot == s;
    EntryCounts(st.config, env.scan, s, r);
    PipelineCloses(st.config, env.scan, s, r, b);
  }

  lemma EntryCounts(c: Config, scan: string -> Option<int>, s: ConfigSnapshot, r: nat)
    requires SnapshotOf(c, scan, s) && r < |Translation(s).routes|
    ensures |Translation(s).routes| == |c.routes|
    ensures |Translation(s).routes[r].action.backends| == |c.routes[r].backends|
  {
    FlattenLength(s.routes);
    EntryOfRoute(c, scan, s, r);
  }

  /**
   In every state of every run, a ready node serves what it has stored exactly when no reload is
   under way, or its push succeeded, or it failed after it took effect, or the new file
   translates to the request marked before.
   */
  lemma ServesStoredIff(env: Env, nodes: seq<Node>, steps: seq<Step>, i: nat)
    requires IsRun(env, nodes, steps) && i < |nodes| && nodes[i].ready
    ensures i > 0 && nodes[i].stored.Some? && nodes[i].marked.Some?
    ensures Holds(nodes[i], Current(nodes[i])) <==>
      || Settled(nodes[i])
      || steps[i - 1] == Push(PushAccepted) || steps[i - 1] == Push(PushFailed(true))
      || Translation(nodes[i].stored.value.snapshot) == Translation(nodes[i].marked.value)
  {
    assert i > 0;
    RunKeepsInv(env, nodes, steps, i - 1);
    assert Next(env, nodes[i - 1], steps[i - 1], nodes[i]);
    AfterStep(env, nodes[i - 1], steps[i - 1], nodes[i]);
  }

  lemma AfterStep(env: Env, n: Node, step: Step, m: Node)
    requires Inv(env, n) && Next(env, n, step, m) && m.ready
    ensures m.stored.Some? && m.marked.Some?
    ensures Holds(m, Current(m)) <==>
      || Settled(m) || step == Push(PushAccepted) || step == Push(PushFailed(true))
      || Translation(m.stored.value.snapshot) == Translation(m.marked.value)
  {
    if step.Push? {
      AfterPush(env, n, step.result, m);
    } else {
      NextKeepsInv(env, n, step, m);
      AfterOther(env, n, step, m);
    }
  }

  lemma AfterPush(env: Env, n: Node, result: PushResult, m: Node)
    requires Inv(env, n) && Next(env, n, Push(result), m) && m.ready
    ensures m.stored.Some? && m.marked.Some? && !Settled(m)
    ensures Holds(m, Current(m)) <==> result.PushAccepted? || result.applied
                                      || Translation(m.stored.value.snapshot) == Translation(m.marked.value)
  {
  }

  /** Any other step leaves a ready node settled, or loaded and serving what was marked. */
  lemma AfterOther(env: Env, n: Node, step: Step, m: Node)
    requires Inv(env, n) && Inv(env, m) && Next(env, n, step, m) && !step.Push? && m.ready
    ensures m.stored.Some? && m.marked.Some?
    ensures Holds(m, Current(m)) <==> Settled(m) || Translation(m.stored.value.snapshot) == Translation(m.marked.value)
  {
    assert !m.phase.Pushed?;
  }

  /** An environment in which the text "1" is a configuration without backends, and any other has one. */
  const TWO_FILES := Env(
    data => Some(Config("1", [Listener("http", 80, "HTTP", None)], [],
                        if data == "1" then [] else [Backend("app", [EndpointConfig("10.0.0.1:8080", 1)])], [])),
    data => data, text => None)

  lemma TwoFilesLoad(data: string) returns (st: Stored)
    ensures Loads(TWO_FILES, data, st) && |Translation(st.snapshot).clusters| == if data == "1" then 0 else 1
  {
    var c := TWO_FILES.parse(data).value;
    var clusters := seq(|c.backends|, i requires 0 <= i < |c.backends| => Cluster(c.backends[i].name, NAMESPACE));
    st := Stored(data, c, ConfigSnapshot([], clusters, EndpointMap(c.backends, TWO_FILES.scan)));
    assert Accepted(c);
  }

  /** A run that ends in a ready node which does not serve what it has stored. */
  lemma ReadyButBehind() returns (nodes: seq<Node>, steps: seq<Step>)
    ensures IsRun(TWO_FILES, nodes, steps)
    ensures nodes[|steps|].ready && nodes[|steps|].phase.Loaded? && !Holds(nodes[|steps|], Current(nodes[|steps|]))
    ensures !nodes[|steps|].initial && LastHash(nodes[|steps|].stored) == "2"
  {
    var one := TwoFilesLoad("1");
    var two := TwoFilesLoad("2");
    var n0 := Node(None, Starting, true, false, None, None);
    var n1 := n0.(stored := Some(one), phase := Loaded);
    var n2 := n1.(phase := Pushed(true), dataplane := Some(Translation(one.snapshot)));
    var n3 := n2.(phase := Idle, initial := false, ready := true, marked := Some(one.snapshot));
    var n4 := n3.(stored := Some(two), phase := Loaded);
    nodes := [n0, n1, n2, n3, n4];
    steps := [Begin(Some("1")), Push(PushAccepted), Mark, FileEvent(Some("2"))];
    assert Next(TWO_FILES, n0, steps[0], n1);
    assert Next(TWO_FILES, n1, steps[1], n2);
    assert Next(TWO_FILES, n2, steps[2], n3);
    assert Next(TWO_FILES, n3, steps[3], n4);
  }

  // ---------------------------------------------------------------- polling

  /** Skipping a poll is safe in every run: with an injective hash the text is the one that was loaded. */
  lemma PollSkipsOnlySame(env: Env, nodes: seq<Node>, steps: seq<Step>, i: nat)
    requires forall a, b :: env.hash(a) == env.hash(b) ==> a == b
    requires IsRun(env, nodes, steps) && i < |steps| && steps[i].Poll? && steps[i].seen.Some?
    requires !Changed(env, LastHash(nodes[i].stored), steps[i].seen)
    ensures nodes[i].stored.Some? && Loads(env, steps[i].seen.value, nodes[i].stored.value)
  {
    RunKeepsInv(env, nodes, steps, i);
    assert Next(env, nodes[i], steps[i], nodes[i + 1]);
    var before :| Loads(env, before, nodes[i].stored.value);
    assert before == steps[i].seen.value;
  }

  /** The step stores a new configuration, which is then pushed. */
  predicate Stores(nodes: seq<Node>, i: nat)
    requires i + 1 < |nodes|
  {
    nodes[i].phase.Idle? && nodes[i + 1].phase.Loaded?
  }

  /**
   What makes the watcher try again when the last stored hash is `last`: an event, or a poll that
   reads another hash, if the file then loads.
   */
  ghost predicate Retries(env: Env, last: string, step: Step) {
    || (step.FileEvent? && Loadable(env, step.read))
    || (step.Poll? && Changed(env, last, step.seen) && Loadable(env, step.read))
  }

  /** The node as a failed push left it, apart from its phase. */
  predicate StillFailed(n: Node, failed: Node) {
    Settled(n) && !n.ready && n.dataplane == failed.dataplane && n.stored == failed.stored
  }

  lemma StepAfterFailure(env: Env, n: Node, step: Step, m: Node, failed: Node)
    requires StillFailed(n, failed) && failed.stored.Some? && Next(env, n, step, m)
    ensures Retries(env, failed.stored.value.hash, step) <==> m.phase.Loaded?
    ensures m.phase.Loaded? ==> n.phase.Idle?
    ensures !m.phase.Loaded? ==> StillFailed(m, failed)
  {
  }

  lemma {:induction false} FailedUntilRetry(env: Env, nodes: seq<Node>, steps: seq<Step>, k: nat, j: nat)
    requires IsRun(env, nodes, steps) && k < j < |nodes| && nodes[k].phase == Pushed(false)
    requires forall i :: k < i < j ==> !Stores(nodes, i)
    ensures nodes[k].stored.Some? && StillFailed(nodes[j], nodes[k])
    decreases j
  {
    assert Next(env, nodes[j - 1], steps[j - 1], nodes[j]);
    if j > k + 1 {
      FailedUntilRetry(env, nodes, steps, k, j - 1);
      StepAfterFailure(env, nodes[j - 1], steps[j - 1], nodes[j], nodes[k]);
      assert !Stores(nodes, j - 1);
    }
  }

  /**
   After a failed push, in every run and up to every later state: the watcher stores and pushes
   again iff there was an event, or a poll that read another hash than that of the text whose
   push failed, and the file then loaded. Until then the node stays as the failure left it, so
   polling an unchanged file never retries.
   */
  lemma FailedPushIsRetriedIff(env: Env, nodes: seq<Node>, steps: seq<Step>, k: nat, j: nat)
    requires IsRun(env, nodes, steps) && k < j < |nodes| && nodes[k].phase == Pushed(false)
    ensures nodes[k].stored.Some?
    ensures (exists i :: k < i < j && Stores(nodes, i)) <==>
            (exists i :: k < i < j && Retries(env, nodes[k].stored.value.hash, steps[i]))
    ensures (forall i :: k < i < j ==> !Stores(nodes, i)) ==> StillFailed(nodes[j], nodes[k])
    decreases j
  {
    if forall i :: k < i < j ==> !Stores(nodes, i) {
      FailedUntilRetry(env, nodes, steps, k, j);
      forall i | k < i < j
        ensures !Retries(env, nodes[k].stored.value.hash, steps[i])
      {
        FailedUntilRetry(env, nodes, steps, k, i);
        assert !Stores(nodes, i);
        StepAfterFailure(env, nodes[i], steps[i], nodes[i + 1], nodes[k]);
      }
    } else {
      var i := FirstStore(nodes, k, j);
      FailedUntilRetry(env, nodes, steps, k, i);
      StepAfterFailure(env, nodes[i], steps[i], nodes[i + 1], nodes[k]);
    }
  }

  lemma {:induction false} FirstStore(nodes: seq<Node>, k: nat, j: nat) returns (i: nat)
    requires j < |nodes| && exists i :: k < i < j && Stores(nodes, i)
    ensures k < i < j && Stores(nodes, i) && forall h :: k < h < i ==> !Stores(nodes, h)
    decreases j
  {
    if h :| k < h < j - 1 && Stores(nodes, h) {
      i := FirstStore(nodes, k, j - 1);
    } else {
      i := j - 1;
    }
  }

  /** A run in which a push fails, the file stays as it is, a poll looks at it, and the node is not ready. */
  lemma UnchangedFileIsNotRetried() returns (nodes: seq<Node>, steps: seq<Step>)
    ensures IsRun(TWO_FILES, nodes, steps) && |steps| >= 3
    ensures steps[|steps| - 3] == Push(PushFailed(false)) && steps[|steps| - 1] == Poll(Some("2"), Some("2"))
    ensures nodes[|steps|].phase.Idle? && !nodes[|steps|].ready
  {
    var before, path := ReadyButBehind();
    var n4 := before[|path|];
    RunKeepsInv(TWO_FILES, before, path, |path|);
    var n5 := n4.(phase := Pushed(false));
    var n6 := n5.(phase := Idle, ready := false);
    nodes := before + [n5, n6, n6];
    steps := path + [Push(PushFailed(false)), Mark, Poll(Some("2"), Some("2"))];
    assert Next(TWO_FILES, n4, steps[|path|], n5);
    assert Next(TWO_FILES, n5, steps[|path| + 1], n6);
    assert Next(TWO_FILES, n6, steps[|path| + 2], n6);
    forall i | 0 <= i < |steps|
      ensures Next(TWO_FILES, nodes[i], steps[i], nodes[i + 1])
    {
      if i < |path| {
        assert Next(TWO_FILES, before[i], path[i], before[i + 1]);
      }
    }
  }

  // ---------------------------------------------------------------- the watcher

  class ConfigWatcher {
    const env: Env
    var stored: Option<Stored>
    var ready: bool
    var dataplane: Option<ApplyRequest>

    ghost predicate Valid()
      reads this
    {
      && (stored.Some? ==> exists data :: Loads(env, data, stored.value))
      && (ready ==> stored.Some? && dataplane == Some(Translation(stored.value.snapshot)))
    }

    constructor (env: Env)
      ensures Valid() && this.env == env && stored.None? && !ready
    {
      this.env := env;
      stored, ready, dataplane := None, false, None;
    }

    /** One reload, run to its end: a failed read, parse or validation changes nothing. */
    method LoadAndApply(read: Option<string>, push: PushResult) returns (ok: bool)
      requires Valid()
      modifies this
      ensures Valid()
      ensures ok ==> ready
      ensures !Loadable(env, read) ==> !ok && unchanged(this)
      ensures Loadable(env, read) ==>
        && stored.Some? && Loads(env, read.value, stored.value)
        && ok == ready == push.PushAccepted?
        && dataplane == if push.PushAccepted? || push.applied then Some(Translation(stored.value.snapshot)) else old(dataplane)
    {
      if read.None? {
        return false;
      }
      var data := read.value;
      var hash := env.hash(data);
      var parsed := env.parse(data);
      if parsed.None? {
        return false;
      }
      var err := Validate(parsed.value);
      if err.Some? {
        return false;
      }
      var snapshot := ToSnapshot(parsed.value, env.scan);
      stored := Some(Stored(hash, parsed.value, snapshot));
      assert Loads(env, data, stored.value);
      var req := TranslateSnapshot(snapshot);
      if push.PushFailed? {
        if push.applied {
          dataplane := Some(req);
        }
        ready := false;
        return false;
      }
      dataplane := Some(req);
      ready := true;
      return true;
    }

    /**
     Whether the file differs from what was loaded: a text that loaded the stored configuration
     never counts as changed, and with an injective hash any other text does. An unreadable file
     does not.
     */
    method HasChanged(seen: Option<string>) returns (changed: bool)
      requires Valid()
      ensures seen.None? ==> !changed
      ensures seen.Some? && stored.Some? && Loads(env, seen.value, stored.value) ==> !changed
      ensures seen.Some? && stored.Some? && !changed && (forall a, b :: env.hash(a) == env.hash(b) ==> a == b) ==>
        Loads(env, seen.value, stored.value)
      ensures changed <==> Changed(env, LastHash(stored), seen)
    {
      if seen.None? {
        return false;
      }
      var last := "";
      if stored.Some? {
        last := stored.value.hash;
      }
      changed := env.hash(seen.value) != last;
      if stored.Some? {
        ghost var before :| Loads(env, before, stored.value);
      }
    }

    /** One tick: nothing changes unless the hash does and the file then loads. */
    method Tick(seen: Option<string>, read: Option<string>, push: PushResult) returns (changed: bool)
      requires Valid()
      modifies this
      ensures Valid() && (changed <==> Changed(env, LastHash(old(stored)), seen))
      ensures !(changed && Loadable(env, read)) ==> unchanged(this)
      ensures changed && Loadable(env, read) ==>
        && stored.Some? && Loads(env, read.value, stored.value)
        && ready == push.PushAccepted?
        && dataplane == if push.PushAccepted? || push.applied then Some(Translation(stored.value.snapshot)) else old(dataplane)
    {
      changed := HasChanged(seen);
      if changed {
        var _ := LoadAndApply(read, push);
      }
    }
  }
}
