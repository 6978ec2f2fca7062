/**
 Reconciling a resource once per generation. The reconciler reads the object from a cache that
 may be behind, skips a generation it has already observed, validates, writes the status and
 then triggers a configuration update. Edits and failing status writes may come at any moment;
 the API server refuses a status write that was based on an older version of the object.
 */
module GenerationCheck {
  /** `ready` is the recorded result of the validation of generation `observed`. */
  datatype Object = Object(generation: nat, observed: nat, ready: bool)

  datatype Work =
    | Resting
    | Validating(version: nat)
    | Writing(version: nat, errors: bool)
    | Triggering(generation: nat)

  /** All versions the object has had, the current one last, and the updates triggered so far. */
  datatype System = System(versions: seq<Object>, work: Work, triggers: seq<nat>)

  function Current(s: System): Object
    requires s.versions != []
  {
    s.versions[|s.versions| - 1]
  }

  /** Already reconciled: an observed generation of zero means never. */
  predicate UpToDate(o: Object) {
    o.observed != 0 && o.observed == o.generation
  }

  function WithStatus(o: Object, errors: bool): Object {
    o.(observed := o.generation, ready := !errors)
  }

  // ---------------------------------------------------------------- steps

  datatype Step =
    | Edit
    | Get(version: nat)
    | Validate(errors: bool)
    | WriteOk
    | WriteFails(applied: bool)
    | Trigger

  /** The write was based on the current version. */
  predicate Fresh(s: System) {
    s.work.Writing? && s.work.version == |s.versions| - 1
  }

  ghost predicate Next(s: System, step: Step, t: System)
    requires s.versions != []
  {
    match step
    case Edit =>
      t == s.(versions := s.versions + [Current(s).(generation := Current(s).generation + 1)])
    case Get(v) =>
      s.work.Resting? && v < |s.versions| && t == s.(work := if UpToDate(s.versions[v]) then Resting else Validating(v))
    case Validate(errors) =>
      s.work.Validating? && t == s.(work := Writing(s.work.version, errors))
    case WriteOk =>
      && Fresh(s)
      && t == s.(versions := s.versions + [WithStatus(Current(s), s.work.errors)],
                 work := if s.work.errors then Resting else Triggering(Current(s).generation))
    case WriteFails(applied) =>
      && s.work.Writing? && (applied ==> Fresh(s))
      && t == s.(versions := if applied then s.versions + [WithStatus(Current(s), s.work.errors)] else s.versions,
                 work := Resting)
    case Trigger =>
      s.work.Triggering? && t == s.(work := Resting, triggers := s.triggers + [s.work.generation])
  }

  /** A new object: generations start at one, and nothing has been observed. */
  ghost predicate Init(s: System) {
    exists g: nat :: g >= 1 && s == System([Object(g, 0, false)], Resting, [])
  }

  ghost predicate IsRun(states: seq<System>, steps: seq<Step>) {
    && |states| == |steps| + 1 && Init(states[0])
    && forall i :: 0 <= i < |steps| ==> states[i].versions != [] && Next(states[i], steps[i], states[i + 1])
  }

  // ---------------------------------------------------------------- what every run keeps

  ghost predicate Ordered(versions: seq<Object>) {
    && (forall i :: 0 <= i < |versions| ==> versions[i].observed <= versions[i].generation && versions[i].generation >= 1)
    && (forall i, j :: 0 <= i < j < |versions| ==>
          versions[i].generation <= versions[j].generation && versions[i].observed <= versions[j].observed)
  }

  /** One generation is observed with one result. */
  ghost predicate OneResult(versions: seq<Object>) {
    forall i, j :: 0 <= i < j < |versions| && versions[i].observed == versions[j].observed ==> versions[i].ready == versions[j].ready
  }

  /** Some version records this generation as observed and free of errors. */
  ghost predicate RecordedReady(versions: seq<Object>, g: nat) {
    exists i :: 0 <= i < |versions| && versions[i].observed == g && versions[i].ready
  }

  ghost predicate TriggersOk(s: System) {
    && (forall i, j :: 0 <= i < j < |s.triggers| ==> s.triggers[i] < s.triggers[j])
    && (forall i :: 0 <= i < |s.triggers| ==> RecordedReady(s.versions, s.triggers[i]))
  }

  ghost predicate Inv(s: System) {
    && s.versions != [] && Ordered(s.versions) && OneResult(s.versions) && TriggersOk(s)
    && (forall i :: 0 <= i < |s.triggers| ==> s.triggers[i] <= Current(s).observed)
    && match s.work
       case Resting => true
       case Validating(v) => v < |s.versions| && !UpToDate(s.versions[v])
       case Writing(v, _) => v < |s.versions| && !UpToDate(s.versions[v])
       case Triggering(g) =>
         && g == Current(s).observed && RecordedReady(s.versions, g)
         && forall i :: 0 <= i < |s.triggers| ==> s.triggers[i] < g
  }

  /** Appending a version that moves forward keeps the records. */
  lemma Append(versions: seq<Object>, o: Object)
    requires versions != [] && Ordered(versions) && OneResult(versions)
    requires var last := versions[|versions| - 1];
      && o.generation >= last.generation && o.observed >= last.observed && o.observed <= o.generation
      && (o.observed == last.observed ==> o.ready == last.ready)
    ensures Ordered(versions + [o]) && OneResult(versions + [o])
    ensures forall g :: RecordedReady(versions, g) ==> RecordedReady(versions + [o], g)
  {
    var next := versions + [o];
    forall i, j | 0 <= i < j < |next|
      ensures next[i].generation <= next[j].generation && next[i].observed <= next[j].observed
      ensures next[i].observed == next[j].observed ==> next[i].ready == next[j].ready
    {
    }
    forall g | RecordedReady(versions, g)
      ensures RecordedReady(next, g)
    {
      var i :| 0 <= i < |versions| && versions[i].observed == g && versions[i].ready;
      assert next[i].observed == g && next[i].ready;
    }
  }

  lemma StatusMovesForward(s: System)
    requires Inv(s) && Fresh(s)
    ensures var o := WithStatus(Current(s), s.work.errors);
      o.observed > Current(s).observed && o.generation == Current(s).generation
  {
  }

  lemma EditKeepsInv(s: System, t: System)
    requires Inv(s) && Next(s, Edit, t)
    ensures Inv(t)
  {
    Append(s.versions, Current(t));
  }

  lemma WriteKeepsInv(s: System, step: Step, t: System)
    requires Inv(s) && (step.WriteOk? || step.WriteFails?) && Next(s, step, t)
    ensures Inv(t)
  {
    if t.versions != s.versions {
      var o := WithStatus(Current(s), s.work.errors);
      StatusMovesForward(s);
      Append(s.versions, o);
      assert Current(t) == o;
      if t.work.Triggering? {
        assert t.versions[|s.versions|].observed == o.generation && t.versions[|s.versions|].ready;
      }
    }
  }

  lemma TriggerKeepsInv(s: System, t: System)
    requires Inv(s) && Next(s, Trigger, t)
    ensures Inv(t)
  {
    assert forall i :: 0 <= i < |s.triggers| ==> t.triggers[i] == s.triggers[i] < s.work.generation;
  }

  lemma NextKeepsInv(s: System, step: Step, t: System)
    requires Inv(s) && Next(s, step, t)
    ensures Inv(t)
  {
    match step {
      case Edit =>
        EditKeepsInv(s, t);
      case WriteOk =>
        WriteKeepsInv(s, step, t);
      case WriteFails(_) =>
        WriteKeepsInv(s, step, t);
      case Trigger =>
        TriggerKeepsInv(s, t);
      case _ =>
        assert t.versions == s.versions && t.triggers == s.triggers;
    }
  }

  lemma {:induction false} RunKeepsInv(states: seq<System>, steps: seq<Step>, i: nat)
    requires IsRun(states, steps) && i < |states|
    ensures Inv(states[i])
  {
    if i > 0 {
      RunKeepsInv(states, steps, i - 1);
      NextKeepsInv(states[i - 1], steps[i - 1], states[i]);
    }
  }

  // ---------------------------------------------------------------- main results

  /** The persisted observed generation never passes the generation, and never goes back. */
  lemma ObservedIsMonotone(states: seq<System>, steps: seq<Step>, i: nat, j: nat)
    requires IsRun(states, steps) && i <= j < |states|
    ensures states[i].versions != [] && states[j].versions != []
    ensures Current(states[i]).observed <= Current(states[j]).observed <= Current(states[j]).generation
  {
    RunKeepsInv(states, steps, j);
    RunKeepsInv(states, steps, i);
    VersionsGrow(states, steps, i, j);
    assert states[j].versions[|states[i].versions| - 1] == Current(states[i]);
  }

  lemma {:induction false} VersionsGrow(states: seq<System>, steps: seq<Step>, i: nat, j: nat)
    requires IsRun(states, steps) && i <= j < |states|
    ensures states[i].versions <= states[j].versions
    decreases j
  {
    if i < j {
      VersionsGrow(states, steps, i, j - 1);
      assert Next(states[j - 1], steps[j - 1], states[j]);
    }
  }

  /**
   In every run updates are triggered for strictly increasing generations, so at most once each,
   and only for a generation recorded free of errors.
   */
  lemma TriggersAreSound(states: seq<System>, steps: seq<Step>, i: nat)
    requires IsRun(states, steps) && i < |states|
    ensures TriggersOk(states[i])
  {
    RunKeepsInv(states, steps, i);
  }

  /** A generation recorded with errors is never triggered, however long the run goes on. */
  lemma FailedGenerationNeverTriggers(states: seq<System>, steps: seq<Step>, i: nat, v: nat)
    requires IsRun(states, steps) && i < |states| && v < |states[i].versions|
    requires !states[i].versions[v].ready && states[i].versions[v].observed > 0
    ensures states[i].versions[v].observed !in states[|steps|].triggers
  {
    RunKeepsInv(states, steps, |steps|);
    VersionsGrow(states, steps, i, |steps|);
    var last := states[|steps|];
    var g := last.versions[v].observed;
    assert !RecordedReady(last.versions, g);
  }

  /** Generation `g` is observed, and neither triggered nor about to be. */
  ghost predicate Passed(s: System, g: nat) {
    s.versions != [] && g <= Current(s).observed && g !in s.triggers && s.work != Triggering(g)
  }

  lemma NextKeepsPassed(s: System, step: Step, t: System, g: nat)
    requires Inv(s) && Passed(s, g) && Next(s, step, t)
    ensures Passed(t, g)
  {
    if step.WriteOk? || step.WriteFails? {
      assert Fresh(s) ==> Current(s).generation > Current(s).observed by {
        if Fresh(s) {
          StatusMovesForward(s);
        }
      }
    }
  }

  lemma {:induction false} PassedForever(states: seq<System>, steps: seq<Step>, i: nat, j: nat, g: nat)
    requires IsRun(states, steps) && i <= j < |states| && Passed(states[i], g)
    ensures Passed(states[j], g)
    decreases j
  {
    if i < j {
      PassedForever(states, steps, i, j - 1, g);
      RunKeepsInv(states, steps, j - 1);
      NextKeepsPassed(states[j - 1], steps[j - 1], states[j], g);
    }
  }

  lemma LostWrite(s: System, t: System)
    requires Inv(s) && Next(s, WriteFails(true), t)
    ensures t.versions != [] && UpToDate(Current(t)) && Passed(t, Current(t).observed)
  {
    StatusMovesForward(s);
  }

  /**
   A status write that took effect but was reported as failed loses its update for good: the
   generation counts as done, and however the run goes on it is never triggered.
   */
  lemma LostUpdate(states: seq<System>, steps: seq<Step>, i: nat, j: nat)
    requires IsRun(states, steps) && i < j < |states| && steps[i] == WriteFails(true)
    ensures states[i + 1].versions != [] && UpToDate(Current(states[i + 1]))
    ensures Current(states[i + 1]).observed !in states[j].triggers
  {
    RunKeepsInv(states, steps, i);
    LostWrite(states[i], states[i + 1]);
    PassedForever(states, steps, i + 1, j, Current(states[i + 1]).observed);
  }

  /** A status write for generation `g` took effect before state `i` but was reported as failed. */
  ghost predicate Lost(states: seq<System>, steps: seq<Step>, i: nat, g: nat)
    requires i < |states| == |steps| + 1
  {
    exists k :: 0 <= k < i && steps[k] == WriteFails(true) && states[k].versions != [] && Current(states[k]).generation == g
  }

  lemma LostIsPassed(states: seq<System>, steps: seq<Step>, i: nat, g: nat)
    requires IsRun(states, steps) && i < |states| && Lost(states, steps, i, g)
    ensures Passed(states[i], g)
  {
    var k :| 0 <= k < i && steps[k] == WriteFails(true) && states[k].versions != [] && Current(states[k]).generation == g;
    RunKeepsInv(states, steps, k);
    LostWrite(states[k], states[k + 1]);
    assert Current(states[k + 1]).observed == g;
    PassedForever(states, steps, k + 1, i, g);
  }

  /** The update for generation `g` was triggered or is the next thing to happen. */
  predicate Served(s: System, g: nat) {
    g in s.triggers || s.work == Triggering(g)
  }

  /** A step serves each generation it records, unless it is a lost write, and keeps those served. */
  lemma StepServes(s: System, step: Step, t: System, g: nat)
    requires Inv(s) && Next(s, step, t)
    ensures Served(s, g) ==> Served(t, g)
    ensures RecordedReady(t.versions, g) && !RecordedReady(s.versions, g) ==>
      Served(t, g) || (step == WriteFails(true) && Current(s).generation == g)
  {
    if RecordedReady(t.versions, g) && !RecordedReady(s.versions, g) {
      var v :| 0 <= v < |t.versions| && t.versions[v].observed == g && t.versions[v].ready;
      assert v == |s.versions|;
    }
  }

  lemma {:induction false} RecordedIsServedOrLost(states: seq<System>, steps: seq<Step>, i: nat, g: nat)
    requires IsRun(states, steps) && i < |states| && RecordedReady(states[i].versions, g)
    ensures Served(states[i], g) || Lost(states, steps, i, g)
  {
    if i > 0 {
      var s, t := states[i - 1], states[i];
      RunKeepsInv(states, steps, i - 1);
      StepServes(s, steps[i - 1], t, g);
      if RecordedReady(s.versions, g) {
        RecordedIsServedOrLost(states, steps, i - 1, g);
      }
    }
  }

  /**
   In every run, a generation recorded free of errors has been triggered, or is about to be,
   exactly when no status write for it was reported as failed after it took effect.
   */
  lemma TriggeredIff(states: seq<System>, steps: seq<Step>, i: nat, g: nat)
    requires IsRun(states, steps) && i < |states| && RecordedReady(states[i].versions, g)
    ensures Served(states[i], g) <==> !Lost(states, steps, i, g)
  {
    RecordedIsServedOrLost(states, steps, i, g);
    if Lost(states, steps, i, g) {
      LostIsPassed(states, steps, i, g);
    }
  }

  /** A run whose only generation is recorded free of errors and not triggered. */
  lemma RecordedButLost() returns (states: seq<System>, steps: seq<Step>)
    ensures IsRun(states, steps)
    ensures RecordedReady(states[|steps|].versions, 1) && states[|steps|].work.Resting? && states[|steps|].triggers == []
  {
    var o := Object(1, 0, false);
    var s := System([o], Resting, []);
    var written := s.(versions := [o, Object(1, 1, true)]);
    states := [s, s.(work := Validating(0)), s.(work := Writing(0, false)), written];
    steps := [Get(0), Validate(false), WriteFails(true)];
    assert Init(s);
    assert written.versions[1].observed == 1 && written.versions[1].ready;
  }

  // ---------------------------------------------------------------- the reconciler

  datatype WriteResult = Written | Refused | Lost

  class Reconciler {
    var versions: seq<Object>
    var triggers: seq<nat>

    ghost predicate Valid()
      reads this
    {
      Inv(System(versions, Resting, triggers))
    }

    constructor (generation: nat)
      requires generation >= 1
      ensures Valid() && versions == [Object(generation, 0, false)] && triggers == []
    {
      versions, triggers := [Object(generation, 0, false)], [];
    }

    method Edit()
      requires Valid()
      modifies this
      ensures Valid() && triggers == old(triggers)
      ensures |versions| == |old(versions)| + 1 && old(versions) <= versions
      ensures var was, now := old(versions[|versions| - 1]), versions[|versions| - 1];
        now == was.(generation := was.generation + 1)
    {
      ghost var s := System(versions, Resting, triggers);
      var last := versions[|versions| - 1];
      versions := versions + [last.(generation := last.generation + 1)];
      EditKeepsInv(s, System(versions, Resting, triggers));
    }

    /** One reconcile, from the read of some version to the update, with nothing in between. */
    method Reconcile(version: nat, errors: bool, write: WriteResult) returns (failed: bool)
      requires Valid() && version < |versions|
      modifies this
      ensures Valid() && old(versions) <= versions && old(triggers) <= triggers
      ensures UpToDate(old(versions[version])) ==> !failed && unchanged(this)
      ensures failed <==>
        && !(old(versions[version]).observed != 0 && old(versions[version]).observed == old(versions[version]).generation)
        && (errors || !write.Written? || version != |old(versions)| - 1)
      ensures versions != old(versions) ==>
        var was, now := old(versions[version]), versions[|versions| - 1];
        now.generation == was.generation && now.observed == was.generation && now.ready == !errors
      ensures var took := !UpToDate(old(versions[version])) && version == |old(versions)| - 1 && !write.Refused?;
        && (versions == if took then old(versions) + [WithStatus(old(versions[version]), errors)] else old(versions))
        && (triggers == if took && write.Written? && !errors then old(triggers) + [old(versions[version]).generation]
                        else old(triggers))
    {
      var copy := versions[version];
      if copy.observed != 0 && copy.observed == copy.generation {
        return false;
      }
      ghost var s := System(versions, Writing(version, errors), triggers);
      if write.Refused? || version != |versions| - 1 {
        return true;
      }
      versions := versions + [WithStatus(copy, errors)];
      if write.Lost? || errors {
        ghost var step := if write.Lost? then WriteFails(true) else WriteOk;
        WriteKeepsInv(s, step, System(versions, Resting, triggers));
        return true;
      }
      ghost var t := System(versions, Triggering(copy.generation), triggers);
      WriteKeepsInv(s, WriteOk, t);
      triggers := triggers + [copy.generation];
      TriggerKeepsInv(t, System(versions, Resting, triggers));
      return false;
    }
  }
}
