/**
 The renewal manager: starting it makes a stop channel and a loop, stopping it closes the
 channel, and a loop whose context ends stops the manager itself. Starts, stops, cancellations
 and the steps of the loops interleave freely.
 */
module RenewalManager {
  import opened Wrappers

  // ---------------------------------------------------------------- the locked state

  /**
   Channels are numbered in the order they are made; `closes` counts how often each was closed
   (a second close panics). `once` says that the current once-guard has fired.
   */
  datatype Manager = Manager(running: bool, stopChan: Option<nat>, once: bool, closes: seq<nat>)

  function Started(m: Manager): Manager {
    if m.running then m else Manager(true, Some(|m.closes|), false, m.closes + [0])
  }

  function Stopped(m: Manager): Manager {
    if !m.running then m
    else if m.once || m.stopChan.None? || m.stopChan.value >= |m.closes| then m.(running := false, once := true)
    else
      var c := m.stopChan.value;
      Manager(false, m.stopChan, true, m.closes[c := m.closes[c] + 1])
  }

  /**
   Only the newest channel can be open; it is open exactly while the manager runs, and then its
   once-guard has not fired.
   */
  ghost predicate Good(m: Manager) {
    && m.stopChan == (if m.closes == [] then None else Some(|m.closes| - 1))
    && (forall c :: 0 <= c < |m.closes| ==> m.closes[c] <= 1)
    && (forall c :: 0 <= c < |m.closes| ==> (m.closes[c] == 0 <==> m.running && c == |m.closes| - 1))
    && (m.running ==> m.closes != [] && !m.once)
  }

  class Renewals {
    var running: bool
    var stopChan: Option<nat>
    var once: bool
    var closes: seq<nat>

    function View(): Manager
      reads this
    {
      Manager(running, stopChan, once, closes)
    }

    constructor ()
      ensures Good(View()) && !running && closes == []
    {
      running, stopChan, once, closes := false, None, false, [];
    }

    /** The locked part of a start; the caller then checks once and spawns the loop. */
    method Start() returns (spawn: bool)
      requires Good(View())
      modifies this
      ensures Good(View()) && running
      ensures View() == Started(old(View())) && spawn == !old(running)
    {
      if running {
        return false;
      }
      running := true;
      stopChan, closes := Some(|closes|), closes + [0];
      once := false;
      return true;
    }

    /** Stopping twice, or after a loop stopped the manager, closes nothing a second time. */
    method Stop()
      requires Good(View())
      modifies this
      ensures Good(View()) && !running
      ensures View() == Stopped(old(View()))
      ensures forall c :: 0 <= c < |closes| ==> closes[c] == 1
    {
      if !running {
        return;
      }
      if !once {
        once := true;
        closes := closes[stopChan.value := closes[stopChan.value] + 1];
      }
      running := false;
    }
  }

  // ---------------------------------------------------------------- loops and runs

  /** A loop evaluates the manager's channel when it enters its select, then waits on that one. */
  datatype Place = Spawned | Waiting(chan: Option<nat>) | Checking | Cancelling | Exited

  datatype Loop = Loop(context: nat, place: Place)

  datatype System = System(manager: Manager, loops: seq<Loop>, cancelled: set<nat>)

  datatype Step =
    | CallStart(context: nat)
    | CallStop
    | Cancel(context: nat)
    | Enter(loop: nat)
    | SeeDone(loop: nat)
    | SeeStop(loop: nat)
    | Tick(loop: nat)
    | StopByLoop(loop: nat)

  predicate IsClosed(m: Manager, chan: Option<nat>) {
    chan.Some? && chan.value < |m.closes| && m.closes[chan.value] > 0
  }

  predicate Enabled(s: System, step: Step) {
    match step
    case CallStart(_) => true
    case CallStop => true
    case Cancel(_) => true
    case Enter(i) => i < |s.loops| && (s.loops[i].place.Spawned? || s.loops[i].place.Checking?)
    case SeeDone(i) => i < |s.loops| && s.loops[i].place.Waiting? && s.loops[i].context in s.cancelled
    case SeeStop(i) => i < |s.loops| && s.loops[i].place.Waiting? && IsClosed(s.manager, s.loops[i].place.chan)
    case Tick(i) => i < |s.loops| && s.loops[i].place.Waiting?
    case StopByLoop(i) => i < |s.loops| && s.loops[i].place.Cancelling?
  }

  function Move(s: System, i: nat, place: Place): System
    requires i < |s.loops|
  {
    s.(loops := s.loops[i := s.loops[i].(place := place)])
  }

  function Do(s: System, step: Step): System
    requires Enabled(s, step)
  {
    match step
    case CallStart(context) =>
      if s.manager.running then s
      else s.(manager := Started(s.manager), loops := s.loops + [Loop(context, Spawned)])
    case CallStop => s.(manager := Stopped(s.manager))
    case Cancel(context) => s.(cancelled := s.cancelled + {context})
    case Enter(i) => Move(s, i, Waiting(s.manager.stopChan))
    case SeeDone(i) => Move(s, i, Cancelling)
    case SeeStop(i) => Move(s, i, Exited)
    case Tick(i) => Move(s, i, Checking)
    case StopByLoop(i) => Move(s.(manager := Stopped(s.manager)), i, Exited)
  }

  const INITIAL := System(Manager(false, None, false, []), [], {})

  ghost predicate IsRun(states: seq<System>, steps: seq<Step>) {
    && |states| == |steps| + 1 && states[0] == INITIAL
    && forall i :: 0 <= i < |steps| ==> Enabled(states[i], steps[i]) && states[i + 1] == Do(states[i], steps[i])
  }

  /** The manager is good, there is one loop per channel, and a loop waits on a channel that exists. */
  ghost predicate Inv(s: System) {
    && Good(s.manager)
    && |s.loops| == |s.manager.closes|
    && forall i :: 0 <= i < |s.loops| && s.loops[i].place.Waiting? ==>
        s.loops[i].place.chan.Some? && s.loops[i].place.chan.value < |s.manager.closes|
  }

  lemma DoKeepsInv(s: System, step: Step)
    requires Inv(s) && Enabled(s, step)
    ensures Inv(Do(s, step))
  {
  }

  lemma {:induction false} RunKeepsInv(states: seq<System>, steps: seq<Step>, i: nat)
    requires IsRun(states, steps) && i < |states|
    ensures Inv(states[i])
  {
    if i > 0 {
      RunKeepsInv(states, steps, i - 1);
      DoKeepsInv(states[i - 1], steps[i - 1]);
    }
  }

  /**
   In every run: no channel is closed twice, the manager runs exactly while its channel exists
   and is open, and once it does not run every channel ever made is closed.
   */
  lemma ChannelsAreSafe(states: seq<System>, steps: seq<Step>, i: nat)
    requires IsRun(states, steps) && i < |states|
    ensures var m := states[i].manager;
      && (forall c :: 0 <= c < |m.closes| ==> m.closes[c] <= 1)
      && (m.running <==> m.stopChan.Some? && m.stopChan.value < |m.closes| && m.closes[m.stopChan.value] == 0)
      && (!m.running ==> forall c :: 0 <= c < |m.closes| ==> m.closes[c] == 1)
  {
    RunKeepsInv(states, steps, i);
  }

  /** So while the manager is stopped every loop that waits, and every loop about to, can leave. */
  lemma StoppedLoopsCanLeave(states: seq<System>, steps: seq<Step>, i: nat, l: nat)
    requires IsRun(states, steps) && i < |states| && !states[i].manager.running && l < |states[i].loops|
    ensures states[i].loops[l].place.Waiting? ==> Enabled(states[i], SeeStop(l))
    ensures Enabled(states[i], Enter(l)) ==> Enabled(Do(states[i], Enter(l)), SeeStop(l))
  {
    RunKeepsInv(states, steps, i);
  }

  // ---------------------------------------------------------------- how many loops

  function Live(loops: seq<Loop>): nat {
    if loops == [] then 0
    else Live(loops[..|loops| - 1]) + if loops[|loops| - 1].place.Exited? then 0 else 1
  }

  lemma {:induction false} LiveUpdate(loops: seq<Loop>, i: nat, l: Loop)
    requires i < |loops| && !loops[i].place.Exited?
    ensures Live(loops[i := l]) == Live(loops) - if l.place.Exited? then 1 else 0
  {
    var n := |loops| - 1;
    if i < n {
      LiveUpdate(loops[..n], i, l);
      assert loops[i := l][..n] == loops[..n][i := l];
    } else {
      assert loops[i := l][..n] == loops[..n];
    }
  }

  lemma LiveStep(s: System, step: Step)
    requires Enabled(s, step)
    ensures Live(Do(s, step).loops) <= Live(s.loops) + if Starts(s, step) then 1 else 0
    ensures Starts(s, step) ==> Live(Do(s, step).loops) == Live(s.loops) + 1
  {
    var t := Do(s, step);
    if Starts(s, step) {
      assert t.loops[..|t.loops| - 1] == s.loops;
    } else if step.Enter? || step.SeeDone? || step.SeeStop? || step.Tick? || step.StopByLoop? {
      LiveUpdate(s.loops, step.loop, t.loops[step.loop]);
      assert t.loops == s.loops[step.loop := t.loops[step.loop]];
    }
  }

  /** A call to start that takes effect. */
  predicate Starts(s: System, step: Step) {
    step.CallStart? && !s.manager.running
  }

  /**
   A run never has two live loops exactly when every start that takes effect comes after the
   loops before it have exited. The manager does not wait for that.
   */
  lemma OneLoopIff(states: seq<System>, steps: seq<Step>)
    requires IsRun(states, steps)
    ensures (forall i :: 0 <= i < |states| ==> Live(states[i].loops) <= 1)
            <==> (forall i :: 0 <= i < |steps| && Starts(states[i], steps[i]) ==> Live(states[i].loops) == 0)
  {
    if forall i :: 0 <= i < |states| ==> Live(states[i].loops) <= 1 {
      forall i | 0 <= i < |steps| && Starts(states[i], steps[i])
        ensures Live(states[i].loops) == 0
      {
        LiveStep(states[i], steps[i]);
        assert Live(states[i + 1].loops) <= 1;
      }
    }
    if forall i :: 0 <= i < |steps| && Starts(states[i], steps[i]) ==> Live(states[i].loops) == 0 {
      forall i | 0 <= i < |states|
        ensures Live(states[i].loops) <= 1
      {
        AtMostOne(states, steps, i);
      }
    }
  }

  lemma {:induction false} AtMostOne(states: seq<System>, steps: seq<Step>, i: nat)
    requires IsRun(states, steps) && i < |states|
    requires forall k :: 0 <= k < |steps| && Starts(states[k], steps[k]) ==> Live(states[k].loops) == 0
    ensures Live(states[i].loops) <= 1
  {
    if i > 0 {
      AtMostOne(states, steps, i - 1);
      LiveStep(states[i - 1], steps[i - 1]);
    }
  }

  lemma Extend(states: seq<System>, steps: seq<Step>, step: Step) returns (states': seq<System>, steps': seq<Step>)
    requires IsRun(states, steps) && Enabled(states[|steps|], step)
    ensures IsRun(states', steps') && steps' == steps + [step] && states <= states'
    ensures states'[|steps'|] == Do(states[|steps|], step)
  {
    states', steps' := states + [Do(states[|steps|], step)], steps + [step];
  }

  // ---------------------------------------------------------------- who stops a running manager

  /** The steps are possible one after the other and lead from `s` to `t`. */
  ghost predicate Leads(s: System, steps: seq<Step>, t: System)
    decreases |steps|
  {
    if steps == [] then t == s
    else Enabled(s, steps[0]) && Leads(Do(s, steps[0]), steps[1..], t)
  }

  lemma {:induction false} LeadsOn(s: System, a: seq<Step>, t: System, b: seq<Step>, u: System)
    requires Leads(s, a, t) && Leads(t, b, u)
    ensures Leads(s, a + b, u)
    decreases |a|
  {
    if a == [] {
      assert a + b == b;
    } else {
      LeadsOn(Do(s, a[0]), a[1..], t, b, u);
      assert (a + b)[1..] == a[1..] + b;
    }
  }

  function Newest(s: System): Loop
    requires s.loops != []
  {
    s.loops[|s.loops| - 1]
  }

  /**
   A loop is about to stop the running manager, although the context that the manager was
   started with, which is that of its newest loop, has not ended.
   */
  predicate Overruns(s: System, l: nat) {
    s.loops != [] && s.manager.running && Newest(s).context !in s.cancelled && Enabled(s, StopByLoop(l))
  }

  /** Without any call to stop, some continuation lets a loop stop the manager out of turn. */
  ghost predicate CanBeOverrun(s: System) {
    exists steps, t, l :: CallStop !in steps && Leads(s, steps, t) && Overruns(t, l)
  }

  /** An older loop that has not exited. */
  ghost predicate HasStaleLoop(s: System) {
    exists l :: 0 <= l < |s.loops| - 1 && !s.loops[l].place.Exited?
  }

  /**
   Further facts of every reachable state: a loop leaves through cancellation only when its
   context has ended, a loop waits on no channel older than itself, and the newest loop of a
   running manager has not exited.
   */
  ghost predicate Loops(s: System) {
    && (forall i :: 0 <= i < |s.loops| && s.loops[i].place.Cancelling? ==> s.loops[i].context in s.cancelled)
    && (forall i :: 0 <= i < |s.loops| && s.loops[i].place.Waiting? ==> s.loops[i].place.chan.Some? && i <= s.loops[i].place.chan.value)
    && (s.manager.running ==> s.loops != [] && !Newest(s).place.Exited?)
  }

  lemma DoKeepsLoops(s: System, step: Step)
    requires Inv(s) && Loops(s) && Enabled(s, step)
    ensures Loops(Do(s, step))
  {
  }

  lemma {:induction false} RunKeepsLoops(states: seq<System>, steps: seq<Step>, i: nat)
    requires IsRun(states, steps) && i < |states|
    ensures Inv(states[i]) && Loops(states[i])
  {
    RunKeepsInv(states, steps, i);
    if i > 0 {
      RunKeepsLoops(states, steps, i - 1);
      DoKeepsLoops(states[i - 1], steps[i - 1]);
    }
  }

  // No stale loop: then there never is one, whatever follows.

  /** Every loop but the newest has exited, and that one too once the manager is stopped. */
  ghost predicate Tidy(s: System) {
    && (forall l :: 0 <= l < |s.loops| - 1 ==> s.loops[l].place.Exited?)
    && (!s.manager.running && s.loops != [] ==> Newest(s).place.Exited?)
  }

  lemma DoKeepsTidy(s: System, step: Step)
    requires Inv(s) && Loops(s) && Tidy(s) && Enabled(s, step) && !step.CallStop?
    ensures Tidy(Do(s, step))
  {
  }

  lemma {:induction false} TidyIsNotOverrun(s: System, steps: seq<Step>, t: System, l: nat)
    requires Inv(s) && Loops(s) && Tidy(s) && CallStop !in steps && Leads(s, steps, t)
    ensures !Overruns(t, l)
    decreases |steps|
  {
    if steps != [] {
      assert steps[0] in steps;
      DoKeepsInv(s, steps[0]);
      DoKeepsLoops(s, steps[0]);
      DoKeepsTidy(s, steps[0]);
      TidyIsNotOverrun(Do(s, steps[0]), steps[1..], t, l);
    }
  }

  // A stale loop: it can be led to stop a manager whose context is alive.

  /** Loop `l` brought to the point where it stops the manager: its context ends and it sees that. */
  function Roused(s: System, l: nat): System
    requires l < |s.loops|
  {
    Move(s.(cancelled := s.cancelled + {s.loops[l].context}), l, Cancelling)
  }

  lemma Rouse(s: System, l: nat) returns (steps: seq<Step>)
    requires l < |s.loops| && !s.loops[l].place.Exited?
    ensures CallStop !in steps && Leads(s, steps, Roused(s, l))
  {
    var c := s.loops[l].context;
    var s1 := s.(cancelled := s.cancelled + {c});
    assert Do(s, Cancel(c)) == s1;
    if s.loops[l].place.Cancelling? {
      steps := [Cancel(c)];
      assert Roused(s, l).loops == s.loops;
    } else if s.loops[l].place.Waiting? {
      steps := [Cancel(c), SeeDone(l)];
      assert Leads(s1, [SeeDone(l)], Roused(s, l));
    } else {
      steps := [Cancel(c), Enter(l), SeeDone(l)];
      var s2 := Do(s1, Enter(l));
      assert Do(s2, SeeDone(l)).loops == Roused(s, l).loops;
      assert Leads(s2, [SeeDone(l)], Roused(s, l));
      assert [Enter(l), SeeDone(l)][1..] == [SeeDone(l)];
    }
    assert Leads(s1, steps[1..], Roused(s, l));
  }

  lemma {:induction false} FreshContext(used: set<nat>) returns (c: nat)
    ensures forall x :: x in used ==> x < c
  {
    if used == {} {
      c := 0;
    } else {
      var x :| x in used;
      var d := FreshContext(used - {x});
      c := if d > x then d else x + 1;
      assert used == (used - {x}) + {x};
    }
  }

  /** The newest loop ends with its own context, and the manager is started again. */
  lemma Restart(s: System, l: nat) returns (steps: seq<Step>, t: System)
    requires Inv(s) && Loops(s) && s.manager.running && l < |s.loops| - 1 && !s.loops[l].place.Exited?
    ensures CallStop !in steps && Leads(s, steps, t)
    ensures t.manager.running && l < |t.loops| - 1 && t.loops[l] == s.loops[l]
    ensures Newest(t).context !in t.cancelled + {t.loops[l].context}
  {
    var newest := |s.loops| - 1;
    var rouse := Rouse(s, newest);
    var s1 := Roused(s, newest);
    var s2 := Do(s1, StopByLoop(newest));
    var c := FreshContext(s2.cancelled + {s.loops[l].context});
    t := Do(s2, CallStart(c));
    var more := [StopByLoop(newest), CallStart(c)];
    assert Leads(t, [], t) && more[1..] == [CallStart(c)] && more[1..][1..] == [];
    assert Leads(s2, [CallStart(c)], t);
    assert Leads(s1, more, t);
    LeadsOn(s, rouse, s1, more, t);
    steps := rouse + more;
  }

  lemma StaleLoopOverruns(s: System, l: nat)
    requires Inv(s) && Loops(s) && s.manager.running && l < |s.loops| - 1 && !s.loops[l].place.Exited?
    ensures CanBeOverrun(s)
  {
    var steps, t := [], s;
    assert Leads(s, [], s);
    if Newest(s).context in s.cancelled + {s.loops[l].context} {
      steps, t := Restart(s, l);
    }
    var rouse := Rouse(t, l);
    LeadsOn(s, steps, t, rouse, Roused(t, l));
    assert Overruns(Roused(t, l), l);
  }

  /**
   A running manager is stopped only by a call to stop or by the end of its own context, however
   the run goes on, exactly when every loop but the newest has exited.
   */
  lemma CanBeOverrunIff(states: seq<System>, steps: seq<Step>, i: nat)
    requires IsRun(states, steps) && i < |states| && states[i].manager.running
    ensures CanBeOverrun(states[i]) <==> HasStaleLoop(states[i])
  {
    var s := states[i];
    RunKeepsLoops(states, steps, i);
    if HasStaleLoop(s) {
      var l :| 0 <= l < |s.loops| - 1 && !s.loops[l].place.Exited?;
      StaleLoopOverruns(s, l);
    } else {
      if more, t, l :| CallStop !in more && Leads(s, more, t) && Overruns(t, l) {
        TidyIsNotOverrun(s, more, t, l);
        assert false;
      }
    }
  }

  ghost predicate HadTwoLoops(states: seq<System>) {
    exists i :: 0 <= i < |states| && Live(states[i].loops) == 2
  }

  /** The manager stopped at the last step, by a loop, while the newest run's context is alive. */
  ghost predicate StoppedByStaleLoop(s: System) {
    && !s.manager.running
    && |s.loops| == 2 && s.loops[0].place.Exited? && !s.loops[1].place.Exited?
    && s.loops[0].context in s.cancelled && s.loops[1].context !in s.cancelled
  }

  /** A restart while the first loop is still busy with a check. */
  const RESTARTED := System(Manager(true, Some(1), false, [1, 0]), [Loop(0, Checking), Loop(1, Spawned)], {})

  lemma ReachRestarted() returns (states: seq<System>, steps: seq<Step>)
    ensures IsRun(states, steps) && states[|steps|] == RESTARTED
  {
    states, steps := [INITIAL], [];
    states, steps := Extend(states, steps, CallStart(0));
    states, steps := Extend(states, steps, Enter(0));
    states, steps := Extend(states, steps, Tick(0));
    var checking := System(Manager(true, Some(0), false, [0]), [Loop(0, Checking)], {});
    assert states[|steps|] == checking;
    states, steps := Extend(states, steps, CallStop);
    states, steps := Extend(states, steps, CallStart(1));
  }

  /**
   The other case does happen: a loop busy with a check sleeps through a stop and a restart,
   joins the new run, and when its own context ends it stops a manager that nobody stopped.
   */
  lemma StaleLoopStopsNewRun() returns (states: seq<System>, steps: seq<Step>)
    ensures IsRun(states, steps) && HadTwoLoops(states)
    ensures StoppedByStaleLoop(states[|steps|]) && steps != [] && steps[|steps| - 1] == StopByLoop(0)
  {
    states, steps := ReachRestarted();
    var i := |steps|;
    assert RESTARTED.loops[..1] == [Loop(0, Checking)] && RESTARTED.loops[..1][..0] == [];
    assert Live(RESTARTED.loops) == 2;
    states, steps := Extend(states, steps, Enter(0));
    states, steps := Extend(states, steps, Cancel(0));
    states, steps := Extend(states, steps, SeeDone(0));
    states, steps := Extend(states, steps, StopByLoop(0));
    assert states[i] == RESTARTED;
  }
}
