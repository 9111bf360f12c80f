/** Progress of the memo protocol: no deadlock, a bound on the steps of a run, and how a run ends. */
module MemoProgress {
  import opened MemoProtocol
  import opened ResultMemo
  import opened Totals

  /** Steps a call still has to take, at most. */
  function Remaining(p: Phase): nat {
    match p
    case Queued => 5
    case Started => 4
    case Observed(_) => 3
    case Missed(_) => 2
    case Computed(_, _) => 1
    case Done(_, _) => 0
  }

  /** Every step of a call brings it closer to its end and disturbs no other call. */
  lemma StepsMakeProgress(compute: Computation, s: System, step: Step, id: nat)
    requires Enabled(s, step) && id in s.calls
    ensures id in Do(compute, s, step).calls
    ensures MovesCall(step) && step.id == id ==>
      Remaining(Do(compute, s, step).calls[id].phase) < Remaining(s.calls[id].phase)
    ensures !(MovesCall(step) && step.id == id) ==> Do(compute, s, step).calls[id] == s.calls[id]
  {}

  /** A running call can always take its next step. */
  function NextStep(s: System, id: nat): (step: Step)
    requires id in s.calls && HoldsPermit(s.calls[id].phase) && HeadsRecorded(s, id) && s.heads != []
    ensures Enabled(s, step) && MovesCall(step) && step.id == id
  {
    match s.calls[id].phase
    case Started => Observe(id)
    case Observed(_) => LookUp(id)
    case Missed(_) => Compute(id, Err(""))
    case Computed(_, _) => Store(id)
  }

  /** No deadlock: as long as some call is unfinished, some call can step. */
  lemma SomeCallCanStep(compute: Computation, s: System, id: nat)
    requires Inv(compute, s) && id in s.calls && !s.calls[id].phase.Done?
    ensures exists step :: Enabled(s, step) && MovesCall(step)
  {
    if HoldsPermit(s.calls[id].phase) {
      assert CallSound(compute, s.heads, s.calls[id]);
      assert Enabled(s, NextStep(s, id));
    } else if s.permits > 0 {
      assert Enabled(s, Acquire(id));
    } else {
      assert Holders(s.calls) != {};
      var busy :| busy in Holders(s.calls);
      assert CallSound(compute, s.heads, s.calls[busy]);
      assert Enabled(s, NextStep(s, busy));
    }
  }

  // ---- whole runs ----

  function CallSteps(steps: seq<Step>): nat {
    if steps == [] then 0
    else CallSteps(steps[..|steps| - 1]) + if MovesCall(steps[|steps| - 1]) then 1 else 0
  }

  function Arrivals(steps: seq<Step>): nat {
    if steps == [] then 0
    else Arrivals(steps[..|steps| - 1]) + if steps[|steps| - 1].Arrive? then 1 else 0
  }

  function StepsLeft(c: Call): nat { Remaining(c.phase) }

  /** Steps all calls together still have to take, at most. */
  ghost function Work(s: System): nat { Total(s.calls, StepsLeft) }

  lemma StepUsesWork(compute: Computation, s: System, step: Step)
    requires Enabled(s, step)
    ensures Work(Do(compute, s, step)) + (if MovesCall(step) then 1 else 0) <= Work(s) + if step.Arrive? then 5 else 0
  {
    if step.Arrive? {
      TotalAfterUpdate(s.calls, step.id, Do(compute, s, step).calls[step.id], StepsLeft);
    } else if MovesCall(step) {
      OneCallMoves(compute, s, step);
      StepsMakeProgress(compute, s, step, step.id);
      TotalAfterUpdate(s.calls, step.id, Do(compute, s, step).calls[step.id], StepsLeft);
      TotalWithout(s.calls, step.id, StepsLeft);
    }
  }

  lemma {:induction false} RunUsesWork(compute: Computation, states: seq<System>, steps: seq<Step>, i: nat)
    requires Run(compute, states, steps) && i < |states|
    ensures CallSteps(steps[..i]) + Work(states[i]) <= 5 * Arrivals(steps[..i])
    decreases i
  {
    if i > 0 {
      RunUsesWork(compute, states, steps, i - 1);
      assert StepAt(compute, states, steps, i - 1);
      StepUsesWork(compute, states[i - 1], steps[i - 1]);
      assert steps[..i][..i - 1] == steps[..i - 1];
    }
  }

  /** However calls interleave, a run in which n calls arrive has at most 5n steps of calls. */
  lemma CallStepsAreBounded(compute: Computation, states: seq<System>, steps: seq<Step>)
    requires Run(compute, states, steps)
    ensures CallSteps(steps) <= 5 * Arrivals(steps)
  {
    RunUsesWork(compute, states, steps, |steps|);
    assert steps[..|steps|] == steps;
  }

  /** A run is stuck exactly when every call has ended, and then all permits are back. */
  lemma RunsEndDone(compute: Computation, states: seq<System>, steps: seq<Step>)
    requires Run(compute, states, steps)
    ensures var s := states[|steps|];
      && ((forall step :: MovesCall(step) ==> !Enabled(s, step)) <==>
        (forall id :: id in s.calls ==> s.calls[id].phase.Done?))
      && ((forall id :: id in s.calls ==> s.calls[id].phase.Done?) ==> s.permits == MAX_CONCURRENT_CALLS)
  {
    var s := states[|steps|];
    RunKeepsInv(compute, states, steps, |steps|);
    forall id | id in s.calls && !s.calls[id].phase.Done? ensures exists step :: MovesCall(step) && Enabled(s, step) {
      SomeCallCanStep(compute, s, id);
    }
    if forall id :: id in s.calls ==> s.calls[id].phase.Done? {
      assert Holders(s.calls) == {};
    }
  }
}
