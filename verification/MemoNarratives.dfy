/** How calls end: one that bypasses the memo, such as an LLM-backed explain_file, answers what it computed itself, and
    the last step of any call explains its outcome. */
module MemoNarratives {
  import opened MemoProtocol
  import opened MemoRuns
  import opened Ordering
  import opened ResultMemo

  /** What the call's own computation produced, read off the steps. */
  function NarrativeOf(steps: seq<Step>, id: nat): Option<Result<string, string>> {
    if steps == [] then None
    else
      var front, last := steps[..|steps| - 1], steps[|steps| - 1];
      if last.Compute? && last.id == id then Some(last.narrative) else NarrativeOf(front, id)
  }

  /** A call that is not memoizable knows, and in the end answers, its own narrative. */
  ghost predicate KnowsNarrative(steps: seq<Step>, c: Call, id: nat) {
    !c.memoizable ==>
      match c.phase
      case Computed(_, value) => NarrativeOf(steps, id) == Some(Ok(value))
      case Done(_, Ok(value)) => NarrativeOf(steps, id) == Some(Ok(value))
      case Done(_, Err(ComputeFailed(message))) => NarrativeOf(steps, id) == Some(Err(message))
      case _ => true
  }

  lemma NarrativeStep(compute: Computation, steps: seq<Step>, s: System, step: Step, id: nat)
    requires Enabled(s, step) && id in Do(compute, s, step).calls
    requires id in s.calls ==> KnowsNarrative(steps, s.calls[id], id)
    ensures KnowsNarrative(steps + [step], Do(compute, s, step).calls[id], id)
  {
    assert (steps + [step])[..|steps|] == steps;
    if id in s.calls && MovesCall(step) { OneCallMoves(compute, s, step); }
  }

  lemma {:induction false} RunKnowsNarratives(compute: Computation, states: seq<System>, steps: seq<Step>, i: nat,
                                              id: nat)
    requires Run(compute, states, steps) && i < |states| && id in states[i].calls
    ensures KnowsNarrative(steps[..i], states[i].calls[id], id)
    decreases i
  {
    if i > 0 {
      assert StepAt(compute, states, steps, i - 1);
      if id in states[i - 1].calls { RunKnowsNarratives(compute, states, steps, i - 1, id); }
      NarrativeStep(compute, steps[..i - 1], states[i - 1], steps[i - 1], id);
      assert steps[..i] == steps[..i - 1] + [steps[i - 1]];
    }
  }

  lemma {:induction false} NarrativeIsComputed(steps: seq<Step>, id: nat)
    requires NarrativeOf(steps, id).Some?
    ensures exists j :: 0 <= j < |steps| && steps[j] == Compute(id, NarrativeOf(steps, id).value)
  {
    var front, last := steps[..|steps| - 1], steps[|steps| - 1];
    if last.Compute? && last.id == id {
      assert steps[|steps| - 1] == Compute(id, NarrativeOf(steps, id).value);
    } else {
      NarrativeIsComputed(front, id);
      var j :| 0 <= j < |front| && front[j] == Compute(id, NarrativeOf(front, id).value);
      assert steps[j] == front[j];
    }
  }

  ghost predicate AnswersNarrative(c: Call, id: nat, step: Step)
    requires Answered(c)
  {
    step.Compute? && step.id == id &&
    match c.phase.outcome
    case Ok(value) => step.narrative == Ok(value)
    case Err(fault) => step.narrative == Err(fault.message)
  }

  /** In every interleaving a call that is not memoizable, if it ends with an answer, answers exactly the narrative of
      its own computation, success or error, whatever the memo holds. */
  lemma NarrativesAreAnswered(compute: Computation, states: seq<System>, steps: seq<Step>, i: nat, id: nat)
    requires Run(compute, states, steps) && i < |states| && id in states[i].calls
    requires !states[i].calls[id].memoizable && Answered(states[i].calls[id])
    ensures exists j :: 0 <= j < i && AnswersNarrative(states[i].calls[id], id, steps[j])
  {
    RunKnowsNarratives(compute, states, steps, i, id);
    NarrativeIsComputed(steps[..i], id);
    var j :| 0 <= j < |steps[..i]| && steps[..i][j] == Compute(id, NarrativeOf(steps[..i], id).value);
    assert steps[j] == steps[..i][j];
  }

  // ---- how a call ends ----

  /** The last step a call has taken. */
  function LastStepOf(steps: seq<Step>, id: nat): Option<Step> {
    if steps == [] then None
    else
      var front, last := steps[..|steps| - 1], steps[|steps| - 1];
      if MovesCall(last) && last.id == id then Some(last) else LastStepOf(front, id)
  }

  /** The step that can have ended a call with this outcome. */
  predicate Explains(step: Step, outcome: Result<string, Fault>) {
    match outcome
    case Ok(_) => step.LookUp? || step.Store?
    case Err(OpenFailed) => step.FailToOpen?
    case Err(ComputeFailed(_)) => step.Compute?
    case Err(Panicked) => step.Panic?
  }

  ghost predicate EndExplained(steps: seq<Step>, c: Call, id: nat) {
    c.phase.Done? ==> LastStepOf(steps, id).Some? && Explains(LastStepOf(steps, id).value, c.phase.outcome)
  }

  lemma EndStep(compute: Computation, steps: seq<Step>, s: System, step: Step, id: nat)
    requires Enabled(s, step) && id in Do(compute, s, step).calls
    requires id in s.calls ==> EndExplained(steps, s.calls[id], id)
    ensures EndExplained(steps + [step], Do(compute, s, step).calls[id], id)
  {
    assert (steps + [step])[..|steps|] == steps;
    if id in s.calls && MovesCall(step) { OneCallMoves(compute, s, step); }
  }

  /** In every interleaving the outcome of a finished call is explained by its last step: an answer comes from a hit or
      a store, each kind of fault from the step of that kind. */
  lemma {:induction false} OutcomesAreExplained(compute: Computation, states: seq<System>, steps: seq<Step>,
                                                i: nat, id: nat)
    requires Run(compute, states, steps) && i < |states| && id in states[i].calls
    ensures EndExplained(steps[..i], states[i].calls[id], id)
    decreases i
  {
    if i > 0 {
      assert StepAt(compute, states, steps, i - 1);
      if id in states[i - 1].calls { OutcomesAreExplained(compute, states, steps, i - 1, id); }
      EndStep(compute, steps[..i - 1], states[i - 1], steps[i - 1], id);
      assert steps[..i] == steps[..i - 1] + [steps[i - 1]];
    }
  }
}
