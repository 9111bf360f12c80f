/** Whole runs of the memo protocol: which HEAD an answer is for, and which HEAD the
    memo is for, read off the list of steps alone. */
module MemoRuns {
  import opened MemoProtocol
  import opened Ordering
  import opened ResultMemo

  function Current(s: System): string
    requires s.heads != []
  {
    s.heads[|s.heads| - 1]
  }

  // ---- what a list of steps says ----

  /** HEAD after some steps of a run that starts at a given HEAD. */
  function HeadAfter(start: string, steps: seq<Step>): string {
    if steps == [] then start
    else
      var front, last := steps[..|steps| - 1], steps[|steps| - 1];
      if last.MoveHead? then last.head else HeadAfter(start, front)
  }

  /** The HEAD there was when the call observed it. */
  function HeadSeenBy(start: string, steps: seq<Step>, id: nat): Option<string> {
    if steps == [] then None
    else
      var front, last := steps[..|steps| - 1], steps[|steps| - 1];
      if last == Observe(id) then Some(HeadAfter(start, front)) else HeadSeenBy(start, front, id)
  }

  predicate ArrivedMemoizable(steps: seq<Step>, id: nat) {
    steps != [] &&
    var front, last := steps[..|steps| - 1], steps[|steps| - 1];
    if last.Arrive? && last.id == id then last.memoizable else ArrivedMemoizable(front, id)
  }

  /** The HEAD seen by the call that made the last memoizable lookup; the empty initial scope before any. */
  function ScopeAfter(start: string, steps: seq<Step>): Option<string> {
    if steps == [] then Some("")
    else
      var front, last := steps[..|steps| - 1], steps[|steps| - 1];
      if last.LookUp? && ArrivedMemoizable(front, last.id) then HeadSeenBy(start, front, last.id)
      else ScopeAfter(start, front)
  }

  /** Since the last lookup that changed the scope, some memoizable call that saw the scope head has stored. */
  predicate StoredInScope(start: string, steps: seq<Step>) {
    steps != [] &&
    var front, last := steps[..|steps| - 1], steps[|steps| - 1];
    if (last.LookUp? || last.Store?) && ArrivedMemoizable(front, last.id) then
      if HeadSeenBy(start, front, last.id) == ScopeAfter(start, front) then last.Store? || StoredInScope(start, front)
      else last.Store? && StoredInScope(start, front)
    else StoredInScope(start, front)
  }

  // ---- the state is what the steps say ----

  /** Which HEAD of the history a call remembers having observed. */
  function SeenAt(p: Phase): Option<nat> {
    match p
    case Observed(at) => Some(at)
    case Missed(at) => Some(at)
    case Computed(at, _) => Some(at)
    case Done(seen, _) => seen
    case _ => None
  }

  ghost predicate CallReplayed(start: string, steps: seq<Step>, s: System, id: nat)
    requires id in s.calls
  {
    && (s.calls[id].memoizable <==> ArrivedMemoizable(steps, id))
    && var at := SeenAt(s.calls[id].phase);
       at.Some? ==> at.value < |s.heads| && HeadSeenBy(start, steps, id) == Some(s.heads[at.value])
  }

  ghost predicate Replayed(start: string, steps: seq<Step>, s: System) {
    && s.heads != [] && Current(s) == HeadAfter(start, steps)
    && (forall id :: id in s.calls ==> CallReplayed(start, steps, s, id))
    && ScopeAfter(start, steps) == Some(s.memo.head)
    && (StoredInScope(start, steps) <==> s.memo.entries != map[])
  }

  lemma CallReplayStep(compute: Computation, start: string, steps: seq<Step>, s: System, step: Step, id: nat)
    requires Enabled(s, step) && Replayed(start, steps, s) && id in Do(compute, s, step).calls
    ensures CallReplayed(start, steps + [step], Do(compute, s, step), id)
  {
    assert (steps + [step])[..|steps|] == steps;
    if id in s.calls {
      assert CallReplayed(start, steps, s, id);
      if MovesCall(step) {
        OneCallMoves(compute, s, step);
        if step.id == id { StepKeepsSeen(compute, s, step); }
      }
    }
  }

  /** A call remembers what it observes; later steps of it keep or forget that. */
  lemma StepKeepsSeen(compute: Computation, s: System, step: Step)
    requires Enabled(s, step) && MovesCall(step)
    ensures step.id in Do(compute, s, step).calls
    ensures var seen := SeenAt(Do(compute, s, step).calls[step.id].phase);
      if step.Observe? then seen == Some(|s.heads| - 1) else seen in {None, SeenAt(s.calls[step.id].phase)}
  {}

  lemma MemoReplayStep(compute: Computation, start: string, steps: seq<Step>, s: System, step: Step)
    requires Enabled(s, step) && Replayed(start, steps, s)
    ensures ScopeAfter(start, steps + [step]) == Some(Do(compute, s, step).memo.head)
    ensures StoredInScope(start, steps + [step]) <==> Do(compute, s, step).memo.entries != map[]
  {
    assert (steps + [step])[..|steps|] == steps;
    if step.LookUp? || step.Store? {
      assert CallReplayed(start, steps, s, step.id);
      var c := s.calls[step.id];
      if step.Store? && c.memoizable && s.heads[c.phase.at] == s.memo.head {
        assert c.key in Do(compute, s, step).memo.entries;
      }
    }
  }

  lemma ReplayStep(compute: Computation, start: string, steps: seq<Step>, s: System, step: Step)
    requires Enabled(s, step) && Replayed(start, steps, s)
    ensures Replayed(start, steps + [step], Do(compute, s, step))
  {
    var s' := Do(compute, s, step);
    forall id | id in s'.calls ensures CallReplayed(start, steps + [step], s', id) {
      CallReplayStep(compute, start, steps, s, step, id);
    }
    MemoReplayStep(compute, start, steps, s, step);
    HeadReplayStep(compute, start, steps, s, step);
  }

  lemma HeadReplayStep(compute: Computation, start: string, steps: seq<Step>, s: System, step: Step)
    requires Enabled(s, step) && Current(s) == HeadAfter(start, steps)
    ensures Do(compute, s, step).heads != [] && Current(Do(compute, s, step)) == HeadAfter(start, steps + [step])
  {
    assert (steps + [step])[..|steps|] == steps;
  }

  lemma {:induction false} RunReplays(compute: Computation, states: seq<System>, steps: seq<Step>, i: nat)
    requires Run(compute, states, steps) && i < |states|
    ensures Replayed(states[0].heads[0], steps[..i], states[i])
    decreases i
  {
    if i > 0 {
      RunReplays(compute, states, steps, i - 1);
      assert StepAt(compute, states, steps, i - 1);
      ReplayStep(compute, states[0].heads[0], steps[..i - 1], states[i - 1], steps[i - 1]);
      assert steps[..i] == steps[..i - 1] + [steps[i - 1]];
    }
  }

  // ---- which HEAD an answer is for ----

  predicate HasObserved(p: Phase) { !p.Queued? && !p.Started? }

  lemma StepKeepsObservation(compute: Computation, s: System, step: Step, id: nat)
    requires Enabled(s, step) && id in s.calls
    ensures id in Do(compute, s, step).calls
    ensures var p, p' := s.calls[id].phase, Do(compute, s, step).calls[id].phase;
      && (step == Observe(id) ==> p' == Observed(|s.heads| - 1))
      && (HasObserved(p) ==> HasObserved(p') && step != Observe(id) && (SeenAt(p') == SeenAt(p) || SeenAt(p') == None))
  {}

  /** A call observes once, and from then on remembers that HEAD or none. */
  lemma {:induction false} ObservedOnce(compute: Computation, states: seq<System>, steps: seq<Step>, j: nat, i: nat,
                                        id: nat)
    requires Run(compute, states, steps) && j < i < |states| && steps[j] == Observe(id)
    ensures id in states[i].calls && HasObserved(states[i].calls[id].phase)
    ensures SeenAt(states[i].calls[id].phase) in {None, Some(|states[j].heads| - 1)}
    decreases i
  {
    assert StepAt(compute, states, steps, i - 1);
    if i > j + 1 { ObservedOnce(compute, states, steps, j, i - 1, id); }
    StepKeepsObservation(compute, states[i - 1], steps[i - 1], id);
  }

  lemma NeverObservesAgain(compute: Computation, states: seq<System>, steps: seq<Step>, j: nat, k: nat, id: nat)
    requires Run(compute, states, steps) && j < k < |steps| && steps[j] == Observe(id)
    ensures steps[k] != Observe(id)
  {
    ObservedOnce(compute, states, steps, j, k, id);
    assert StepAt(compute, states, steps, k);
  }

  lemma {:induction false} SeenMeansObserved(start: string, steps: seq<Step>, id: nat)
    requires HeadSeenBy(start, steps, id).Some?
    ensures exists j :: 0 <= j < |steps| && steps[j] == Observe(id)
  {
    var front, last := steps[..|steps| - 1], steps[|steps| - 1];
    if last == Observe(id) {
      assert steps[|steps| - 1] == Observe(id);
    } else {
      SeenMeansObserved(start, front, id);
      var j :| 0 <= j < |front| && front[j] == Observe(id);
      assert steps[j] == Observe(id);
    }
  }

  predicate Answered(c: Call) {
    c.phase.Done? && (c.phase.outcome.Ok? || c.phase.outcome.error.ComputeFailed?)
  }

  /** The answer is exactly what the computation gives at that HEAD, success or error. */
  ghost predicate AnswersAt(compute: Computation, head: string, c: Call)
    requires Answered(c)
  {
    match c.phase.outcome
    case Ok(value) => compute(head, c.key) == Ok(value)
    case Err(fault) => compute(head, c.key) == Err(fault.message)
  }

  lemma AnswerAtObservation(compute: Computation, states: seq<System>, steps: seq<Step>, j: nat, i: nat, id: nat)
    requires Run(compute, states, steps) && j < i < |states| && steps[j] == Observe(id)
    requires id in states[i].calls && states[i].calls[id].memoizable && Answered(states[i].calls[id])
    ensures states[j].heads != [] && AnswersAt(compute, Current(states[j]), states[i].calls[id])
  {
    RunKeepsInv(compute, states, steps, i);
    assert CallSound(compute, states[i].heads, states[i].calls[id]);
    RunReplays(compute, states, steps, j);
    ObservedOnce(compute, states, steps, j, i, id);
    RunsOnlyExtend(compute, states, steps, j, i);
    assert states[i].heads[|states[j].heads| - 1] == Current(states[j]);
  }

  lemma AnswerHasObservation(compute: Computation, states: seq<System>, steps: seq<Step>, i: nat, id: nat)
    returns (j: nat)
    requires Run(compute, states, steps) && i < |states| && id in states[i].calls && Answered(states[i].calls[id])
    ensures j < i && steps[j] == Observe(id)
  {
    RunKeepsInv(compute, states, steps, i);
    assert CallSound(compute, states[i].heads, states[i].calls[id]);
    RunReplays(compute, states, steps, i);
    assert CallReplayed(states[0].heads[0], steps[..i], states[i], id);
    SeenMeansObserved(states[0].heads[0], steps[..i], id);
    j :| 0 <= j < |steps[..i]| && steps[..i][j] == Observe(id);
  }

  /** Memoization is invisible: in every interleaving a memoizable call that ends with an answer has observed HEAD
      exactly once, and answers exactly what the computation gives for the HEAD it observed. */
  lemma AnswersForObservedHead(compute: Computation, states: seq<System>, steps: seq<Step>, i: nat, id: nat)
    requires Run(compute, states, steps) && i < |states| && id in states[i].calls
    requires states[i].calls[id].memoizable && Answered(states[i].calls[id])
    ensures exists j :: 0 <= j < i && steps[j] == Observe(id)
    ensures forall j, k :: 0 <= j < k < i ==> steps[j] != Observe(id) || steps[k] != Observe(id)
    ensures forall j :: 0 <= j < i && steps[j] == Observe(id) ==>
      states[j].heads != [] && AnswersAt(compute, Current(states[j]), states[i].calls[id])
  {
    var o := AnswerHasObservation(compute, states, steps, i, id);
    forall j, k | 0 <= j < k < i ensures steps[j] != Observe(id) || steps[k] != Observe(id) {
      if steps[j] == Observe(id) { NeverObservesAgain(compute, states, steps, j, k, id); }
    }
    forall j | 0 <= j < i && steps[j] == Observe(id)
      ensures states[j].heads != [] && AnswersAt(compute, Current(states[j]), states[i].calls[id])
    {
      AnswerAtObservation(compute, states, steps, j, i, id);
    }
  }

  // ---- which HEAD the memo is for ----

  /** The documented promise: what is stored describes the commit that is currently HEAD. */
  ghost predicate EntriesDescribeHead(s: System)
    requires s.heads != []
  {
    s.memo.entries != map[] ==> s.memo.head == Current(s)
  }

  /** The scope is always the HEAD that the call behind the last memoizable lookup observed, whatever HEAD is by
      now. So the promise holds exactly when nothing has been stored since that lookup took the scope, or HEAD is what
      that call observed; both can be read off the steps. */
  lemma EntriesDescribeHeadIff(compute: Computation, states: seq<System>, steps: seq<Step>, i: nat)
    requires Run(compute, states, steps) && i < |states|
    ensures states[i].heads != []
    ensures var start, past := states[0].heads[0], steps[..i];
      && ScopeAfter(start, past) == Some(states[i].memo.head)
      && (EntriesDescribeHead(states[i])
          <==> (StoredInScope(start, past) ==> ScopeAfter(start, past) == Some(HeadAfter(start, past))))
  {
    RunReplays(compute, states, steps, i);
  }

  /** A memoizable lookup makes the HEAD its call observed the scope, be it older or newer than the scope before, and
      drops every entry stored for another HEAD. */
  lemma LookUpTakesScope(compute: Computation, states: seq<System>, steps: seq<Step>, o: nat, j: nat, id: nat)
    requires Run(compute, states, steps) && o < j < |steps| && steps[o] == Observe(id) && steps[j] == LookUp(id)
    requires id in states[j].calls && states[j].calls[id].memoizable
    ensures states[o].heads != [] && states[j + 1].memo.head == Current(states[o])
    ensures states[j].memo.head != Current(states[o]) ==> states[j + 1].memo.entries == map[]
    ensures states[j].memo.head == Current(states[o]) ==> states[j + 1].memo == states[j].memo
  {
    assert StepAt(compute, states, steps, j);
    RunReplays(compute, states, steps, o);
    ObservedOnce(compute, states, steps, o, j, id);
    RunsOnlyExtend(compute, states, steps, o, j);
    assert states[j].heads[|states[o].heads| - 1] == Current(states[o]);
  }

  /** A store counts exactly when its call observed the HEAD the memo is for at that moment: a scope that has moved
      away makes it a no-op, one that has moved away and come back does not. */
  lemma StoreCountsIff(compute: Computation, states: seq<System>, steps: seq<Step>, o: nat, j: nat, id: nat)
    requires Run(compute, states, steps) && o < j < |steps| && steps[o] == Observe(id) && steps[j] == Store(id)
    requires id in states[j].calls && states[j].calls[id].memoizable
    ensures states[o].heads != [] && id in states[j + 1].calls && Answered(states[j + 1].calls[id])
    ensures var key, m, m' := states[j].calls[id].key, states[j].memo, states[j + 1].memo;
      if ScopeAfter(states[0].heads[0], steps[..j]) != Some(Current(states[o])) then m' == m
      else m'.head == m.head && key in m'.entries && Ok(m'.entries[key]) == compute(Current(states[o]), key)
  {
    assert StepAt(compute, states, steps, j);
    RunReplays(compute, states, steps, o);
    RunReplays(compute, states, steps, j);
    ObservedOnce(compute, states, steps, o, j, id);
    RunsOnlyExtend(compute, states, steps, o, j);
    assert states[j].heads[|states[o].heads| - 1] == Current(states[o]);
    RunKeepsInv(compute, states, steps, j);
    assert CallSound(compute, states[j].heads, states[j].calls[id]);
  }

  // ---- runs that break the promise ----

  lemma Extend(compute: Computation, states: seq<System>, steps: seq<Step>, step: Step)
    returns (states': seq<System>, steps': seq<Step>)
    requires Run(compute, states, steps) && Enabled(states[|steps|], step)
    ensures Run(compute, states', steps')
    ensures states' == states + [Do(compute, states[|steps|], step)] && steps' == steps + [step]
  {
    states', steps' := states + [Do(compute, states[|steps|], step)], steps + [step];
    forall i | 0 <= i < |steps'| ensures StepAt(compute, states', steps', i) {
      if i < |steps| { assert StepAt(compute, states, steps, i); }
    }
  }

  /** A call that has arrived and observed HEAD. */
  function UpToObserve(id: nat, key: string): seq<Step> {
    [Arrive(id, key, true), Acquire(id), Observe(id)]
  }

  lemma ExtendToObserve(compute: Computation, states: seq<System>, steps: seq<Step>, id: nat, key: string)
    returns (states': seq<System>, steps': seq<Step>)
    requires Run(compute, states, steps) && states[|steps|].heads != []
    requires id !in states[|steps|].calls && states[|steps|].permits > 0
    ensures Run(compute, states', steps') && steps' == steps + UpToObserve(id, key) && states <= states'
    ensures var s := states[|steps|]; var at := |s.heads| - 1;
      states'[|steps'|] == s.(calls := s.calls[id := Call(key, true, at, Observed(at))], permits := s.permits - 1)
  {
    states', steps' := Extend(compute, states, steps, Arrive(id, key, true));
    states', steps' := Extend(compute, states', steps', Acquire(id));
    states', steps' := Extend(compute, states', steps', Observe(id));
    assert states'[|steps'|].calls == states[|steps|].calls[id := states'[|steps'|].calls[id]];
  }

  /** A call that runs alone on a memo for another HEAD, and stores its answer. */
  function WholeCall(id: nat, key: string): seq<Step> {
    UpToObserve(id, key) + [LookUp(id), Compute(id, Err("")), Store(id)]
  }

  lemma ExtendToStore(compute: Computation, states: seq<System>, steps: seq<Step>, id: nat)
    returns (states': seq<System>, steps': seq<Step>)
    requires Run(compute, states, steps) && HeadsRecorded(states[|steps|], id)
    requires var s := states[|steps|]; var c := s.calls[id];
      && c.phase.Observed? && c.memoizable && s.memo.entries == map[]
      && compute(s.heads[c.phase.at], c.key).Ok?
    ensures Run(compute, states', steps') && states <= states'
    ensures steps' == steps + [LookUp(id), Compute(id, Err("")), Store(id)]
    ensures var s, s' := states[|steps|], states'[|steps'|]; var c := s.calls[id]; var head := s.heads[c.phase.at];
      && s'.heads == s.heads && s'.permits == s.permits + 1
      && s'.memo == MemoState(head, map[c.key := compute(head, c.key).value])
      && id in s'.calls && s'.calls == s.calls[id := s'.calls[id]]
  {
    states', steps' := Extend(compute, states, steps, LookUp(id));
    states', steps' := Extend(compute, states', steps', Compute(id, Err("")));
    states', steps' := Extend(compute, states', steps', Store(id));
  }

  lemma ExtendByCall(compute: Computation, states: seq<System>, steps: seq<Step>, id: nat, key: string)
    returns (states': seq<System>, steps': seq<Step>)
    requires Run(compute, states, steps) && states[|steps|].heads != []
    requires id !in states[|steps|].calls && states[|steps|].permits > 0
    requires compute(Current(states[|steps|]), key).Ok? && states[|steps|].memo.entries == map[]
    ensures Run(compute, states', steps') && steps' == steps + WholeCall(id, key) && states <= states'
    ensures var s, s' := states[|steps|], states'[|steps'|];
      && s'.heads == s.heads && s'.permits == s.permits
      && s'.memo == MemoState(Current(s), map[key := compute(Current(s), key).value])
      && id in s'.calls && s'.calls == s.calls[id := s'.calls[id]]
  {
    states', steps' := ExtendToObserve(compute, states, steps, id, key);
    states', steps' := ExtendToStore(compute, states', steps', id);
  }

  /** HEAD moves on after a call has stored: the entry describes a superseded commit. */
  lemma SupersededEntriesExample(compute: Computation, h1: string, h2: string, key: string)
    returns (states: seq<System>, steps: seq<Step>)
    requires h1 != h2 && compute(h1, key).Ok?
    ensures Run(compute, states, steps) && states[0].heads == [h1]
    ensures steps == WholeCall(0, key) + [MoveHead(h2)]
    ensures var s := states[|steps|];
      && s.memo == MemoState(h1, map[key := compute(h1, key).value])
      && s.heads != [] && Current(s) == h2 && !EntriesDescribeHead(s)
  {
    states, steps := [System([h1], MemoState("", map[]), MAX_CONCURRENT_CALLS, map[])], [];
    states, steps := ExtendByCall(compute, states, steps, 0, key);
    states, steps := Extend(compute, states, steps, MoveHead(h2));
    assert key in states[|steps|].memo.entries;
  }

  /** A call that observed the old HEAD looks up late: the scope goes back to the old HEAD, and the newer entry, which
      did describe the current commit, is dropped. */
  lemma ScopeMovesBackExample(compute: Computation, h1: string, h2: string, key: string)
    returns (states: seq<System>, steps: seq<Step>)
    requires h1 != h2 && compute(h2, key).Ok?
    ensures Run(compute, states, steps) && states[0].heads == [h1]
    ensures steps == UpToObserve(0, key) + [MoveHead(h2)] + WholeCall(1, key) + [LookUp(0)]
    ensures var before, after := states[|steps| - 1], states[|steps|];
      && before.memo == MemoState(h2, map[key := compute(h2, key).value]) && after.memo == MemoState(h1, map[])
      && before.heads == after.heads == [h1, h2]
  {
    states, steps := [System([h1], MemoState("", map[]), MAX_CONCURRENT_CALLS, map[])], [];
    states, steps := ExtendToObserve(compute, states, steps, 0, key);
    states, steps := Extend(compute, states, steps, MoveHead(h2));
    states, steps := ExtendByCall(compute, states, steps, 1, key);
    states, steps := Extend(compute, states, steps, LookUp(0));
  }
}
