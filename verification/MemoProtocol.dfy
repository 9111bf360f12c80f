/** Concurrent tool calls over the result memo (mcp.rs) as a state machine: calls queue for
    one of four permits, observe HEAD, look the memo up, compute outside the lock and store,
    while HEAD may move between any two steps. */
module MemoProtocol {
  import opened Ordering
  import opened ResultMemo

  const MAX_CONCURRENT_CALLS: nat := 4

  datatype Fault = OpenFailed | ComputeFailed(message: string) | Panicked

  /** Where a call is. Observed, Missed and Computed remember which HEAD of the history was observed. */
  datatype Phase =
    | Queued
    | Started
    | Observed(at: nat)
    | Missed(at: nat)
    | Computed(at: nat, value: string)
    | Done(seen: Option<nat>, outcome: Result<string, Fault>)

  /** `since` is the index of the HEAD at the time the call arrived. A call that is not memoizable bypasses the memo:
      an explain_file narrative, or a tool that never touches it. */
  datatype Call = Call(key: string, memoizable: bool, since: nat, phase: Phase)

  /** `heads` is every HEAD the repository has had, the current one last. */
  datatype System = System(heads: seq<string>, memo: MemoState, permits: nat, calls: map<nat, Call>)

  datatype Step =
    | MoveHead(head: string)
    | Arrive(id: nat, key: string, memoizable: bool)
    | Acquire(id: nat)
    | FailToOpen(id: nat)
    | Observe(id: nat)
    | LookUp(id: nat)
    | Compute(id: nat, narrative: Result<string, string>)
    | Store(id: nat)
    | Panic(id: nat)

  predicate HoldsPermit(p: Phase) { p.Started? || p.Observed? || p.Missed? || p.Computed? }

  ghost predicate Init(s: System) {
    && |s.heads| == 1 && s.memo == MemoState("", map[])
    && s.permits == MAX_CONCURRENT_CALLS && s.calls == map[]
  }

  predicate HeadsRecorded(s: System, id: nat) {
    id in s.calls && match s.calls[id].phase
      case Observed(at) => at < |s.heads|
      case Missed(at) => at < |s.heads|
      case Computed(at, _) => at < |s.heads|
      case _ => true
  }

  predicate Enabled(s: System, step: Step) {
    s.heads != [] && match step
      case MoveHead(_) => true
      case Arrive(id, _, _) => id !in s.calls
      case Acquire(id) => id in s.calls && s.calls[id].phase.Queued? && s.permits > 0
      case FailToOpen(id) => id in s.calls && s.calls[id].phase.Started?
      case Observe(id) => id in s.calls && s.calls[id].phase.Started?
      case LookUp(id) => HeadsRecorded(s, id) && s.calls[id].phase.Observed?
      case Compute(id, _) => HeadsRecorded(s, id) && s.calls[id].phase.Missed?
      case Store(id) => HeadsRecorded(s, id) && s.calls[id].phase.Computed?
      case Panic(id) => id in s.calls && HoldsPermit(s.calls[id].phase)
  }

  function Moved(s: System, id: nat, p: Phase): map<nat, Call>
    requires id in s.calls
  {
    s.calls[id := s.calls[id].(phase := p)]
  }

  /** The call ends: its permit is released with it, on a panic too. */
  function Finish(s: System, id: nat, seen: Option<nat>, outcome: Result<string, Fault>): System
    requires id in s.calls
  {
    s.(calls := Moved(s, id, Done(seen, outcome)), permits := s.permits + 1)
  }

  function Do(compute: Computation, s: System, step: Step): System
    requires Enabled(s, step)
  {
    match step
    case MoveHead(head) => s.(heads := s.heads + [head])
    case Arrive(id, key, memoizable) => s.(calls := s.calls[id := Call(key, memoizable, |s.heads| - 1, Queued)])
    case Acquire(id) => s.(calls := Moved(s, id, Started), permits := s.permits - 1)
    case FailToOpen(id) => Finish(s, id, None, Err(OpenFailed))
    case Observe(id) => s.(calls := Moved(s, id, Observed(|s.heads| - 1)))
    case LookUp(id) =>
      var c, at := s.calls[id], s.calls[id].phase.at;
      if !c.memoizable then s.(calls := Moved(s, id, Missed(at)))
      else
        var (memo, hit) := AfterGet(s.memo, s.heads[at], c.key);
        if hit.Some? then Finish(s.(memo := memo), id, Some(at), Ok(hit.value))
        else s.(memo := memo, calls := Moved(s, id, Missed(at)))
    case Compute(id, narrative) =>
      var c, at := s.calls[id], s.calls[id].phase.at;
      var out := if c.memoizable then compute(s.heads[at], c.key) else narrative;
      if out.Ok? then s.(calls := Moved(s, id, Computed(at, out.value)))
      else Finish(s, id, Some(at), Err(ComputeFailed(out.error)))
    case Store(id) =>
      var c, at, value := s.calls[id], s.calls[id].phase.at, s.calls[id].phase.value;
      var memo := if c.memoizable then AfterPut(s.memo, s.heads[at], c.key, value) else s.memo;
      Finish(s.(memo := memo), id, Some(at), Ok(value))
    case Panic(id) => Finish(s, id, None, Err(Panicked))
  }

  // ---- the invariant ----

  /** Index `at` names a HEAD the repository had while the call was running. */
  ghost predicate SeenDuring(heads: seq<string>, c: Call, at: nat) {
    c.since <= at < |heads|
  }

  /** What a call knows in its phase. */
  ghost predicate CallSound(compute: Computation, heads: seq<string>, c: Call) {
    c.since < |heads| && match c.phase
      case Queued => true
      case Started => true
      case Observed(at) => SeenDuring(heads, c, at)
      case Missed(at) => SeenDuring(heads, c, at)
      case Computed(at, value) => SeenDuring(heads, c, at) && (c.memoizable ==> compute(heads[at], c.key) == Ok(value))
      case Done(seen, outcome) => AnswerSound(compute, heads, c, seen, outcome)
  }

  /** A finished call that got as far as an answer answers for a HEAD it saw; a memoizable one answers exactly what
      the computation gives there, success or error. */
  ghost predicate AnswerSound(compute: Computation, heads: seq<string>, c: Call, seen: Option<nat>,
                              outcome: Result<string, Fault>)
  {
    match outcome
    case Ok(value) =>
      seen.Some? && SeenDuring(heads, c, seen.value)
        && (c.memoizable ==> compute(heads[seen.value], c.key) == Ok(value))
    case Err(ComputeFailed(message)) =>
      seen.Some? && SeenDuring(heads, c, seen.value)
        && (c.memoizable ==> compute(heads[seen.value], c.key) == Err(message))
    case Err(_) => true
  }

  /** Call id produced the entry for k: it is memoizable, finished successfully with that value, at the scope head. */
  ghost predicate Produced(s: System, id: nat, k: string) {
    && k in s.memo.entries && id in s.calls
    && var c := s.calls[id];
    && c.memoizable && c.key == k && c.phase.Done? && c.phase.outcome == Ok(s.memo.entries[k])
    && c.phase.seen.Some? && c.phase.seen.value < |s.heads| && s.heads[c.phase.seen.value] == s.memo.head
  }

  function Holders(calls: map<nat, Call>): set<nat> {
    set id | id in calls && HoldsPermit(calls[id].phase)
  }

  ghost predicate CallsSound(compute: Computation, s: System) {
    forall id :: id in s.calls ==> CallSound(compute, s.heads, s.calls[id])
  }

  ghost predicate MemoSound(compute: Computation, s: System) {
    && Sound(s.memo, compute)
    && |s.memo.entries| <= MEMO_CAPACITY
    && forall k :: k in s.memo.entries ==> exists id :: Produced(s, id, k)
  }

  ghost predicate PermitsBalance(s: System) {
    s.permits + |Holders(s.calls)| == MAX_CONCURRENT_CALLS
  }

  ghost predicate Inv(compute: Computation, s: System) {
    s.heads != [] && CallsSound(compute, s) && MemoSound(compute, s) && PermitsBalance(s)
  }

  lemma HoldersAfterMove(s: System, id: nat, p: Phase)
    requires id in s.calls
    ensures Holders(Moved(s, id, p)) == if HoldsPermit(p) then Holders(s.calls) + {id} else Holders(s.calls) - {id}
  {}

  lemma StepKeepsPermits(compute: Computation, s: System, step: Step)
    requires Enabled(s, step) && PermitsBalance(s)
    ensures PermitsBalance(Do(compute, s, step))
  {
    var s' := Do(compute, s, step);
    if step.Arrive? {
      assert Holders(s'.calls) == Holders(s.calls);
    } else if !step.MoveHead? {
      OneCallMoves(compute, s, step);
      HoldersAfterMove(s, step.id, s'.calls[step.id].phase);
      assert HoldsPermit(s.calls[step.id].phase) <==> step.id in Holders(s.calls);
    }
  }

  predicate MovesCall(step: Step) { !step.MoveHead? && !step.Arrive? }

  /** A call step changes the phase of its own call only, and the permits exactly as that call takes or gives one. */
  lemma OneCallMoves(compute: Computation, s: System, step: Step)
    requires Enabled(s, step) && MovesCall(step)
    ensures step.id in s.calls && step.id in Do(compute, s, step).calls
    ensures Do(compute, s, step).heads == s.heads
    ensures Do(compute, s, step).calls == Moved(s, step.id, Do(compute, s, step).calls[step.id].phase)
    ensures var held, holds :=
      HoldsPermit(s.calls[step.id].phase), HoldsPermit(Do(compute, s, step).calls[step.id].phase);
      Do(compute, s, step).permits - s.permits == (if held then 1 else 0) - (if holds then 1 else 0)
  {}

  lemma CallStaysSound(compute: Computation, heads: seq<string>, c: Call, head: string)
    requires CallSound(compute, heads, c)
    ensures CallSound(compute, heads + [head], c)
  {}

  lemma MovedCallIsSound(compute: Computation, s: System, step: Step)
    requires Enabled(s, step) && MovesCall(step) && CallsSound(compute, s) && Sound(s.memo, compute)
    ensures step.id in Do(compute, s, step).calls
    ensures CallSound(compute, s.heads, Do(compute, s, step).calls[step.id])
  {
    assert CallSound(compute, s.heads, s.calls[step.id]);
    if step.LookUp? && s.calls[step.id].memoizable {
      GetKeepsSound(s.memo, s.heads[s.calls[step.id].phase.at], s.calls[step.id].key, compute);
    }
  }

  lemma StepKeepsCalls(compute: Computation, s: System, step: Step)
    requires Enabled(s, step) && CallsSound(compute, s) && MemoSound(compute, s)
    ensures CallsSound(compute, Do(compute, s, step))
  {
    if MovesCall(step) {
      OneCallMoves(compute, s, step);
      MovedCallIsSound(compute, s, step);
    } else if step.MoveHead? {
      forall id | id in s.calls ensures CallSound(compute, s.heads + [step.head], s.calls[id]) {
        CallStaysSound(compute, s.heads, s.calls[id], step.head);
      }
    }
  }

  /** The producer of an entry stays its producer while the entry stays. */
  lemma ProducerStays(compute: Computation, s: System, step: Step, id: nat, k: string)
    requires Enabled(s, step) && Produced(s, id, k)
    requires var m := Do(compute, s, step).memo;
             k in m.entries && m.entries[k] == s.memo.entries[k] && m.head == s.memo.head
    ensures Produced(Do(compute, s, step), id, k)
  {}

  lemma StepKeepsEntriesSound(compute: Computation, s: System, step: Step)
    requires Enabled(s, step) && CallsSound(compute, s) && Sound(s.memo, compute) && |s.memo.entries| <= MEMO_CAPACITY
    ensures Sound(Do(compute, s, step).memo, compute) && |Do(compute, s, step).memo.entries| <= MEMO_CAPACITY
  {
    if step.LookUp? && s.calls[step.id].memoizable {
      GetKeepsSound(s.memo, s.heads[s.calls[step.id].phase.at], s.calls[step.id].key, compute);
    } else if step.Store? && s.calls[step.id].memoizable {
      var c := s.calls[step.id];
      assert CallSound(compute, s.heads, c);
      PutKeepsSound(s.memo, s.heads[c.phase.at], c.key, c.phase.value, compute);
    }
  }

  lemma StepKeepsMemo(compute: Computation, s: System, step: Step)
    requires Enabled(s, step) && CallsSound(compute, s) && MemoSound(compute, s)
    ensures MemoSound(compute, Do(compute, s, step))
  {
    var s' := Do(compute, s, step);
    StepKeepsEntriesSound(compute, s, step);
    forall k | k in s'.memo.entries ensures exists id :: Produced(s', id, k) {
      if k in s.memo.entries && s'.memo.entries[k] == s.memo.entries[k] && s'.memo.head == s.memo.head {
        var id :| Produced(s, id, k);
        ProducerStays(compute, s, step, id, k);
      } else {
        NewEntryIsProduced(compute, s, step, k);
      }
    }
  }

  lemma NewEntryIsProduced(compute: Computation, s: System, step: Step, k: string)
    requires Enabled(s, step) && k in Do(compute, s, step).memo.entries
    requires var m := Do(compute, s, step).memo;
             !(k in s.memo.entries && m.entries[k] == s.memo.entries[k] && m.head == s.memo.head)
    ensures step.Store? && Produced(Do(compute, s, step), step.id, k)
  {}

  lemma StepKeepsInv(compute: Computation, s: System, step: Step)
    requires Enabled(s, step) && Inv(compute, s)
    ensures Inv(compute, Do(compute, s, step))
  {
    StepKeepsPermits(compute, s, step);
    StepKeepsCalls(compute, s, step);
    StepKeepsMemo(compute, s, step);
  }

  // ---- whole runs ----

  /** An interleaving: a start state and the states reached by enabled steps. */
  ghost predicate Run(compute: Computation, states: seq<System>, steps: seq<Step>) {
    && |states| == |steps| + 1 && Init(states[0])
    && forall i :: 0 <= i < |steps| ==> StepAt(compute, states, steps, i)
  }

  ghost predicate StepAt(compute: Computation, states: seq<System>, steps: seq<Step>, i: nat)
    requires i < |steps| < |states|
  {
    Enabled(states[i], steps[i]) && states[i + 1] == Do(compute, states[i], steps[i])
  }

  lemma {:induction false} RunKeepsInv(compute: Computation, states: seq<System>, steps: seq<Step>, i: nat)
    requires Run(compute, states, steps) && i < |states|
    ensures Inv(compute, states[i])
    decreases i
  {
    if i > 0 {
      RunKeepsInv(compute, states, steps, i - 1);
      assert StepAt(compute, states, steps, i - 1);
      StepKeepsInv(compute, states[i - 1], steps[i - 1]);
    } else {
      assert Holders(states[0].calls) == {};
    }
  }

  /** s' continues s: HEADs were only appended, and every call keeps its key, its kind and its arrival. */
  ghost predicate Continues(s: System, s': System) {
    && s.heads <= s'.heads
    && forall id :: id in s.calls ==> id in s'.calls && SameCall(s.calls[id], s'.calls[id])
  }

  predicate SameCall(c: Call, c': Call) {
    c.key == c'.key && c.memoizable == c'.memoizable && c.since == c'.since
  }

  lemma StepContinues(compute: Computation, s: System, step: Step)
    requires Enabled(s, step)
    ensures Continues(s, Do(compute, s, step))
  {}

  lemma RunStepContinues(compute: Computation, states: seq<System>, steps: seq<Step>, i: nat)
    requires Run(compute, states, steps) && i < |steps|
    ensures Continues(states[i], states[i + 1])
  {
    assert StepAt(compute, states, steps, i);
    StepContinues(compute, states[i], steps[i]);
  }

  lemma ContinuesTransitive(s: System, t: System, u: System)
    requires Continues(s, t) && Continues(t, u)
    ensures Continues(s, u)
  {}

  lemma {:induction false} RunsOnlyExtend(compute: Computation, states: seq<System>, steps: seq<Step>, i: nat, j: nat)
    requires Run(compute, states, steps) && i <= j < |states|
    ensures Continues(states[i], states[j])
    decreases j
  {
    if i < j {
      RunsOnlyExtend(compute, states, steps, i, j - 1);
      RunStepContinues(compute, states, steps, j - 1);
      ContinuesTransitive(states[i], states[j - 1], states[j]);
    }
  }

  /** In every interleaving the memo stays within capacity and holds only answers of finished memoizable calls, each
      the computation for the scope head: no error and no narrative ever gets in. */
  lemma EntriesComeFromMemoizableAnswers(compute: Computation, states: seq<System>, steps: seq<Step>, i: nat, k: string)
    requires Run(compute, states, steps) && i < |states|
    ensures |states[i].memo.entries| <= 512
    ensures k in states[i].memo.entries ==>
      compute(states[i].memo.head, k) == Ok(states[i].memo.entries[k]) && exists id :: Produced(states[i], id, k)
  {
    RunKeepsInv(compute, states, steps, i);
  }

  /** At no time do more than four calls occupy the blocking pool, and no permit is ever lost. */
  lemma AtMostFourCallsRun(compute: Computation, states: seq<System>, steps: seq<Step>, i: nat)
    requires Run(compute, states, steps) && i < |states|
    ensures |Holders(states[i].calls)| + states[i].permits == 4
    ensures |Holders(states[i].calls)| <= 4
  {
    RunKeepsInv(compute, states, steps, i);
  }
}
