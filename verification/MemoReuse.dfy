/** What the memo is for: an answer that was stored is given again, without computing, as long as the scope does not
    move and the map does not overflow. */
module MemoReuse {
  import opened MemoProtocol
  import opened ResultMemo

  /** A memoizable lookup for another HEAD than the scope: it drops every entry. */
  predicate MovesScope(s: System, step: Step) {
    && step.LookUp? && HeadsRecorded(s, step.id) && s.calls[step.id].phase.Observed?
    && s.calls[step.id].memoizable && s.heads[s.calls[step.id].phase.at] != s.memo.head
  }

  /** A memoizable store in scope of a new key while 512 entries are stored: it drops every other entry. */
  predicate Overflows(s: System, step: Step) {
    && step.Store? && HeadsRecorded(s, step.id) && s.calls[step.id].phase.Computed?
    && s.calls[step.id].memoizable && s.heads[s.calls[step.id].phase.at] == s.memo.head
    && |s.memo.entries| >= 512 && s.calls[step.id].key !in s.memo.entries
  }

  /** Any other step leaves every stored key stored, and the scope where it is. */
  lemma EntriesStay(compute: Computation, s: System, step: Step, key: string)
    requires Enabled(s, step) && key in s.memo.entries && !MovesScope(s, step) && !Overflows(s, step)
    ensures key in Do(compute, s, step).memo.entries && Do(compute, s, step).memo.head == s.memo.head
  {
    if step.Store? && s.calls[step.id].key != key {
      var c := s.calls[step.id];
      PutKeepsOthers(s.memo, s.heads[c.phase.at], c.key, c.phase.value, key);
    }
  }

  /** No step from j up to i drops entries. */
  ghost predicate Undisturbed(states: seq<System>, steps: seq<Step>, j: nat, i: nat)
    requires |states| == |steps| + 1 && i <= |steps|
  {
    forall m :: j <= m < i ==> !MovesScope(states[m], steps[m]) && !Overflows(states[m], steps[m])
  }

  lemma {:induction false} UndisturbedEntriesStay(compute: Computation, states: seq<System>, steps: seq<Step>,
                                                  j: nat, i: nat, key: string)
    requires Run(compute, states, steps) && j <= i <= |steps| && Undisturbed(states, steps, j, i)
    requires key in states[j].memo.entries
    ensures key in states[i].memo.entries && states[i].memo.head == states[j].memo.head
    decreases i
  {
    if j < i {
      UndisturbedEntriesStay(compute, states, steps, j, i - 1, key);
      assert StepAt(compute, states, steps, i - 1);
      EntriesStay(compute, states[i - 1], steps[i - 1], key);
    }
  }

  /** A memoizable lookup in scope of a key that is stored ends its call at once with the stored value. */
  lemma HitEndsCall(compute: Computation, s: System, id: nat)
    requires Enabled(s, LookUp(id)) && s.calls[id].memoizable && !MovesScope(s, LookUp(id))
    requires s.calls[id].key in s.memo.entries
    ensures var s' := Do(compute, s, LookUp(id));
      && id in s'.calls && s'.calls[id].phase.Done?
      && s'.calls[id].phase.outcome == Ok(s.memo.entries[s.calls[id].key])
  {}

  /** A store in scope leaves its value under its key. */
  lemma StoreStores(compute: Computation, s: System, id: nat)
    requires Enabled(s, Store(id)) && s.calls[id].memoizable && s.heads[s.calls[id].phase.at] == s.memo.head
    ensures var c, m := s.calls[id], Do(compute, s, Store(id)).memo;
      m.head == s.memo.head && c.key in m.entries && m.entries[c.key] == c.phase.value
  {}

  /** In every interleaving: once a memoizable call has stored an answer in scope, a later memoizable lookup of the same
      key, by any call, ends that call with that very answer and no computation, provided that nothing in between, nor
      the lookup itself, moved the scope or overflowed the map. */
  lemma StoredAnswerIsReused(compute: Computation, states: seq<System>, steps: seq<Step>, j: nat, i: nat,
                             first: nat, later: nat)
    requires Run(compute, states, steps) && j < i < |steps| && steps[j] == Store(first) && steps[i] == LookUp(later)
    requires first in states[j].calls && states[j].calls[first].memoizable && states[j].calls[first].phase.Computed?
    requires states[j].calls[first].phase.at < |states[j].heads|
    requires states[j].heads[states[j].calls[first].phase.at] == states[j].memo.head
    requires later in states[i].calls && states[i].calls[later].memoizable
    requires states[i].calls[later].key == states[j].calls[first].key
    requires Undisturbed(states, steps, j + 1, i + 1)
    ensures later in states[i + 1].calls && states[i + 1].calls[later].phase.Done?
    ensures states[i + 1].calls[later].phase.outcome == Ok(states[j].calls[first].phase.value)
  {
    assert StepAt(compute, states, steps, j);
    StoreStores(compute, states[j], first);
    var key := states[j].calls[first].key;
    UndisturbedEntriesStay(compute, states, steps, j + 1, i, key);
    assert StepAt(compute, states, steps, i);
    HitEndsCall(compute, states[i], later);
    SameAnswer(compute, states, steps, j + 1, i, key);
  }

  /** What is stored under a key does not change while the scope does not. */
  lemma SameAnswer(compute: Computation, states: seq<System>, steps: seq<Step>, j: nat, i: nat, key: string)
    requires Run(compute, states, steps) && j < |states| && i < |states| && states[j].memo.head == states[i].memo.head
    requires key in states[j].memo.entries && key in states[i].memo.entries
    ensures states[j].memo.entries[key] == states[i].memo.entries[key]
  {
    EntriesComeFromMemoizableAnswers(compute, states, steps, j, key);
    EntriesComeFromMemoizableAnswers(compute, states, steps, i, key);
  }
}
