/** The HEAD-scoped result memo of mcp.rs: its state, its two critical sections and its keys. */
module ResultMemo {
  import opened Ordering

  const MEMO_CAPACITY: nat := 512

  datatype Result<+T, +E> = Ok(value: T) | Err(error: E)

  datatype MemoState = MemoState(head: string, entries: map<string, string>)

  /** The critical section of `get`: another head drops everything and becomes the scope. */
  function AfterGet(s: MemoState, head: string, key: string): (MemoState, Option<string>) {
    if s.head != head then (MemoState(head, map[]), None)
    else (s, if key in s.entries then Some(s.entries[key]) else None)
  }

  /** The critical section of `put`: dropped outside the scope; a full map is cleared before a new key. */
  function AfterPut(s: MemoState, head: string, key: string, value: string): MemoState {
    if s.head != head then s
    else
      var kept := if |s.entries| >= MEMO_CAPACITY && key !in s.entries then map[] else s.entries;
      MemoState(s.head, kept[key := value])
  }

  type Computation = (string, string) -> Result<string, string>

  /** Every stored entry is the computation for the scope head. */
  ghost predicate Sound(s: MemoState, compute: Computation) {
    forall k :: k in s.entries ==> compute(s.head, k) == Ok(s.entries[k])
  }

  class Memo {
    var head: string
    var entries: map<string, string>

    constructor ()
      ensures State() == MemoState("", map[])
    {
      head := "";
      entries := map[];
    }

    ghost function State(): MemoState
      reads this
    {
      MemoState(head, entries)
    }

    method Get(head': string, key: string) returns (hit: Option<string>)
      modifies this
      ensures (State(), hit) == AfterGet(old(State()), head', key)
    {
      if head != head' {
        entries := map[];
        head := head';
        return None;
      }
      hit := if key in entries then Some(entries[key]) else None;
    }

    method Put(head': string, key: string, value: string)
      modifies this
      ensures State() == AfterPut(old(State()), head', key, value)
    {
      if head != head' {
        return;
      }
      if |entries| >= MEMO_CAPACITY && key !in entries {
        entries := map[];
      }
      entries := entries[key := value];
    }

    /** `memoized`, run alone: it answers what the computation would for the observed head, errors included,
        and leaves every stored entry sound. */
    method Memoized(observed: Result<string, string>, key: string, compute: Computation)
      returns (r: Result<string, string>)
      requires Sound(State(), compute)
      modifies this
      ensures Sound(State(), compute)
      ensures r == if observed.Err? then observed else compute(observed.value, key)
      ensures observed.Err? ==> State() == old(State())
      ensures observed.Ok? ==> State().head == observed.value && (key in State().entries <==> r.Ok?)
    {
      match observed
      case Err(_) =>
        return observed;
      case Ok(current) =>
        var hit := Get(current, key);
        if hit.Some? {
          return Ok(hit.value);
        }
        r := compute(current, key);
        if r.Ok? {
          Put(current, key, r.value);
        }
    }
  }

  lemma GetKeepsSound(s: MemoState, head: string, key: string, compute: Computation)
    requires Sound(s, compute)
    ensures Sound(AfterGet(s, head, key).0, compute)
    ensures AfterGet(s, head, key).1.Some? ==> compute(head, key) == Ok(AfterGet(s, head, key).1.value)
    ensures |AfterGet(s, head, key).0.entries| <= |s.entries|
  {}

  /** Whatever the scope has become meanwhile, a correct late result never spoils the memo, and never overfills it. */
  lemma PutKeepsSound(s: MemoState, head: string, key: string, value: string, compute: Computation)
    requires Sound(s, compute) && compute(head, key) == Ok(value)
    ensures Sound(AfterPut(s, head, key, value), compute)
    ensures |s.entries| <= MEMO_CAPACITY ==> |AfterPut(s, head, key, value).entries| <= MEMO_CAPACITY
    ensures AfterPut(s, head, key, value).head == s.head
  {
    var kept := if |s.entries| >= MEMO_CAPACITY && key !in s.entries then map[] else s.entries;
    if key !in kept {
      assert kept[key := value].Keys == kept.Keys + {key};
    } else {
      assert kept[key := value].Keys == kept.Keys;
    }
  }

  /** A put in scope keeps every other entry, unless 512 are stored and the key is new: then it is alone. A put outside
      the scope changes nothing. */
  lemma PutKeepsOthers(s: MemoState, head: string, key: string, value: string, other: string)
    requires other != key
    ensures var s' := AfterPut(s, head, key, value);
      if s.head != head then s' == s
      else
        && s'.head == head && key in s'.entries && s'.entries[key] == value
        && if |s.entries| >= 512 && key !in s.entries then other !in s'.entries
           else (other in s'.entries <==> other in s.entries)
                && (other in s.entries ==> s'.entries[other] == s.entries[other])
  {}

  // ---- keys ----

  const UNIT_SEPARATOR: char := 0x1F as char

  /** Fields joined by the unit separator, as `memo_key` and the hand-rolled keys build them. */
  function JoinFields(fields: seq<string>): string {
    if fields == [] then []
    else if |fields| == 1 then fields[0]
    else fields[0] + [UNIT_SEPARATOR] + JoinFields(fields[1..])
  }

  function MemoKey(tool: string, params: string): string {
    tool + [UNIT_SEPARATOR] + params
  }

  lemma KeyHead(a: string, x: string, b: string, y: string)
    requires UNIT_SEPARATOR !in a && UNIT_SEPARATOR !in b
    requires a + [UNIT_SEPARATOR] + x == b + [UNIT_SEPARATOR] + y
    ensures a == b && x == y
  {
    var s := a + [UNIT_SEPARATOR] + x;
    var t := b + [UNIT_SEPARATOR] + y;
    assert s[|a|] == UNIT_SEPARATOR && t[|b|] == UNIT_SEPARATOR;
    assert forall i :: 0 <= i < |a| ==> s[i] != UNIT_SEPARATOR;
    assert forall i :: 0 <= i < |b| ==> t[i] != UNIT_SEPARATOR;
    assert a == s[..|a|] && b == t[..|b|];
    assert x == s[|a| + 1..] && y == t[|b| + 1..];
  }

  /** Tool names carry no separator, so tool and parameters never run together. */
  lemma MemoKeyIsInjective(tool: string, params: string, tool': string, params': string)
    requires UNIT_SEPARATOR !in tool && UNIT_SEPARATOR !in tool'
    ensures MemoKey(tool, params) == MemoKey(tool', params') <==> tool == tool' && params == params'
  {
    if MemoKey(tool, params) == MemoKey(tool', params') {
      KeyHead(tool, params, tool', params');
    }
  }

  lemma SeparatorMeansFields(fields: seq<string>)
    requires fields != [] && UNIT_SEPARATOR !in fields[0]
    ensures UNIT_SEPARATOR in JoinFields(fields) <==> |fields| > 1
    ensures |fields| == 1 ==> fields == [JoinFields(fields)]
  {
    if |fields| > 1 { assert JoinFields(fields)[|fields[0]|] == UNIT_SEPARATOR; }
  }

  /** Nor do the fields of a hand-rolled key: separator-free fields are recovered from the joined key. */
  lemma {:induction false} JoinIsInjective(xs: seq<string>, ys: seq<string>)
    requires xs != [] && ys != [] && JoinFields(xs) == JoinFields(ys)
    requires forall i :: 0 <= i < |xs| ==> UNIT_SEPARATOR !in xs[i]
    requires forall i :: 0 <= i < |ys| ==> UNIT_SEPARATOR !in ys[i]
    ensures xs == ys
  {
    if |xs| == 1 || |ys| == 1 {
      SeparatorMeansFields(xs);
      SeparatorMeansFields(ys);
    } else {
      KeyHead(xs[0], JoinFields(xs[1..]), ys[0], JoinFields(ys[1..]));
      JoinIsInjective(xs[1..], ys[1..]);
      assert xs == [xs[0]] + xs[1..] && ys == [ys[0]] + ys[1..];
    }
  }

  /** Two hand-rolled keys agree only when tool and every field agree. */
  lemma HandRolledKeyIsInjective(tool: string, fields: seq<string>, tool': string, fields': seq<string>)
    requires UNIT_SEPARATOR !in tool && UNIT_SEPARATOR !in tool' && fields != [] && fields' != []
    requires forall i :: 0 <= i < |fields| ==> UNIT_SEPARATOR !in fields[i]
    requires forall i :: 0 <= i < |fields'| ==> UNIT_SEPARATOR !in fields'[i]
    ensures MemoKey(tool, JoinFields(fields)) == MemoKey(tool', JoinFields(fields')) <==>
      tool == tool' && fields == fields'
  {
    MemoKeyIsInjective(tool, JoinFields(fields), tool', JoinFields(fields'));
    if JoinFields(fields) == JoinFields(fields') {
      JoinIsInjective(fields, fields');
    }
  }
}
