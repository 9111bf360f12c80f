/** `build_train_validation_split` of calibrate_defects.rs: a temporal split of defect
    incidences that keeps every path wholly on one side. */
module TrainSplit {
  import opened Counting
  import opened Ordering

  /** The fields of a link that the split reads. */
  datatype SzzLink = SzzLink(fixRev: string, path: string)

  /** A path and whether it is a positive row. */
  type Row = (string, bool)

  /** A path with its dated incidences: how many, and the earliest fix date. */
  datatype PathEntry = PathEntry(path: string, count: nat, earliest: string)

  function IsDated(dates: map<string, string>): SzzLink -> bool { (l: SzzLink) => l.fixRev in dates }

  function HitsPath(dates: map<string, string>, path: string): SzzLink -> bool {
    (l: SzzLink) => l.path == path && l.fixRev in dates
  }

  function TrainShare(n: nat): nat { n * 60 / 100 }

  /** The share is 60 percent, rounded down. */
  lemma ShareIsSixtyPercent(n: nat)
    ensures 100 * TrainShare(n) <= 60 * n < 100 * (TrainShare(n) + 1)
  {}

  ghost predicate IsEarliest(links: seq<SzzLink>, dates: map<string, string>, path: string, date: string) {
    && (exists l :: l in links && HitsPath(dates, path)(l) && dates[l.fixRev] == date)
    && (forall l :: l in links && HitsPath(dates, path)(l) ==> StrLe(date, dates[l.fixRev]))
  }

  // ---- grouping ----

  type Incidences = map<string, (nat, string)>

  /** Each path with a dated link, its incidences counted and its earliest fix date found. */
  ghost predicate IsGrouped(links: seq<SzzLink>, dates: map<string, string>, m: Incidences) {
    && (forall p :: p in m <==> Count(links, HitsPath(dates, p)) > 0)
    && (forall p :: p in m ==> m[p].0 == Count(links, HitsPath(dates, p)) && IsEarliest(links, dates, p, m[p].1))
  }

  lemma CountSnoc<T>(s: seq<T>, x: T, p: T -> bool)
    ensures Count(s + [x], p) == Count(s, p) + if p(x) then 1 else 0
  {
    CountOfConcat(s, [x], p);
  }

  function Regrouped(m: Incidences, path: string, date: string): Incidences {
    m[path := if path in m then (m[path].0 + 1, if StrLe(m[path].1, date) then m[path].1 else date) else (1, date)]
  }

  lemma {:induction false} CountPositive<T>(s: seq<T>, p: T -> bool)
    ensures Count(s, p) > 0 <==> exists x :: x in s && p(x)
  {
    if s != [] {
      CountPositive(s[1..], p);
      assert s == [s[0]] + s[1..];
      assert s[0] in s && forall x :: x in s[1..] ==> x in s;
    }
  }

  lemma EarliestExtends(links: seq<SzzLink>, dates: map<string, string>, l: SzzLink, path: string, date: string)
    requires IsEarliest(links, dates, path, date)
    ensures !HitsPath(dates, path)(l) ==> IsEarliest(links + [l], dates, path, date)
    ensures HitsPath(dates, path)(l) ==>
      IsEarliest(links + [l], dates, path, if StrLe(date, dates[l.fixRev]) then date else dates[l.fixRev])
  {
    StrLeIsTotalOrder();
    var all := links + [l];
    assert forall k :: k in all <==> k in links || k == l;
  }

  lemma EarliestOfOne(links: seq<SzzLink>, dates: map<string, string>, l: SzzLink, path: string)
    requires Count(links, HitsPath(dates, path)) == 0 && HitsPath(dates, path)(l)
    ensures IsEarliest(links + [l], dates, path, dates[l.fixRev])
  {
    StrLeIsTotalOrder();
    CountPositive(links, HitsPath(dates, path));
    assert forall k :: k in links + [l] <==> k in links || k == l;
  }

  lemma GroupUndated(links: seq<SzzLink>, dates: map<string, string>, m: Incidences, l: SzzLink)
    requires IsGrouped(links, dates, m) && l.fixRev !in dates
    ensures IsGrouped(links + [l], dates, m)
  {
    forall p ensures Count(links + [l], HitsPath(dates, p)) == Count(links, HitsPath(dates, p)) {
      CountSnoc(links, l, HitsPath(dates, p));
    }
    forall p | p in m ensures IsEarliest(links + [l], dates, p, m[p].1) {
      EarliestExtends(links, dates, l, p, m[p].1);
    }
  }

  lemma GroupDated(links: seq<SzzLink>, dates: map<string, string>, m: Incidences, l: SzzLink)
    requires IsGrouped(links, dates, m) && l.fixRev in dates
    ensures IsGrouped(links + [l], dates, Regrouped(m, l.path, dates[l.fixRev]))
  {
    var m' := Regrouped(m, l.path, dates[l.fixRev]);
    forall p ensures Count(links + [l], HitsPath(dates, p)) == Count(links, HitsPath(dates, p)) +
      if p == l.path then 1 else 0
    {
      CountSnoc(links, l, HitsPath(dates, p));
    }
    forall p | p in m' ensures IsEarliest(links + [l], dates, p, m'[p].1) {
      if p in m {
        EarliestExtends(links, dates, l, p, m[p].1);
      } else {
        EarliestOfOne(links, dates, l, p);
      }
    }
  }

  method GroupIncidences(links: seq<SzzLink>, dates: map<string, string>) returns (incidences: Incidences, total: nat)
    ensures IsGrouped(links, dates, incidences) && total == Count(links, IsDated(dates))
  {
    incidences, total := map[], 0;
    for i := 0 to |links|
      invariant IsGrouped(links[..i], dates, incidences) && total == Count(links[..i], IsDated(dates))
    {
      var l := links[i];
      assert links[..i + 1] == links[..i] + [l];
      CountSnoc(links[..i], l, IsDated(dates));
      if l.fixRev !in dates {
        GroupUndated(links[..i], dates, incidences, l);
        continue;
      }
      GroupDated(links[..i], dates, incidences, l);
      incidences := Regrouped(incidences, l.path, dates[l.fixRev]);
      total := total + 1;
    }
    assert links[..|links|] == links;
  }

  // ---- ordering ----

  /** Earliest date first, ties broken by path. */
  predicate EntryLe(a: PathEntry, b: PathEntry) {
    if a.earliest == b.earliest then StrLe(a.path, b.path) else StrLe(a.earliest, b.earliest)
  }

  lemma EntryLeIsPreorder()
    ensures TotalPreorder(EntryLe)
    ensures forall a, b :: EntryLe(a, b) && EntryLe(b, a) ==> a.path == b.path && a.earliest == b.earliest
  {
    StrLeIsTotalOrder();
  }

  ghost predicate IsEntry(links: seq<SzzLink>, dates: map<string, string>, e: PathEntry) {
    && e.count == Count(links, HitsPath(dates, e.path)) && e.count > 0
    && IsEarliest(links, dates, e.path, e.earliest)
  }

  ghost predicate DistinctPaths(entries: seq<PathEntry>) {
    forall i, j :: 0 <= i < j < |entries| ==> entries[i].path != entries[j].path
  }

  /** The positive paths, oldest first, each once with its count and earliest date. */
  ghost predicate IsOrdered(links: seq<SzzLink>, dates: map<string, string>, entries: seq<PathEntry>) {
    && SortedBy(entries, EntryLe) && DistinctPaths(entries)
    && (forall e :: e in entries ==> IsEntry(links, dates, e))
    && (forall p :: Count(links, HitsPath(dates, p)) > 0 ==> exists e :: e in entries && e.path == p)
  }

  method OrderPaths(links: seq<SzzLink>, dates: map<string, string>, incidences: Incidences)
    returns (entries: seq<PathEntry>)
    requires IsGrouped(links, dates, incidences)
    ensures IsOrdered(links, dates, entries)
  {
    var keys := Enumerate(incidences.Keys);
    var unordered := seq(|keys|, i requires 0 <= i < |keys| => EntryOf(incidences, keys[i]));
    EntryLeIsPreorder();
    entries := StableSort(unordered, EntryLe);
    SortKeepsElements(unordered, EntryLe);
    UnorderedEntries(links, dates, incidences, keys, unordered);
    assert forall e :: e in entries <==> e in unordered;
    SortKeepsDistinct(unordered, EntryLe);
    DistinctEntriesHaveDistinctPaths(incidences, entries);
  }

  function EntryOf(incidences: Incidences, path: string): PathEntry {
    if path in incidences then PathEntry(path, incidences[path].0, incidences[path].1) else PathEntry(path, 0, "")
  }

  lemma UnorderedEntries(links: seq<SzzLink>, dates: map<string, string>, incidences: Incidences,
                         keys: seq<string>, unordered: seq<PathEntry>)
    requires IsGrouped(links, dates, incidences) && Distinct(keys) && forall p :: p in keys <==> p in incidences
    requires |unordered| == |keys| && forall i :: 0 <= i < |keys| ==> unordered[i] == EntryOf(incidences, keys[i])
    ensures Distinct(unordered)
    ensures forall e :: e in unordered ==>
      e.path in incidences && e == EntryOf(incidences, e.path) && IsEntry(links, dates, e)
    ensures forall p :: Count(links, HitsPath(dates, p)) > 0 ==> exists e :: e in unordered && e.path == p
  {
    forall e | e in unordered
      ensures e.path in incidences && e == EntryOf(incidences, e.path) && IsEntry(links, dates, e)
    {
      var i :| 0 <= i < |unordered| && unordered[i] == e;
      assert keys[i] in keys;
    }
    forall p | Count(links, HitsPath(dates, p)) > 0 ensures exists e :: e in unordered && e.path == p {
      assert p in incidences && p in keys;
      var i :| 0 <= i < |keys| && keys[i] == p;
      assert unordered[i] in unordered;
    }
    forall i, j | 0 <= i < j < |unordered| ensures unordered[i] != unordered[j] {
      assert keys[i] != keys[j] && unordered[i].path == keys[i] && unordered[j].path == keys[j];
    }
  }

  lemma DistinctEntriesHaveDistinctPaths(incidences: Incidences, entries: seq<PathEntry>)
    requires Distinct(entries) && forall e :: e in entries ==> e == EntryOf(incidences, e.path)
    ensures DistinctPaths(entries)
  {
    forall i, j | 0 <= i < j < |entries| ensures entries[i].path != entries[j].path {
      assert entries[i] in entries && entries[j] in entries;
    }
  }

  // ---- filling ----

  function RowsOf(e: PathEntry): seq<Row> { seq(e.count, _ => (e.path, true)) }

  function Rows(entries: seq<PathEntry>): seq<Row> {
    if entries == [] then [] else Rows(entries[..|entries| - 1]) + RowsOf(entries[|entries| - 1])
  }

  function RowCount(entries: seq<PathEntry>): nat {
    if entries == [] then 0 else RowCount(entries[..|entries| - 1]) + entries[|entries| - 1].count
  }

  /** The first k entries are the shortest prefix whose rows reach the target, or all there is. */
  ghost predicate IsCut(entries: seq<PathEntry>, target: nat, k: nat) {
    && k <= |entries|
    && (forall j :: 0 <= j < k ==> RowCount(entries[..j]) < target)
    && (k < |entries| ==> RowCount(entries[..k]) >= target)
  }

  lemma RowsSnoc(entries: seq<PathEntry>, lo: nat, i: nat)
    requires lo <= i < |entries|
    ensures Rows(entries[lo..i + 1]) == Rows(entries[lo..i]) + RowsOf(entries[i])
    ensures RowCount(entries[lo..i + 1]) == RowCount(entries[lo..i]) + entries[i].count
  {
    assert entries[lo..i + 1][..i - lo] == entries[lo..i];
  }

  /** State of the filling loop after i entries: the first k went to train, the others to validation. */
  ghost predicate Filled(entries: seq<PathEntry>, i: nat, target: nat, k: nat, filled: nat, train: seq<Row>,
                         validation: seq<Row>)
  {
    && k <= i <= |entries| && filled == RowCount(entries[..i])
    && (forall j :: 0 <= j < k ==> RowCount(entries[..j]) < target)
    && (k < i ==> target <= RowCount(entries[..k]) <= filled)
    && train == Rows(entries[..k]) && validation == Rows(entries[k..i])
  }

  lemma FillStep(entries: seq<PathEntry>, i: nat, target: nat, k: nat, filled: nat, train: seq<Row>,
                 validation: seq<Row>)
    requires i < |entries| && Filled(entries, i, target, k, filled, train, validation)
    ensures filled < target ==>
      Filled(entries, i + 1, target, i + 1, filled + entries[i].count, train + RowsOf(entries[i]), validation)
    ensures filled >= target ==>
      Filled(entries, i + 1, target, k, filled + entries[i].count, train, validation + RowsOf(entries[i]))
  {
    RowsSnoc(entries, 0, i);
    RowsSnoc(entries, k, i);
    assert entries[0..i] == entries[..i] && entries[0..i + 1] == entries[..i + 1];
    assert entries[i + 1..i + 1] == [];
    if filled < target {
      assert k == i && entries[i..i] == [];
    }
  }

  method Fill(entries: seq<PathEntry>, target: nat) returns (train: seq<Row>, validation: seq<Row>)
    ensures exists k: nat ::
      IsCut(entries, target, k) && train == Rows(entries[..k]) && validation == Rows(entries[k..])
  {
    train, validation := [], [];
    var filled: nat := 0;
    ghost var k: nat := 0;
    for i := 0 to |entries|
      invariant Filled(entries, i, target, k, filled, train, validation)
    {
      var e := entries[i];
      FillStep(entries, i, target, k, filled, train, validation);
      if filled < target {
        train := train + RowsOf(e);
        k := i + 1;
      } else {
        validation := validation + RowsOf(e);
      }
      filled := filled + e.count;
    }
    assert entries[k..|entries|] == entries[k..];
  }

  // ---- the split ----

  function NegativeRows(paths: seq<string>): seq<Row> {
    seq(|paths|, i requires 0 <= i < |paths| => (paths[i], false))
  }

  function Implicated(links: seq<SzzLink>): set<string> {
    set l | l in links :: l.path
  }

  ghost predicate IsSplitBy(links: seq<SzzLink>, dates: map<string, string>, files: set<string>,
                            entries: seq<PathEntry>, k: nat, negatives: seq<string>,
                            train: seq<Row>, validation: seq<Row>)
  {
    && IsOrdered(links, dates, entries)
    && IsCut(entries, TrainShare(Count(links, IsDated(dates))), k)
    && IsKeyOrder(negatives, files - Implicated(links))
    && var cut := TrainShare(|negatives|);
    && cut <= |negatives|
    && train == Rows(entries[..k]) + NegativeRows(negatives[..cut])
    && validation == Rows(entries[k..]) + NegativeRows(negatives[cut..])
  }

  ghost predicate IsSplit(links: seq<SzzLink>, dates: map<string, string>, files: set<string>, train: seq<Row>,
                          validation: seq<Row>)
  {
    exists entries, k: nat, negatives :: IsSplitBy(links, dates, files, entries, k, negatives, train, validation)
  }

  method BuildTrainValidationSplit(links: seq<SzzLink>, commitDates: map<string, string>,
                                   intensities: map<string, seq<real>>)
    returns (train: seq<Row>, validation: seq<Row>)
    ensures IsSplit(links, commitDates, intensities.Keys, train, validation)
  {
    var incidences, totalPositiveRows := GroupIncidences(links, commitDates);
    var implicated := Implicated(links);
    var negatives := SortedKeys(intensities.Keys - implicated);
    var positivePaths := OrderPaths(links, commitDates, incidences);
    train, validation := Fill(positivePaths, TrainShare(totalPositiveRows));
    ghost var k: nat :| IsCut(positivePaths, TrainShare(totalPositiveRows), k)
      && train == Rows(positivePaths[..k]) && validation == Rows(positivePaths[k..]);
    var cut := TrainShare(|negatives|);
    train := train + NegativeRows(negatives[..cut]);
    validation := validation + NegativeRows(negatives[cut..]);
    assert IsSplitBy(links, commitDates, intensities.Keys, positivePaths, k, negatives, train, validation);
  }
}
