/** What the train/validation split promises: no leakage, conservation of incidences, a
    temporal 60% cut, and independence from the order of its inputs. */
module TrainSplitLaws {
  import opened Counting
  import opened Ordering
  import opened TrainSplit

  function Is<T(==)>(x: T): T -> bool { y => y == x }

  function IsPositive(): Row -> bool { (r: Row) => r.1 }

  function OnPath(path: string): Row -> bool { (r: Row) => r.0 == path }

  // ---- counting rows ----

  lemma {:induction false} CountAll<T>(s: seq<T>, p: T -> bool)
    ensures (forall x :: x in s ==> p(x)) ==> Count(s, p) == |s|
    ensures (forall x :: x in s ==> !p(x)) ==> Count(s, p) == 0
  {
    if s != [] {
      CountAll(s[1..], p);
      assert s[0] in s && forall x :: x in s[1..] ==> x in s;
    }
  }

  lemma RowsOfCount(e: PathEntry, p: Row -> bool)
    ensures Count(RowsOf(e), p) == if p((e.path, true)) then e.count else 0
  {
    CountAll(RowsOf(e), p);
  }

  lemma {:induction false} RowsOfPath(entries: seq<PathEntry>, path: string)
    requires DistinctPaths(entries)
    ensures forall i :: 0 <= i < |entries| && entries[i].path == path ==>
      Count(Rows(entries), OnPath(path)) == entries[i].count
    ensures (forall i :: 0 <= i < |entries| ==> entries[i].path != path) ==> Count(Rows(entries), OnPath(path)) == 0
  {
    if entries != [] {
      var front, last := entries[..|entries| - 1], entries[|entries| - 1];
      RowsOfPath(front, path);
      RowsOfCount(last, OnPath(path));
      CountOfConcat(Rows(front), RowsOf(last), OnPath(path));
      assert forall i :: 0 <= i < |front| ==> front[i] == entries[i];
    }
  }

  lemma {:induction false} RowsArePositive(entries: seq<PathEntry>)
    ensures forall r :: r in Rows(entries) ==> r.1 && exists i :: 0 <= i < |entries| && entries[i].path == r.0
    ensures |Rows(entries)| == RowCount(entries)
  {
    if entries != [] {
      var front, last := entries[..|entries| - 1], entries[|entries| - 1];
      RowsArePositive(front);
      forall r | r in Rows(entries) ensures r.1 && exists i :: 0 <= i < |entries| && entries[i].path == r.0 {
        if r in Rows(front) {
          var i :| 0 <= i < |front| && front[i].path == r.0;
          assert entries[i].path == r.0;
        } else {
          assert entries[|entries| - 1].path == r.0;
        }
      }
    }
  }

  lemma RowsConcat(a: seq<PathEntry>, b: seq<PathEntry>)
    ensures Rows(a + b) == Rows(a) + Rows(b)
    ensures RowCount(a + b) == RowCount(a) + RowCount(b)
    decreases |b|
  {
    if b == [] {
      assert a + b == a;
    } else {
      assert (a + b)[..|a + b| - 1] == a + b[..|b| - 1];
      RowsConcat(a, b[..|b| - 1]);
    }
  }

  // ---- who sits where ----

  /** A row made from entries lo..hi and negatives from..to has its path at one of those positions. */
  lemma RowOrigin(entries: seq<PathEntry>, lo: nat, hi: nat, negatives: seq<string>, from: nat, to: nat, r: Row)
    returns (i: nat)
    requires lo <= hi <= |entries| && from <= to <= |negatives|
    requires r in Rows(entries[lo..hi]) + NegativeRows(negatives[from..to])
    ensures r.1 ==> lo <= i < hi && entries[i].path == r.0
    ensures !r.1 ==> from <= i < to && negatives[i] == r.0
  {
    var es, ns := entries[lo..hi], negatives[from..to];
    RowsArePositive(es);
    if r.1 {
      var j :| 0 <= j < |es| && es[j].path == r.0;
      i := lo + j;
    } else {
      var rows := NegativeRows(ns);
      assert r in rows;
      var j :| 0 <= j < |rows| && rows[j] == r;
      assert ns[j] == negatives[from + j];
      i := from + j;
    }
  }

  /** Where a training row and a validation row come from: positions before and from the cuts. */
  lemma SideOrigins(entries: seq<PathEntry>, k: nat, negatives: seq<string>, cut: nat, r: Row, q: Row)
    returns (i: nat, j: nat)
    requires k <= |entries| && cut <= |negatives|
    requires r in Rows(entries[..k]) + NegativeRows(negatives[..cut])
    requires q in Rows(entries[k..]) + NegativeRows(negatives[cut..])
    ensures if r.1 then i < k && entries[i].path == r.0 else i < cut && negatives[i] == r.0
    ensures if q.1 then k <= j < |entries| && entries[j].path == q.0 else cut <= j < |negatives| && negatives[j] == q.0
  {
    assert entries[..k] == entries[0..k] && negatives[..cut] == negatives[0..cut];
    assert entries[k..] == entries[k..|entries|] && negatives[cut..] == negatives[cut..|negatives|];
    i := RowOrigin(entries, 0, k, negatives, 0, cut, r);
    j := RowOrigin(entries, k, |entries|, negatives, cut, |negatives|, q);
  }

  lemma EntryIsImplicated(links: seq<SzzLink>, dates: map<string, string>, e: PathEntry)
    requires IsEntry(links, dates, e)
    ensures e.path in Implicated(links)
  {}

  /** No path occurs on both sides, neither as positive nor as negative. */
  lemma SidesAreDisjoint(links: seq<SzzLink>, dates: map<string, string>, files: set<string>,
                         train: seq<Row>, validation: seq<Row>, r: Row, q: Row)
    requires IsSplit(links, dates, files, train, validation) && r in train && q in validation
    ensures r.0 != q.0
  {
    var entries: seq<PathEntry>, k: nat, negatives: seq<string> :|
      IsSplitBy(links, dates, files, entries, k, negatives, train, validation);
    var i, j := SideOrigins(entries, k, negatives, TrainShare(|negatives|), r, q);
    PathsApart(links, dates, files, entries, negatives, i, j, r.1, q.1);
  }

  /** Positions taken from different sides name different paths. */
  lemma PathsApart(links: seq<SzzLink>, dates: map<string, string>, files: set<string>,
                   entries: seq<PathEntry>, negatives: seq<string>, i: nat, j: nat, iPositive: bool, jPositive: bool)
    requires IsOrdered(links, dates, entries) && IsKeyOrder(negatives, files - Implicated(links))
    requires if iPositive then i < |entries| else i < |negatives|
    requires if jPositive then j < |entries| else j < |negatives|
    requires iPositive == jPositive ==> i < j
    ensures (if iPositive then entries[i].path else negatives[i])
         != (if jPositive then entries[j].path else negatives[j])
  {
    if iPositive && !jPositive {
      SideMembers(links, dates, files, entries, negatives, i);
      assert negatives[j] in negatives;
    } else if !iPositive && jPositive {
      SideMembers(links, dates, files, entries, negatives, j);
      assert negatives[i] in negatives;
    }
  }

  lemma SideMembers(links: seq<SzzLink>, dates: map<string, string>, files: set<string>,
                    entries: seq<PathEntry>, negatives: seq<string>, i: nat)
    requires IsOrdered(links, dates, entries) && IsKeyOrder(negatives, files - Implicated(links)) && i < |entries|
    ensures entries[i].path !in negatives
  {
    assert entries[i] in entries;
    EntryIsImplicated(links, dates, entries[i]);
  }

  // ---- conservation ----

  lemma NegativesOnPath(paths: seq<string>, path: string)
    requires Distinct(paths)
    ensures Count(NegativeRows(paths), Is((path, false))) == if path in paths then 1 else 0
    ensures Count(NegativeRows(paths), Is((path, true))) == 0
    decreases |paths|
  {
    if paths != [] {
      assert NegativeRows(paths)[1..] == NegativeRows(paths[1..]);
      NegativesOnPath(paths[1..], path);
      assert path in paths <==> path == paths[0] || path in paths[1..];
    }
  }

  lemma PositivesOnPath(entries: seq<PathEntry>, path: string)
    ensures Count(Rows(entries), Is((path, true))) == Count(Rows(entries), OnPath(path))
    ensures Count(Rows(entries), Is((path, false))) == 0
  {
    RowsArePositive(entries);
    CountAgree(Rows(entries), Is((path, true)), OnPath(path));
    CountAll(Rows(entries), Is((path, false)));
  }

  lemma {:induction false} CountAgree<T>(s: seq<T>, p: T -> bool, q: T -> bool)
    requires forall x :: x in s ==> p(x) == q(x)
    ensures Count(s, p) == Count(s, q)
  {
    if s != [] {
      assert s[0] in s && forall x :: x in s[1..] ==> x in s;
      CountAgree(s[1..], p, q);
    }
  }

  /** Both sides together: every positive and negative row of the whole, rearranged. */
  lemma WholeCount(ea: seq<PathEntry>, na: seq<string>, eb: seq<PathEntry>, nb: seq<string>, p: Row -> bool)
    ensures Count((Rows(ea) + NegativeRows(na)) + (Rows(eb) + NegativeRows(nb)), p)
         == Count(Rows(ea + eb), p) + Count(NegativeRows(na + nb), p)
  {
    RowsConcat(ea, eb);
    NegativesConcat(na, nb);
    CountInterleaved(Rows(ea), NegativeRows(na), Rows(eb), NegativeRows(nb), p);
  }

  lemma NegativesConcat(a: seq<string>, b: seq<string>)
    ensures NegativeRows(a + b) == NegativeRows(a) + NegativeRows(b)
  {}

  lemma CountInterleaved<T>(a: seq<T>, b: seq<T>, c: seq<T>, d: seq<T>, p: T -> bool)
    ensures Count((a + b) + (c + d), p) == Count(a + c, p) + Count(b + d, p)
  {
    CountOfConcat(a + b, c + d, p);
    CountOfConcat(a, b, p);
    CountOfConcat(c, d, p);
    CountOfConcat(a, c, p);
    CountOfConcat(b, d, p);
  }

  /** Conservation: the rows are exactly one positive per dated link and one negative per never-implicated file. */
  lemma RowsAreConserved(links: seq<SzzLink>, dates: map<string, string>, files: set<string>,
                         train: seq<Row>, validation: seq<Row>, path: string)
    requires IsSplit(links, dates, files, train, validation)
    ensures Count(train + validation, Is((path, true))) == Count(links, HitsPath(dates, path))
    ensures Count(train + validation, Is((path, false))) == if path in files && path !in Implicated(links) then 1 else 0
  {
    var entries: seq<PathEntry>, k: nat, negatives: seq<string> :|
      IsSplitBy(links, dates, files, entries, k, negatives, train, validation);
    var cut := TrainShare(|negatives|);
    CutsAddUp(entries, k);
    CutsAddUp(negatives, cut);
    PathCounts(entries[..k], negatives[..cut], entries[k..], negatives[cut..], entries, negatives, path);
    EntryCount(links, dates, entries, path);
  }

  lemma CutsAddUp<T>(s: seq<T>, k: nat)
    requires k <= |s|
    ensures s[..k] + s[k..] == s
  {}

  /** However the two lists are cut, both sides together hold the rows of the whole lists. */
  lemma PathCounts(ea: seq<PathEntry>, na: seq<string>, eb: seq<PathEntry>, nb: seq<string>,
                   entries: seq<PathEntry>, negatives: seq<string>, path: string)
    requires ea + eb == entries && na + nb == negatives && Distinct(negatives)
    ensures var whole := (Rows(ea) + NegativeRows(na)) + (Rows(eb) + NegativeRows(nb));
      && Count(whole, Is((path, true))) == Count(Rows(entries), OnPath(path))
      && Count(whole, Is((path, false))) == if path in negatives then 1 else 0
  {
    WholeCount(ea, na, eb, nb, Is((path, true)));
    WholeCount(ea, na, eb, nb, Is((path, false)));
    NegativesOnPath(negatives, path);
    PositivesOnPath(entries, path);
  }

  lemma EntryCount(links: seq<SzzLink>, dates: map<string, string>, entries: seq<PathEntry>, path: string)
    requires IsOrdered(links, dates, entries)
    ensures Count(Rows(entries), OnPath(path)) == Count(links, HitsPath(dates, path))
  {
    RowsOfPath(entries, path);
    if Count(links, HitsPath(dates, path)) > 0 {
      var e :| e in entries && e.path == path;
      var i :| 0 <= i < |entries| && entries[i] == e;
      assert IsEntry(links, dates, e);
    } else {
      forall i | 0 <= i < |entries| ensures entries[i].path != path {
        assert entries[i] in entries && IsEntry(links, dates, entries[i]);
      }
    }
  }

  // ---- the 60% cut ----

  /** Dated links on one of the given paths. */
  function HitsAny(dates: map<string, string>, paths: set<string>): SzzLink -> bool {
    (l: SzzLink) => l.path in paths && l.fixRev in dates
  }

  lemma {:induction false} CountOnePathMore(links: seq<SzzLink>, dates: map<string, string>, paths: set<string>,
                                            path: string)
    requires path !in paths
    ensures Count(links, HitsAny(dates, paths + {path})) ==
      Count(links, HitsAny(dates, paths)) + Count(links, HitsPath(dates, path))
  {
    if links != [] {
      CountOnePathMore(links[1..], dates, paths, path);
    }
  }

  function PathSet(entries: seq<PathEntry>): set<string> {
    set e | e in entries :: e.path
  }

  lemma PathsSnoc(front: seq<PathEntry>, last: PathEntry)
    requires DistinctPaths(front + [last])
    ensures PathSet(front + [last]) == PathSet(front) + {last.path}
    ensures last.path !in PathSet(front)
  {
    var entries := front + [last];
    assert forall i :: 0 <= i < |front| ==> front[i] == entries[i];
    assert entries[|front|] == last;
  }

  lemma {:induction false} RowsOfPaths(links: seq<SzzLink>, dates: map<string, string>, entries: seq<PathEntry>)
    requires DistinctPaths(entries)
    requires forall i :: 0 <= i < |entries| ==> entries[i].count == Count(links, HitsPath(dates, entries[i].path))
    ensures RowCount(entries) == Count(links, HitsAny(dates, PathSet(entries)))
  {
    if entries == [] {
      CountAll(links, HitsAny(dates, PathSet(entries)));
    } else {
      var front, last := entries[..|entries| - 1], entries[|entries| - 1];
      RowsOfPaths(links, dates, front);
      assert entries == front + [last];
      PathsSnoc(front, last);
      CountOnePathMore(links, dates, PathSet(front), last.path);
    }
  }

  /** The rows of all paths are the dated links. */
  lemma AllRows(links: seq<SzzLink>, dates: map<string, string>, entries: seq<PathEntry>)
    requires IsOrdered(links, dates, entries)
    ensures RowCount(entries) == Count(links, IsDated(dates))
  {
    forall i | 0 <= i < |entries| ensures entries[i].count == Count(links, HitsPath(dates, entries[i].path)) {
      assert entries[i] in entries;
    }
    RowsOfPaths(links, dates, entries);
    var paths := PathSet(entries);
    forall l | l in links ensures HitsAny(dates, paths)(l) == IsDated(dates)(l) {
      if l.fixRev in dates {
        CountPositive(links, HitsPath(dates, l.path));
        assert HitsPath(dates, l.path)(l);
      }
    }
    CountAgree(links, HitsAny(dates, paths), IsDated(dates));
  }

  lemma TrainPositives(entries: seq<PathEntry>, paths: seq<string>)
    ensures Count(Rows(entries) + NegativeRows(paths), IsPositive()) == RowCount(entries)
  {
    RowsArePositive(entries);
    CountOfConcat(Rows(entries), NegativeRows(paths), IsPositive());
    CountAll(Rows(entries), IsPositive());
    CountAll(NegativeRows(paths), IsPositive());
  }

  /** Training takes at least floor(60%) of the dated links, and without the rows of some single training path it
      would not: it overshoots by less than one path's rows. Both also with the percentage written out. */
  lemma TrainReachesTarget(links: seq<SzzLink>, dates: map<string, string>, files: set<string>,
                           train: seq<Row>, validation: seq<Row>)
    requires IsSplit(links, dates, files, train, validation)
    ensures var target, taken := TrainShare(Count(links, IsDated(dates))), Count(train, IsPositive());
      && target <= taken
      && (taken > 0 ==> exists r :: r in train && r.1 && taken < target + Count(train, Is(r)))
    ensures var total, taken := Count(links, IsDated(dates)), Count(train, IsPositive());
      && 60 * total < 100 * (taken + 1)
      && (taken > 0 ==> exists r :: r in train && r.1 && 100 * (taken - Count(train, Is(r)) + 1) <= 60 * total)
  {
    ShareIsSixtyPercent(Count(links, IsDated(dates)));
    var entries: seq<PathEntry>, k: nat, negatives: seq<string> :|
      IsSplitBy(links, dates, files, entries, k, negatives, train, validation);
    var target := TrainShare(Count(links, IsDated(dates)));
    TrainPositives(entries[..k], negatives[..TrainShare(|negatives|)]);
    AllRows(links, dates, entries);
    assert entries[..|entries|] == entries;
    if k > 0 {
      var last := entries[k - 1];
      assert entries[..k][..k - 1] == entries[..k - 1];
      assert RowCount(entries[..k - 1]) < target;
      PathRowsInTrain(entries[..k], negatives[..TrainShare(|negatives|)], k - 1);
      assert last in entries && IsEntry(links, dates, last);
      CountPositive(train, Is((last.path, true)));
      var r := (last.path, true);
      assert r in train && r.1 && Count(train, IsPositive()) < target + Count(train, Is(r));
    }
  }

  lemma {:induction false} RowCountMonotone(entries: seq<PathEntry>, i: nat, j: nat)
    requires i <= j <= |entries|
    ensures RowCount(entries[..i]) <= RowCount(entries[..j])
    decreases j
  {
    if i < j {
      RowCountMonotone(entries, i, j - 1);
      assert entries[..j][..j - 1] == entries[..j - 1];
    }
  }

  /** Training takes exactly floor(60%) of the dated links exactly when some prefix of the ordered paths has that
      many. */
  lemma TrainMeetsTargetIff(links: seq<SzzLink>, dates: map<string, string>, files: set<string>,
                            train: seq<Row>, validation: seq<Row>, entries: seq<PathEntry>)
    requires IsSplit(links, dates, files, train, validation) && IsOrdered(links, dates, entries)
    ensures var target := TrainShare(Count(links, IsDated(dates)));
      Count(train, IsPositive()) == target <==> exists j :: 0 <= j <= |entries| && RowCount(entries[..j]) == target
  {
    var target := TrainShare(Count(links, IsDated(dates)));
    var order: seq<PathEntry>, k: nat, negatives: seq<string> :|
      IsSplitBy(links, dates, files, order, k, negatives, train, validation);
    OrderedIsUnique(links, dates, order, entries);
    TrainPositives(entries[..k], negatives[..TrainShare(|negatives|)]);
    AllRows(links, dates, entries);
    assert entries[..|entries|] == entries;
    if j :| 0 <= j <= |entries| && RowCount(entries[..j]) == target {
      assert k <= j;
      RowCountMonotone(entries, k, j);
    }
  }

  /** One path with two dated links: the target is one row, and both rows train. */
  method OvershootExample(first: SzzLink, second: SzzLink, dates: map<string, string>,
                          intensities: map<string, seq<real>>)
    returns (train: seq<Row>, validation: seq<Row>)
    requires first.path == second.path && first.fixRev in dates && second.fixRev in dates
    ensures IsSplit([first, second], dates, intensities.Keys, train, validation)
    ensures TrainShare(Count([first, second], IsDated(dates))) == 1 && Count(train, IsPositive()) == 2
  {
    train, validation := BuildTrainValidationSplit([first, second], dates, intensities);
    OnePathTrainsWhole([first, second], dates, intensities.Keys, train, validation);
  }

  /** If all dated links are on one path, and the target is not zero, they all train. */
  lemma OnePathTrainsWhole(links: seq<SzzLink>, dates: map<string, string>, files: set<string>, train: seq<Row>,
                           validation: seq<Row>)
    requires IsSplit(links, dates, files, train, validation)
    requires forall l, l' :: l in links && l' in links && l.fixRev in dates && l'.fixRev in dates ==> l.path == l'.path
    requires TrainShare(Count(links, IsDated(dates))) > 0
    ensures Count(train, IsPositive()) == Count(links, IsDated(dates))
  {
    var entries: seq<PathEntry>, k: nat, negatives: seq<string> :|
      IsSplitBy(links, dates, files, entries, k, negatives, train, validation);
    TrainPositives(entries[..k], negatives[..TrainShare(|negatives|)]);
    AllRows(links, dates, entries);
    AtMostOnePath(links, dates, entries);
    assert entries[..|entries|] == entries;
  }

  lemma AtMostOnePath(links: seq<SzzLink>, dates: map<string, string>, entries: seq<PathEntry>)
    requires IsOrdered(links, dates, entries)
    requires forall l, l' :: l in links && l' in links && l.fixRev in dates && l'.fixRev in dates ==> l.path == l'.path
    ensures |entries| <= 1
  {
    if |entries| > 1 {
      assert entries[0] in entries && entries[1] in entries;
      CountPositive(links, HitsPath(dates, entries[0].path));
      CountPositive(links, HitsPath(dates, entries[1].path));
    }
  }

  lemma PathRowsInTrain(entries: seq<PathEntry>, paths: seq<string>, i: nat)
    requires DistinctPaths(entries) && i < |entries|
    ensures Count(Rows(entries) + NegativeRows(paths), Is((entries[i].path, true))) == entries[i].count
  {
    var r := (entries[i].path, true);
    CountOfConcat(Rows(entries), NegativeRows(paths), Is(r));
    PositivesOnPath(entries, entries[i].path);
    RowsOfPath(entries, entries[i].path);
    CountAll(NegativeRows(paths), Is(r));
  }

  /** Exactly floor(60%) of the never-implicated files train. */
  lemma NegativeShare(links: seq<SzzLink>, dates: map<string, string>, files: set<string>, train: seq<Row>,
                      validation: seq<Row>)
    requires IsSplit(links, dates, files, train, validation)
    ensures |train| - Count(train, IsPositive()) == TrainShare(|files - Implicated(links)|)
    ensures var clean, taken := |files - Implicated(links)|, |train| - Count(train, IsPositive());
      100 * taken <= 60 * clean < 100 * (taken + 1)
  {
    ShareIsSixtyPercent(|files - Implicated(links)|);
    var entries: seq<PathEntry>, k: nat, negatives: seq<string> :|
      IsSplitBy(links, dates, files, entries, k, negatives, train, validation);
    TrainPositives(entries[..k], negatives[..TrainShare(|negatives|)]);
    RowsArePositive(entries[..k]);
    DistinctLength(negatives, files - Implicated(links));
  }

  // ---- time ----

  /** date is the first fix date of a path: that of one of its dated links, and no later than any of them, comparing
      dates by their first difference. */
  ghost predicate IsFirstFix(links: seq<SzzLink>, dates: map<string, string>, path: string, date: string) {
    && (exists l :: l in links && l.path == path && l.fixRev in dates && dates[l.fixRev] == date)
    && (forall l :: l in links && l.path == path && l.fixRev in dates ==> Lexicographic(date, dates[l.fixRev]))
  }

  lemma EarliestIsFirstFix(links: seq<SzzLink>, dates: map<string, string>, path: string, date: string)
    ensures IsEarliest(links, dates, path, date) <==> IsFirstFix(links, dates, path, date)
  {
    forall l | l in links && l.fixRev in dates
      ensures StrLe(date, dates[l.fixRev]) <==> Lexicographic(date, dates[l.fixRev])
    {
      StrLeIsLexicographic(date, dates[l.fixRev]);
    }
  }

  /** Grouping keys each path with a dated link by its first fix date. */
  lemma GroupedByFirstFix(links: seq<SzzLink>, dates: map<string, string>, m: Incidences, path: string)
    requires IsGrouped(links, dates, m)
    ensures path in m <==> exists l :: l in links && l.path == path && l.fixRev in dates
    ensures path in m ==> IsFirstFix(links, dates, path, m[path].1)
  {
    CountPositive(links, HitsPath(dates, path));
    if l :| l in links && l.path == path && l.fixRev in dates { assert HitsPath(dates, path)(l); }
    if path in m { EarliestIsFirstFix(links, dates, path, m[path].1); }
  }

  /** No validation positive is older than a training positive: it is later in (first fix date, path) order, both
      compared by their first difference. */
  lemma ValidationIsNotOlder(links: seq<SzzLink>, dates: map<string, string>, files: set<string>,
                             train: seq<Row>, validation: seq<Row>, r: Row, q: Row, before: string, after: string)
    requires IsSplit(links, dates, files, train, validation) && r in train && r.1 && q in validation && q.1
    requires IsFirstFix(links, dates, r.0, before) && IsFirstFix(links, dates, q.0, after)
    ensures Lexicographic(before, after) && (before == after ==> Lexicographic(r.0, q.0))
  {
    EarliestIsFirstFix(links, dates, r.0, before);
    EarliestIsFirstFix(links, dates, q.0, after);
    StrLeIsLexicographic(before, after);
    StrLeIsLexicographic(r.0, q.0);
    var entries: seq<PathEntry>, k: nat, negatives: seq<string> :|
      IsSplitBy(links, dates, files, entries, k, negatives, train, validation);
    var i, j := SideOrigins(entries, k, negatives, TrainShare(|negatives|), r, q);
    assert EntryLe(entries[i], entries[j]);
    assert entries[i] in entries && entries[j] in entries;
    EarliestIsUnique(links, dates, r.0, before, entries[i].earliest);
    EarliestIsUnique(links, dates, q.0, after, entries[j].earliest);
  }

  lemma EarliestIsUnique(links: seq<SzzLink>, dates: map<string, string>, path: string, d: string, e: string)
    requires IsEarliest(links, dates, path, d) && IsEarliest(links, dates, path, e)
    ensures d == e
  {
    StrLeTotal(d, e);
  }

  /** The negatives that train come before those that validate, in path order. */
  lemma NegativesSplitByPath(links: seq<SzzLink>, dates: map<string, string>, files: set<string>,
                             train: seq<Row>, validation: seq<Row>, r: Row, q: Row)
    requires IsSplit(links, dates, files, train, validation) && r in train && !r.1 && q in validation && !q.1
    ensures r.0 != q.0 && Lexicographic(r.0, q.0)
  {
    var entries: seq<PathEntry>, k: nat, negatives: seq<string> :|
      IsSplitBy(links, dates, files, entries, k, negatives, train, validation);
    var i, j := SideOrigins(entries, k, negatives, TrainShare(|negatives|), r, q);
    KeyOrderIsLexicographic(negatives, files - Implicated(links));
  }

  lemma RowIsThere(entries: seq<PathEntry>, i: nat)
    requires DistinctPaths(entries) && i < |entries| && entries[i].count > 0
    ensures (entries[i].path, true) in Rows(entries)
  {
    RowsOfPath(entries, entries[i].path);
    CountPositive(Rows(entries), OnPath(entries[i].path));
    RowsArePositive(entries);
  }

  lemma TwoLinksCounts(early: SzzLink, late: SzzLink, links: seq<SzzLink>, dates: map<string, string>)
    requires links == [late, early] && early.path != late.path && early.fixRev in dates && late.fixRev in dates
    ensures Count(links, HitsPath(dates, early.path)) == 1 && Count(links, HitsPath(dates, late.path)) == 1
    ensures Count(links, IsDated(dates)) == 2
    ensures IsEarliest(links, dates, early.path, dates[early.fixRev])
    ensures IsEarliest(links, dates, late.path, dates[late.fixRev])
  {
    assert links[0] == late && links[1] == early && links[1..] == [early] && links[1..][1..] == [];
    StrLeTotal(dates[early.fixRev], dates[early.fixRev]);
    StrLeTotal(dates[late.fixRev], dates[late.fixRev]);
    assert HitsPath(dates, early.path)(early) && HitsPath(dates, late.path)(late);
  }

  lemma EntryOfTwo(early: SzzLink, late: SzzLink, links: seq<SzzLink>, dates: map<string, string>, e: PathEntry)
    requires links == [late, early] && early.path != late.path && early.fixRev in dates && late.fixRev in dates
    requires IsEntry(links, dates, e)
    ensures e.count == 1
    ensures (e.path == early.path && e.earliest == dates[early.fixRev])
         || (e.path == late.path && e.earliest == dates[late.fixRev])
  {
    TwoLinksCounts(early, late, links, dates);
    CountPositive(links, HitsPath(dates, e.path));
    if e.path == early.path { EarliestIsUnique(links, dates, e.path, e.earliest, dates[early.fixRev]); }
    if e.path == late.path { EarliestIsUnique(links, dates, e.path, e.earliest, dates[late.fixRev]); }
  }

  lemma InOrder(entries: seq<PathEntry>, i: nat, j: nat)
    requires SortedBy(entries, EntryLe) && i < |entries| && j < |entries|
    ensures EntryLe(entries[j], entries[i]) || i < j || i == j
  {}

  /** With two such links, the path fixed first is the first entry. */
  lemma OlderComesFirst(early: SzzLink, late: SzzLink, links: seq<SzzLink>, dates: map<string, string>,
                        entries: seq<PathEntry>) returns (j: nat)
    requires links == [late, early] && early.path != late.path && early.fixRev in dates && late.fixRev in dates
    requires !Lexicographic(dates[late.fixRev], dates[early.fixRev]) && IsOrdered(links, dates, entries)
    ensures 0 < j < |entries| && entries[0].path == early.path && entries[j].path == late.path
    ensures forall e :: e in entries ==> e.count == 1
  {
    forall e | e in entries
      ensures e.count == 1
      ensures (e.path == early.path && e.earliest == dates[early.fixRev])
           || (e.path == late.path && e.earliest == dates[late.fixRev])
    {
      EntryOfTwo(early, late, links, dates, e);
    }
    TwoLinksCounts(early, late, links, dates);
    StrLeIsLexicographic(dates[late.fixRev], dates[early.fixRev]);
    var e, f :| e in entries && e.path == early.path && f in entries && f.path == late.path;
    var i: nat :| i < |entries| && entries[i] == e;
    j :| 0 <= j < |entries| && entries[j] == f;
    InOrder(entries, i, j);
    assert entries[0] in entries;
  }

  lemma FirstPathReachesOne(entries: seq<PathEntry>, k: nat)
    requires entries != [] && entries[0].count == 1 && IsCut(entries, 1, k)
    ensures k == 1
  {
    assert entries[..1] == [entries[0]] && entries[..1][..0] == [];
    assert RowCount(entries[..1]) == 1 && RowCount(entries[..0]) == 0;
  }

  /** Two dated links on different paths: the path fixed first trains, the other validates. */
  lemma OlderOfTwoTrains(early: SzzLink, late: SzzLink, links: seq<SzzLink>, dates: map<string, string>,
                         files: set<string>, train: seq<Row>, validation: seq<Row>)
    requires links == [late, early] && early.path != late.path && early.fixRev in dates && late.fixRev in dates
    requires !Lexicographic(dates[late.fixRev], dates[early.fixRev])
    requires IsSplit(links, dates, files, train, validation)
    ensures (early.path, true) in train && (late.path, true) in validation
  {
    var entries: seq<PathEntry>, k: nat, negatives: seq<string> :|
      IsSplitBy(links, dates, files, entries, k, negatives, train, validation);
    var j := OlderComesFirst(early, late, links, dates, entries);
    TwoLinksCounts(early, late, links, dates);
    assert entries[0] in entries && entries[j] in entries;
    FirstPathReachesOne(entries, k);
    RowsOnTheirSides(entries, 0, 1, j);
  }

  lemma RowsOnTheirSides(entries: seq<PathEntry>, i: nat, k: nat, j: nat)
    requires DistinctPaths(entries) && i < k <= j < |entries| && entries[i].count > 0 && entries[j].count > 0
    ensures (entries[i].path, true) in Rows(entries[..k])
    ensures (entries[j].path, true) in Rows(entries[k..])
  {
    RowIsThere(entries[..k], i);
    RowIsThere(entries[k..], j - k);
  }

  /** The split run on one path fixed in 2020 and one fixed in 2024, given the other way round. */
  method OlderPathTrainsExample(intensities: map<string, seq<real>>) returns (train: seq<Row>, validation: seq<Row>)
    ensures ("old.rs", true) in train && ("new.rs", true) in validation
  {
    var early, late := SzzLink("a", "old.rs"), SzzLink("b", "new.rs");
    var dates := map["a" := "2020-01-01", "b" := "2024-01-01"];
    train, validation := BuildTrainValidationSplit([late, early], dates, intensities);
    LaterYear("2020-01-01", "2024-01-01");
    OlderOfTwoTrains(early, late, [late, early], dates, intensities.Keys, train, validation);
  }

  lemma LaterYear(x: string, y: string)
    requires x == "2020-01-01" && y == "2024-01-01"
    ensures !Lexicographic(y, x)
  {
    assert x[3] == '0' && y[3] == '4';
    forall i: nat ensures !DiffersAt(y, x, i) {
      if i > 3 && i < |x| { assert x[..i][3] != y[..i][3]; }
    }
  }

  // ---- independence of order ----

  /** The entry order refined by count, which never decides between distinct paths. */
  predicate EntryTotal(a: PathEntry, b: PathEntry) {
    EntryLe(a, b) && (EntryLe(b, a) ==> a.count <= b.count)
  }

  lemma EntryTotalIsTotalOrder()
    ensures TotalOrder(EntryTotal)
  {
    EntryLeIsPreorder();
    forall a, b ensures EntryTotal(a, b) || EntryTotal(b, a) {
      assert EntryLe(a, b) || EntryLe(b, a);
    }
    forall a, b, c | EntryTotal(a, b) && EntryTotal(b, c) ensures EntryTotal(a, c) {
      assert EntryLe(a, c);
      if EntryLe(c, a) { assert EntryLe(b, a) && EntryLe(c, b); }
    }
  }

  lemma SameEntries(links: seq<SzzLink>, links': seq<SzzLink>, dates: map<string, string>, e: PathEntry)
    requires multiset(links) == multiset(links') && IsEntry(links, dates, e)
    ensures IsEntry(links', dates, e)
  {
    CountByMultiset(links, links', HitsPath(dates, e.path));
    SameMembers(links, links');
  }

  lemma SameMembers<T>(s: seq<T>, t: seq<T>)
    requires multiset(s) == multiset(t)
    ensures forall x :: x in s <==> x in t
  {
    assert forall x :: x in s <==> x in multiset(s);
    assert forall x :: x in t <==> x in multiset(t);
  }

  lemma EntriesIncluded(links: seq<SzzLink>, dates: map<string, string>, s: seq<PathEntry>, t: seq<PathEntry>,
                        e: PathEntry)
    requires IsOrdered(links, dates, s) && IsOrdered(links, dates, t) && e in s
    ensures e in t
  {
    var f :| f in t && f.path == e.path;
    assert IsEntry(links, dates, e) && IsEntry(links, dates, f);
    EarliestIsUnique(links, dates, e.path, e.earliest, f.earliest);
  }

  lemma OrderedIsUnique(links: seq<SzzLink>, dates: map<string, string>, s: seq<PathEntry>, t: seq<PathEntry>)
    requires IsOrdered(links, dates, s) && IsOrdered(links, dates, t)
    ensures s == t
  {
    forall e ensures e in s <==> e in t {
      if e in s { EntriesIncluded(links, dates, s, t, e); }
      if e in t { EntriesIncluded(links, dates, t, s, e); }
    }
    RefinedSorted(s);
    RefinedSorted(t);
    DistinctEnumerationsAgree(s, t);
    EntryTotalIsTotalOrder();
    SortedArrangementIsUnique(s, t, EntryTotal);
  }

  lemma RefinedSorted(s: seq<PathEntry>)
    requires SortedBy(s, EntryLe) && DistinctPaths(s)
    ensures SortedBy(s, EntryTotal) && Distinct(s)
  {
    EntryLeIsPreorder();
    forall i, j | 0 <= i < j < |s| ensures EntryTotal(s[i], s[j]) {
      assert EntryLe(s[i], s[j]) && s[i].path != s[j].path;
    }
  }

  lemma OrderedIgnoresOrder(links: seq<SzzLink>, links': seq<SzzLink>, dates: map<string, string>,
                            entries: seq<PathEntry>)
    requires multiset(links) == multiset(links') && IsOrdered(links, dates, entries)
    ensures IsOrdered(links', dates, entries)
  {
    forall e | e in entries ensures IsEntry(links', dates, e) {
      SameEntries(links, links', dates, e);
    }
    forall p | Count(links', HitsPath(dates, p)) > 0 ensures exists e :: e in entries && e.path == p {
      CountByMultiset(links, links', HitsPath(dates, p));
    }
  }

  /** Permuting the links changes neither side, and any two runs agree whatever order their hash maps iterate in. */
  lemma SplitIgnoresOrder(links: seq<SzzLink>, links': seq<SzzLink>, dates: map<string, string>, files: set<string>,
                          train: seq<Row>, validation: seq<Row>, train': seq<Row>, validation': seq<Row>)
    requires multiset(links) == multiset(links')
    requires IsSplit(links, dates, files, train, validation) && IsSplit(links', dates, files, train', validation')
    ensures train == train' && validation == validation'
  {
    var entries: seq<PathEntry>, k: nat, negatives: seq<string> :|
      IsSplitBy(links, dates, files, entries, k, negatives, train, validation);
    var entries': seq<PathEntry>, k': nat, negatives': seq<string> :|
      IsSplitBy(links', dates, files, entries', k', negatives', train', validation');
    OrderedIgnoresOrder(links, links', dates, entries);
    OrderedIsUnique(links', dates, entries, entries');
    SameMembers(links, links');
    assert Implicated(links) == Implicated(links');
    KeyOrderIsUnique(negatives, negatives', files - Implicated(links));
    CountByMultiset(links, links', IsDated(dates));
    assert k == k';
  }
}
