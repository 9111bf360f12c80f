/** The eviction loops of cache.rs over a directory of cache files: oldest first, deletions
    that may fail, and one entry that must stay. */
module CacheEviction {
  import opened Ordering
  import opened Totals

  /** A cache file; the modification time may be unreadable. */
  datatype File = File(mtime: Option<nat>, size: nat)

  type Files = map<string, File>

  datatype Entry = Entry(path: string, mtime: nat, size: nat)

  /** What the walk records for a path. */
  function EntryAt(files: Files, path: string): Entry {
    if path in files then Entry(path, MtimeOrZero(files[path]), files[path].size) else Entry(path, 0, 0)
  }

  function MtimeOrZero(f: File): nat { if f.mtime.Some? then f.mtime.value else 0 }

  /** f was modified before g; a time that cannot be read counts as the earliest possible one. */
  predicate OlderFile(f: File, g: File) {
    match (f.mtime, g.mtime)
    case (Some(x), Some(y)) => x < y
    case (None, Some(y)) => 0 < y
    case (_, None) => false
  }

  predicate OlderOrEqual(a: Entry, b: Entry) { a.mtime <= b.mtime }

  lemma OlderIsPreorder()
    ensures TotalPreorder(OlderOrEqual)
  {}

  ghost predicate DistinctEntries(entries: seq<Entry>) {
    forall i, j :: 0 <= i < j < |entries| ==> entries[i].path != entries[j].path
  }

  function Paths(entries: seq<Entry>): set<string> {
    set e | e in entries :: e.path
  }

  /** entries lists exactly the files among paths, each once, with size and time as the walk reads them. */
  ghost predicate Lists(entries: seq<Entry>, files: Files, paths: set<string>) {
    && paths <= files.Keys && DistinctEntries(entries) && Paths(entries) == paths
    && forall i :: 0 <= i < |entries| ==> entries[i].path in files && entries[i] == EntryAt(files, entries[i].path)
  }

  lemma PathsHold(entries: seq<Entry>, i: nat)
    requires i < |entries|
    ensures entries[i].path in Paths(entries)
  {
    assert entries[i] in entries;
  }

  lemma PathsSnoc(front: seq<Entry>, last: Entry)
    ensures Paths(front + [last]) == Paths(front) + {last.path}
    ensures DistinctEntries(front + [last]) ==> DistinctEntries(front) && last.path !in Paths(front)
  {
    var all := front + [last];
    assert all[|front|] == last && forall i :: 0 <= i < |front| ==> all[i] == front[i];
    assert forall e :: e in all <==> e in front || e == last;
  }

  // ---- bytes ----

  function SizeOf(f: File): nat { f.size }

  /** The total size of the files present. */
  ghost function Bytes(files: Files): nat { Total(files, SizeOf) }

  lemma BytesWithout(files: Files, p: string)
    requires p in files
    ensures Bytes(files) == files[p].size + Bytes(files - {p})
  {
    TotalWithout(files, p, SizeOf);
  }

  function SumSizes(entries: seq<Entry>): nat {
    if entries == [] then 0 else SumSizes(entries[..|entries| - 1]) + entries[|entries| - 1].size
  }

  lemma {:induction false} SumIsBytes(entries: seq<Entry>, files: Files)
    requires Lists(entries, files, files.Keys)
    ensures SumSizes(entries) == Bytes(files)
  {
    if entries == [] {
      assert files.Keys == {};
    } else {
      var last := entries[|entries| - 1];
      PathsHold(entries, |entries| - 1);
      BytesWithout(files, last.path);
      ListsWithoutLast(entries, files);
      SumIsBytes(entries[..|entries| - 1], files - {last.path});
    }
  }

  lemma ListsWithoutLast(entries: seq<Entry>, files: Files)
    requires entries != [] && Lists(entries, files, files.Keys)
    ensures var rest := files - {entries[|entries| - 1].path}; Lists(entries[..|entries| - 1], rest, rest.Keys)
  {
    var n := |entries| - 1;
    var front, rest := entries[..n], files - {entries[n].path};
    assert entries == front + [entries[n]];
    PathsSnoc(front, entries[n]);
    assert Paths(front) == rest.Keys;
    forall i | 0 <= i < n ensures front[i].path in rest && front[i] == EntryAt(rest, front[i].path) {
      PathsHold(front, i);
    }
  }

  // ---- global eviction ----

  /** What trying to delete the given entries removes: neither the kept file nor a file whose removal fails. */
  function Removed(entries: seq<Entry>, keep: Option<string>, locked: set<string>): set<string> {
    set e | e in entries && Some(e.path) != keep && e.path !in locked :: e.path
  }

  /** The files left once the first i entries have been attempted. */
  function Left(before: Files, order: seq<Entry>, i: nat, keep: Option<string>, locked: set<string>): Files
    requires i <= |order|
  {
    before - Removed(order[..i], keep, locked)
  }

  /** The first k entries were attempted, oldest first, each because the bytes then present exceeded the cap;
      the walk ended because they no longer do, or because nothing was left to try. */
  ghost predicate IsEvictionBy(before: Files, after: Files, locked: set<string>, maxBytes: nat, keep: Option<string>,
                               order: seq<Entry>, k: nat)
  {
    && Lists(order, before, before.Keys) && SortedBy(order, OlderOrEqual) && k <= |order|
    && after == Left(before, order, k, keep, locked)
    && (forall j :: 0 <= j < k ==> Bytes(Left(before, order, j, keep, locked)) > maxBytes)
    && (Bytes(after) <= maxBytes || k == |order|)
  }

  ghost predicate IsEviction(before: Files, after: Files, locked: set<string>, maxBytes: nat, keep: Option<string>) {
    exists order: seq<Entry>, k: nat :: IsEvictionBy(before, after, locked, maxBytes, keep, order, k)
  }

  // ---- per-repo pruning ----

  /** Files whose modification time can be read. */
  function Datable(files: Files): set<string> {
    set p | p in files && files[p].mtime.Some?
  }

  ghost predicate IsRepoPruneBy(before: Files, after: Files, locked: set<string>, maxEntries: nat, order: seq<Entry>) {
    && Lists(order, before, Datable(before)) && SortedBy(order, OlderOrEqual)
    && var cut := if |order| <= maxEntries then 0 else |order| - maxEntries;
       after == Left(before, order, cut, None, locked)
  }

  ghost predicate IsRepoPrune(before: Files, after: Files, locked: set<string>, maxEntries: nat) {
    exists order :: IsRepoPruneBy(before, after, locked, maxEntries, order)
  }

  /** Attempting one more entry takes it out of what is left, unless it is the kept one or its removal fails. */
  lemma AttemptOne(before: Files, order: seq<Entry>, i: nat, keep: Option<string>, locked: set<string>)
    requires i < |order|
    ensures var files, path := Left(before, order, i, keep, locked), order[i].path;
            Left(before, order, i + 1, keep, locked) ==
              if Some(path) == keep || path in locked then files else files - {path}
  {
    assert order[..i + 1] == order[..i] + [order[i]];
  }

  lemma NothingAttempted(before: Files, order: seq<Entry>, keep: Option<string>, locked: set<string>)
    ensures Left(before, order, 0, keep, locked) == before
  {}

  lemma SortedStillLists(walk: seq<Entry>, order: seq<Entry>, files: Files, paths: set<string>)
    requires Lists(walk, files, paths) && order == StableSort(walk, OlderOrEqual) && TotalPreorder(OlderOrEqual)
    ensures Lists(order, files, paths)
  {
    SortKeepsElements(walk, OlderOrEqual);
    forall i, j | 0 <= i < j < |walk| ensures walk[i] != walk[j] {
      assert walk[i].path != walk[j].path;
    }
    SortKeepsDistinct(walk, OlderOrEqual);
    forall i | 0 <= i < |order| ensures order[i].path in files && order[i] == EntryAt(files, order[i].path) {
      assert order[i] in walk;
    }
    forall i, j | 0 <= i < j < |order| ensures order[i].path != order[j].path {
      assert order[i] == EntryAt(files, order[i].path) && order[j] == EntryAt(files, order[j].path);
    }
  }

  /** An entry that has not been attempted is still in the directory. */
  lemma StillThere(before: Files, order: seq<Entry>, i: nat, keep: Option<string>, locked: set<string>)
    requires Lists(order, before, before.Keys) && i < |order|
    ensures var files := Left(before, order, i, keep, locked);
            order[i].path in files && files[order[i].path].size == order[i].size
  {
    assert order[..i + 1][..i] == order[..i] && order[..i + 1] == order[..i] + [order[i]];
    assert DistinctEntries(order[..i + 1]) by {
      assert forall j :: 0 <= j <= i ==> order[..i + 1][j] == order[j];
    }
    PathsSnoc(order[..i], order[i]);
    assert Removed(order[..i], keep, locked) <= Paths(order[..i]);
  }

  /** State of the eviction loop before entry i. */
  ghost predicate Evicting(before: Files, order: seq<Entry>, i: nat, maxBytes: nat, keep: Option<string>,
                           locked: set<string>, files: Files)
  {
    && Lists(order, before, before.Keys) && i <= |order|
    && files == Left(before, order, i, keep, locked)
    && forall j :: 0 <= j < i ==> Bytes(Left(before, order, j, keep, locked)) > maxBytes
  }

  lemma EvictStep(before: Files, order: seq<Entry>, i: nat, maxBytes: nat, keep: Option<string>, locked: set<string>,
                  files: Files)
    requires Evicting(before, order, i, maxBytes, keep, locked, files) && i < |order| && Bytes(files) > maxBytes
    ensures var path := order[i].path;
      && path in files && Bytes(files) == order[i].size + Bytes(files - {path})
      && Evicting(before, order, i + 1, maxBytes, keep, locked,
                  if Some(path) == keep || path in locked then files else files - {path})
  {
    AttemptOne(before, order, i, keep, locked);
    StillThere(before, order, i, keep, locked);
    BytesWithout(files, order[i].path);
  }

  /** The cache directory. Removing one of the locked paths fails. */
  class CacheDir {
    var files: Files
    const locked: set<string>

    constructor (files: Files, locked: set<string>)
      ensures this.files == files && this.locked == locked
    {
      this.files := files;
      this.locked := locked;
    }

    /** `delete_duckdb_with_companion`: a failure is logged and ignored. */
    method Delete(path: string)
      modifies this`files
      ensures files == if path in locked then old(files) else old(files) - {path}
    {
      if path !in locked {
        files := files - {path};
      }
    }

    /** The walk reads the files in no particular order. */
    method Walk(paths: set<string>) returns (walk: seq<Entry>)
      requires paths <= files.Keys
      ensures Lists(walk, files, paths)
    {
      var keys := Enumerate(paths);
      var now := files;
      walk := seq(|keys|, i requires 0 <= i < |keys| => EntryAt(now, keys[i]));
      forall i | 0 <= i < |walk| ensures walk[i].path in paths {
        assert keys[i] in keys;
      }
      forall p | p in paths ensures p in Paths(walk) {
        assert p in keys;
        var i :| 0 <= i < |keys| && keys[i] == p;
        PathsHold(walk, i);
      }
    }

    /** The walk, its total and its order; then the loop, unless the total is within the cap already. */
    method PruneGlobalCache(maxBytes: nat, keep: Option<string>)
      modifies this`files
      ensures IsEviction(old(files), files, locked, maxBytes, keep)
    {
      var walk := Walk(files.Keys);
      var total := SumSizes(walk);
      SumIsBytes(walk, files);
      OlderIsPreorder();
      ghost var order := StableSort(walk, OlderOrEqual);
      SortedStillLists(walk, order, files, files.Keys);
      if total <= maxBytes {
        NothingAttempted(files, order, keep, locked);
        assert IsEvictionBy(files, files, locked, maxBytes, keep, order, 0);
        return;
      }
      var sorted := StableSort(walk, OlderOrEqual);
      EvictOldest(sorted, total, maxBytes, keep);
    }

    method EvictOldest(sorted: seq<Entry>, total: nat, maxBytes: nat, keep: Option<string>)
      requires Lists(sorted, files, files.Keys) && SortedBy(sorted, OlderOrEqual) && total == Bytes(files)
      modifies this`files
      ensures IsEviction(old(files), files, locked, maxBytes, keep)
    {
      ghost var before := files;
      var remaining := total;
      var i := 0;
      NothingAttempted(before, sorted, keep, locked);
      while i < |sorted|
        invariant Evicting(before, sorted, i, maxBytes, keep, locked, files) && remaining == Bytes(files)
      {
        var e := sorted[i];
        if remaining <= maxBytes {
          break;
        }
        EvictStep(before, sorted, i, maxBytes, keep, locked, files);
        i := i + 1;
        if keep == Some(e.path) {
          continue;
        }
        var existed := e.path in files;
        Delete(e.path);
        if existed && e.path !in files {
          remaining := if e.size <= remaining then remaining - e.size else 0;
        }
      }
      assert IsEvictionBy(before, files, locked, maxBytes, keep, sorted, i);
    }

    method PruneRepoCache(maxEntries: nat)
      modifies this`files
      ensures IsRepoPrune(old(files), files, locked, maxEntries)
    {
      var entries := Walk(Datable(files));
      OlderIsPreorder();
      ghost var order := StableSort(entries, OlderOrEqual);
      SortedStillLists(entries, order, files, Datable(files));
      if |entries| <= maxEntries {
        NothingAttempted(files, order, None, locked);
        assert IsRepoPruneBy(files, files, locked, maxEntries, order);
        return;
      }
      var sorted := StableSort(entries, OlderOrEqual);
      DeleteFirst(sorted, maxEntries);
    }

    method DeleteFirst(sorted: seq<Entry>, maxEntries: nat)
      requires Lists(sorted, files, Datable(files)) && SortedBy(sorted, OlderOrEqual) && |sorted| > maxEntries
      modifies this`files
      ensures IsRepoPrune(old(files), files, locked, maxEntries)
    {
      ghost var before := files;
      var toDelete := |sorted| - maxEntries;
      NothingAttempted(before, sorted, None, locked);
      for i := 0 to toDelete
        invariant files == Left(before, sorted, i, None, locked)
      {
        AttemptOne(before, sorted, i, None, locked);
        Delete(sorted[i].path);
      }
      assert IsRepoPruneBy(before, files, locked, maxEntries, sorted);
    }
  }
}
