/** What the eviction loops promise: nothing protected is lost, the oldest go first, no more
    go than needed, and exactly when the cap is met. */
module CacheEvictionLaws {
  import opened CacheEviction
  import opened Ordering
  import opened Totals

  /** Files the loop can never free: the kept one and those whose removal fails. */
  function Unremovable(files: Files, keep: Option<string>, locked: set<string>): Files {
    map p | p in files && (Some(p) == keep || p in locked) :: files[p]
  }

  /** Survivors are untouched, and the kept file and undeletable files always survive. */
  lemma ProtectedFilesSurvive(before: Files, after: Files, locked: set<string>, maxBytes: nat, keep: Option<string>,
                              p: string)
    requires IsEviction(before, after, locked, maxBytes, keep)
    ensures p in after ==> p in before && after[p] == before[p]
    ensures p in Unremovable(before, keep, locked) ==> p in after
  {
    var order: seq<Entry>, k: nat :| IsEvictionBy(before, after, locked, maxBytes, keep, order, k);
  }

  /** A missing file was one of the attempted entries. */
  lemma DeletedWasAttempted(before: Files, after: Files, locked: set<string>, maxBytes: nat, keep: Option<string>,
                            order: seq<Entry>, k: nat, p: string) returns (i: nat)
    requires IsEvictionBy(before, after, locked, maxBytes, keep, order, k) && p in before && p !in after
    ensures i < k && order[i].path == p && order[i] == EntryAt(before, p) && Some(p) != keep && p !in locked
  {
    var e: Entry :| e in order[..k] && e.path == p && Some(e.path) != keep && e.path !in locked;
    i :| 0 <= i < k && order[..k][i] == e;
  }

  lemma PositionOf(order: seq<Entry>, files: Files, p: string) returns (i: nat)
    requires Lists(order, files, files.Keys) && p in files
    ensures i < |order| && order[i].path == p && order[i] == EntryAt(files, p)
  {
    assert p in Paths(order);
    var e: Entry :| e in order && e.path == p;
    i :| 0 <= i < |order| && order[i] == e;
  }

  /** Oldest first: when a file is gone, every file modified before it is gone too, unless it is protected. */
  lemma OldestGoFirst(before: Files, after: Files, locked: set<string>, maxBytes: nat, keep: Option<string>, p: string,
                      older: string)
    requires IsEviction(before, after, locked, maxBytes, keep)
    requires p in before && p !in after && older in before && OlderFile(before[older], before[p])
    ensures older in after ==> Some(older) == keep || older in locked
  {
    var order: seq<Entry>, k: nat :| IsEvictionBy(before, after, locked, maxBytes, keep, order, k);
    var i := DeletedWasAttempted(before, after, locked, maxBytes, keep, order, k, p);
    var j := PositionOf(order, before, older);
    assert forall a, b :: 0 <= a < b < |order| ==> order[a].mtime <= order[b].mtime by {
      assert forall a, b :: 0 <= a < b < |order| ==> OlderOrEqual(order[a], order[b]);
    }
    assert order[..k][j] == order[j];
  }

  /** At the end the cap is met, or only protected files are left. */
  lemma EndsWithinCapOrExhausted(before: Files, after: Files, locked: set<string>, maxBytes: nat, keep: Option<string>)
    requires IsEviction(before, after, locked, maxBytes, keep)
    ensures Bytes(after) <= maxBytes || after == Unremovable(before, keep, locked)
  {
    var order: seq<Entry>, k: nat :| IsEvictionBy(before, after, locked, maxBytes, keep, order, k);
    if Bytes(after) > maxBytes {
      assert order[..k] == order;
      forall p | p in before ensures p in after <==> p in Unremovable(before, keep, locked) {
        var i := PositionOf(order, before, p);
        assert order[i] in order;
      }
      assert after.Keys == Unremovable(before, keep, locked).Keys;
    }
  }

  /** The cap is met exactly when the protected files alone fit under it. */
  lemma CapIsMetIff(before: Files, after: Files, locked: set<string>, maxBytes: nat, keep: Option<string>)
    requires IsEviction(before, after, locked, maxBytes, keep)
    ensures Bytes(after) <= maxBytes <==> Bytes(Unremovable(before, keep, locked)) <= maxBytes
  {
    EndsWithinCapOrExhausted(before, after, locked, maxBytes, keep);
    var stuck := Unremovable(before, keep, locked);
    forall p | p in stuck ensures p in after && after[p] == stuck[p] {
      ProtectedFilesSurvive(before, after, locked, maxBytes, keep, p);
    }
    TotalOfPart(stuck, after, SizeOf);
  }

  /** A kept file larger than the cap is enough for the cap to be missed, whatever the run does. */
  lemma KeptFileExceedsCap(path: string, file: File, maxBytes: nat)
    requires file.size > maxBytes
    ensures IsEviction(map[path := file], map[path := file], {}, maxBytes, Some(path))
    ensures forall after :: IsEviction(map[path := file], after, {}, maxBytes, Some(path)) ==> Bytes(after) > maxBytes
  {
    var files, order := map[path := file], [Entry(path, MtimeOrZero(file), file.size)];
    assert files - {path} == map[];
    BytesWithout(files, path);
    assert order[0] in order && Paths(order) == {path} == files.Keys;
    assert Removed(order, Some(path), {}) == {} && Removed([], Some(path), {}) == {};
    assert order[..1] == order && files - {} == files;
    assert IsEvictionBy(files, files, {}, maxBytes, Some(path), order, 1);
    forall after | IsEviction(files, after, {}, maxBytes, Some(path)) ensures Bytes(after) > maxBytes {
      CapIsMetIff(files, after, {}, maxBytes, Some(path));
      assert Unremovable(files, Some(path), {}) == files;
    }
  }

  /** The last removal among the first k attempts, if any. */
  lemma {:induction false} LastRemoval(before: Files, order: seq<Entry>, k: nat, keep: Option<string>,
                                       locked: set<string>)
    returns (j: nat)
    requires k <= |order| && Left(before, order, k, keep, locked) != before
    ensures j < k && Some(order[j].path) != keep && order[j].path !in locked
    ensures Left(before, order, j + 1, keep, locked) == Left(before, order, k, keep, locked)
  {
    NothingAttempted(before, order, keep, locked);
    j := k - 1;
    AttemptOne(before, order, j, keep, locked);
    if Some(order[j].path) == keep || order[j].path in locked {
      j := LastRemoval(before, order, j, keep, locked);
    }
  }

  /** p was deleted, and no deleted file was modified after it. */
  ghost predicate IsNewestDeleted(before: Files, after: Files, p: string) {
    && p in before && p !in after
    && forall d :: d in before && d !in after ==> !OlderFile(before[p], before[d])
  }

  /** No over-eviction: the newest of the deleted files was deleted while the total still exceeded the cap, so putting
      it back would exceed the cap again. */
  lemma NoMoreThanNeeded(before: Files, after: Files, locked: set<string>, maxBytes: nat, keep: Option<string>)
    requires IsEviction(before, after, locked, maxBytes, keep) && after != before
    ensures exists p :: IsNewestDeleted(before, after, p) && Bytes(after) + before[p].size > maxBytes
  {
    var order: seq<Entry>, k: nat :| IsEvictionBy(before, after, locked, maxBytes, keep, order, k);
    var j := LastRemoval(before, order, k, keep, locked);
    var p := order[j].path;
    AttemptOne(before, order, j, keep, locked);
    StillThere(before, order, j, keep, locked);
    BytesWithout(Left(before, order, j, keep, locked), p);
    assert order[j] == EntryAt(before, p);
    forall d | d in before && d !in after ensures !OlderFile(before[p], before[d]) {
      var i := RemovedBy(before, order, j + 1, keep, locked, d);
      assert i < j ==> OlderOrEqual(order[i], order[j]);
    }
    assert IsNewestDeleted(before, after, p);
  }

  lemma RemovedBy(before: Files, order: seq<Entry>, k: nat, keep: Option<string>, locked: set<string>, d: string)
    returns (i: nat)
    requires Lists(order, before, before.Keys) && k <= |order| && d in before
      && d !in Left(before, order, k, keep, locked)
    ensures i < k && order[i] == EntryAt(before, d)
  {
    var e: Entry :| e in order[..k] && e.path == d;
    i :| 0 <= i < k && order[..k][i] == e;
  }

  // ---- per-repo pruning ----

  lemma PrunedWasOld(before: Files, after: Files, locked: set<string>, maxEntries: nat, order: seq<Entry>, p: string)
    returns (i: nat)
    requires IsRepoPruneBy(before, after, locked, maxEntries, order) && p in before && p !in after
    ensures i + maxEntries < |order| && order[i] == EntryAt(before, p) && p !in locked && p in Datable(before)
  {
    var cut := if |order| <= maxEntries then 0 else |order| - maxEntries;
    var e: Entry :| e in order[..cut] && e.path == p && e.path !in locked;
    i :| 0 <= i < cut && order[..cut][i] == e;
    PathsHold(order, i);
  }

  /** Pruning a repository directory never deletes a datable file while keeping an older deletable one, and never
      touches a file it cannot date. */
  lemma PruneKeepsNewest(before: Files, after: Files, locked: set<string>, maxEntries: nat, gone: string, stays: string)
    requires IsRepoPrune(before, after, locked, maxEntries)
    requires gone in before && gone !in after && stays in before && stays in after && stays in Datable(before)
      && stays !in locked
    ensures before[gone].mtime.Some? && before[stays].mtime.Some?
    ensures before[gone].mtime.value <= before[stays].mtime.value
    ensures after[stays] == before[stays]
  {
    var order: seq<Entry> :| IsRepoPruneBy(before, after, locked, maxEntries, order);
    var i := PrunedWasOld(before, after, locked, maxEntries, order, gone);
    var j := SurvivorIsNew(before, after, locked, maxEntries, order, stays);
    assert OlderOrEqual(order[i], order[j]);
  }

  lemma SurvivorIsNew(before: Files, after: Files, locked: set<string>, maxEntries: nat, order: seq<Entry>, p: string)
    returns (j: nat)
    requires IsRepoPruneBy(before, after, locked, maxEntries, order) && p in Datable(before) && p in after
      && p !in locked
    ensures j < |order| <= j + maxEntries && order[j] == EntryAt(before, p)
  {
    var cut := if |order| <= maxEntries then 0 else |order| - maxEntries;
    assert p in Paths(order);
    var e: Entry :| e in order && e.path == p;
    assert e !in order[..cut];
    forall a | 0 <= a < cut ensures order[a] in order[..cut] {
      assert order[..cut][a] == order[a];
    }
    j :| 0 <= j < |order| && order[j] == e;
  }

  /** When every deletion succeeds, pruning leaves exactly maxEntries datable files, or all if there were fewer. */
  lemma PruneLeavesMaxEntries(before: Files, after: Files, maxEntries: nat)
    requires IsRepoPrune(before, after, {}, maxEntries)
    ensures |Datable(after)| == if |Datable(before)| <= maxEntries then |Datable(before)| else maxEntries
  {
    var order: seq<Entry> :| IsRepoPruneBy(before, after, {}, maxEntries, order);
    var cut := if |order| <= maxEntries then 0 else |order| - maxEntries;
    assert order == order[..cut] + order[cut..];
    PathCounts(order);
    DisjointPaths(order[..cut], order[cut..]);
    PathCounts(order[cut..]);
    DatableLeft(before, order[..cut], order[cut..]);
  }

  lemma DatableLeft(before: Files, gone: seq<Entry>, stay: seq<Entry>)
    requires Datable(before) == Paths(gone) + Paths(stay) && Paths(gone) !! Paths(stay)
    ensures Datable(before - Removed(gone, None, {})) == Paths(stay)
  {
    assert Removed(gone, None, {}) == Paths(gone);
    var after := before - Paths(gone);
    forall p ensures p in Datable(after) <==> p in Paths(stay) {
      assert p in Datable(after) <==> p in Datable(before) && p !in Paths(gone);
    }
  }

  lemma DisjointPaths(a: seq<Entry>, b: seq<Entry>)
    requires DistinctEntries(a + b)
    ensures DistinctEntries(a) && DistinctEntries(b) && Paths(a + b) == Paths(a) + Paths(b) && Paths(a) !! Paths(b)
  {
    var all := a + b;
    assert forall i :: 0 <= i < |a| ==> all[i] == a[i];
    assert forall i :: 0 <= i < |b| ==> all[|a| + i] == b[i];
    assert forall e :: e in all <==> e in a || e in b;
  }

  lemma {:induction false} PathCounts(entries: seq<Entry>)
    ensures DistinctEntries(entries) ==> |Paths(entries)| == |entries|
  {
    if entries != [] && DistinctEntries(entries) {
      var front, last := entries[..|entries| - 1], entries[|entries| - 1];
      assert entries == front + [last];
      PathsSnoc(front, last);
      PathCounts(front);
    }
  }
}
