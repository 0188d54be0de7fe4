/**
 * What survives a restart. Every write saves the written segment's whole
 * sub-map to that segment's cache file, and compaction saves each merged
 * sub-map next to its merge file; at start-up the index is rebuilt from the
 * cache files alone. A cache file can still hold an entry the in-memory index
 * has since dropped from that segment (putCacheMap removes an overwritten
 * key from its old sub-map without rewriting the old cache file), but only
 * when a higher segment holds the key, so the rebuilt index answers every
 * read as before.
 */
module Restart {
  import opened Wrappers
  import opened Ordering
  import opened Codec
  import opened Index
  import opened State
  import opened Compaction
  import opened Db

  /** A higher segment than `id` holds `key`. */
  ghost predicate Superseded(c: Cache, id: nat, key: Key) {
    exists j: nat :: id < j && Holds(c, j, key)
  }

  /** Each indexed entry is saved, with its record, in its segment's cache file. */
  ghost predicate Saved(c: Cache, snaps: Cache) {
    forall id: nat, k :: Holds(c, id, k) ==> Holds(snaps, id, k) && snaps[id][k] == c[id][k]
  }

  /** Each saved entry the index no longer holds under its id is held by a higher segment. */
  ghost predicate StaleSuperseded(c: Cache, snaps: Cache) {
    forall id: nat, k :: Holds(snaps, id, k) && !Holds(c, id, k) ==> Superseded(c, id, k)
  }

  /**
   * The cache files agree with the index: the two predicates above; saved
   * records lie inside their data files; cache files exist only for listed
   * ids; and once any data file exists, the active segment has a cache file.
   */
  ghost predicate Durable(s: Store) {
    && Consistent(s)
    && Saved(s.cache, s.snapshots)
    && StaleSuperseded(s.cache, s.snapshots)
    && RecordsFit(s.snapshots, s.data)
    && (forall id: nat :: id in s.snapshots ==> id in s.indexes)
    && (s.data != map[] ==> Active(s) in s.snapshots)
  }

  /** putCacheMap followed by saving the active sub-map keeps every indexed entry saved. */
  lemma PutKeepsSaved(c: Cache, snaps: Cache, active: nat, key: Key, rec: Record)
    requires Saved(c, snaps)
    ensures var r := Put(c, active, key, rec); Saved(r, snaps[active := r[active]])
  {
    var r := Put(c, active, key, rec);
    forall id: nat, k | Holds(r, id, k) && id != active
      ensures Holds(c, id, k) && r[id][k] == c[id][k]
    {
    }
  }

  /**
   * putCacheMap into an id no sub-map or cache file exceeds, followed by saving
   * the active sub-map, leaves only superseded entries stale.
   */
  lemma PutKeepsStaleSuperseded(c: Cache, snaps: Cache, active: nat, key: Key, rec: Record)
    requires StaleSuperseded(c, snaps)
    requires forall id: nat :: id in c ==> id <= active
    requires forall id: nat :: id in snaps ==> id <= active
    ensures var r := Put(c, active, key, rec); StaleSuperseded(r, snaps[active := r[active]])
  {
    var r := Put(c, active, key, rec);
    var snaps' := snaps[active := r[active]];
    forall id: nat, k | Holds(snaps', id, k) && !Holds(r, id, k)
      ensures Superseded(r, id, k)
    {
      assert id != active && Holds(snaps, id, k);
      if k == key {
        assert id < active && Holds(r, active, key);
      } else {
        assert !Holds(c, id, k);
        var j: nat :| id < j && Holds(c, j, k);
        assert Holds(r, j, k);
      }
    }
  }

  /** The empty store on first start is durable. */
  lemma FreshDurable()
    ensures Durable(Fresh)
  {
  }

  /** Under the invariant, the cache files alone answer every lookup as the index does. */
  lemma SnapshotsAnswerAlike(s: Store, key: Key)
    requires Durable(s)
    ensures Readable(s.snapshots, s.data, key)
    ensures Lookup(s.snapshots, s.data, key) == Lookup(s.cache, s.data, key)
  {
    FitImpliesReadable(s.snapshots, s.data, key);
    match Newest(s.cache, key)
    case None =>
      forall id: nat | id in s.snapshots
        ensures key !in s.snapshots[id]
      {
        assert !Superseded(s.cache, id, key);
      }
    case Some(h) =>
      assert Holds(s.snapshots, h, key);
      var h' := Newest(s.snapshots, key).value;
      assert !Superseded(s.cache, h', key);
      assert h' == h;
  }

  /**
   * Restart: rebuilding the store from its data and cache files gives a
   * durable store that answers every lookup as before.
   */
  lemma ReloadPreservesReads(s: Store, key: Key)
    requires Durable(s)
    ensures Durable(Init(s.data, s.snapshots))
    ensures Lookup(Init(s.data, s.snapshots).cache, s.data, key) == Lookup(s.cache, s.data, key)
  {
    var t := Init(s.data, s.snapshots);
    SnapshotsAnswerAlike(s, key);
    if s.data != map[] {
      assert Active(s) in t.indexes;
      forall id: nat | id in s.data
        ensures id <= Active(t)
      {
        assert id <= Active(s);
      }
    }
  }

  /** A write that went through keeps the cache files in step with the index. */
  lemma AppendKeepsDurable(s: Store, key: Key, bytes: seq<byte>, size: nat, limit: nat)
    requires Durable(s)
    requires size <= |bytes|
    ensures Durable(Append(s, key, bytes, size, limit).store)
    ensures Active(Append(s, key, bytes, size, limit).store) in Append(s, key, bytes, size, limit).store.snapshots
  {
    var r := Append(s, key, bytes, size, limit).store;
    var t := Target(s, limit);
    var before := if t in s.data then s.data[t] else [];
    var rec := Record(|before|, size);
    assert Consistent(r) by {
      AppendKeepsConsistent(s, key, bytes, size, limit);
    }
    assert && Active(r) == t && Extends(s.data, r.data)
           && r.cache == Put(s.cache, t, key, rec)
           && r.snapshots == s.snapshots[t := r.cache[t]] by {
      AppendOnlyExtendsTarget(s, key, bytes, size, limit);
    }
    assert Saved(r.cache, r.snapshots) by {
      PutKeepsSaved(s.cache, s.snapshots, t, key, rec);
    }
    assert StaleSuperseded(r.cache, r.snapshots) by {
      assert forall id: nat :: id in s.snapshots ==> id <= Active(s);
      PutKeepsStaleSuperseded(s.cache, s.snapshots, t, key, rec);
    }
    assert RecordsFit(r.snapshots, r.data) by {
      SaveKeepsFit(s.snapshots, s.data, r.cache, r.data, t);
    }
  }

  /** Saving a sub-map whose records fit, over files that only grew, keeps every saved record in bounds. */
  lemma SaveKeepsFit(snaps: Cache, d1: Files, c: Cache, d2: Files, t: nat)
    requires RecordsFit(snaps, d1) && Extends(d1, d2) && RecordsFit(c, d2) && t in c
    ensures RecordsFit(snaps[t := c[t]], d2)
  {
    var r := snaps[t := c[t]];
    forall id: nat, k | Holds(r, id, k)
      ensures id in d2 && Fits(r[id][k], d2[id])
    {
      if id != t {
        assert Holds(snaps, id, k);
      } else {
        assert Holds(c, id, k);
      }
    }
  }

  /** Retiring the `gone` ids from index and cache files alike, then installing merged sub-maps in both, keeps every indexed entry saved. */
  lemma InstallKeepsSaved(c: Cache, snaps: Cache, gone: set<nat>, merged: Cache)
    requires Saved(c, snaps)
    ensures Saved((c - gone) + merged, (snaps - gone) + merged)
  {
  }

  /**
   * When every cache file but the active one's is retired or replaced, and the
   * index lists nothing above the active id, no stale entry is left.
   */
  lemma InstallKeepsStaleSuperseded(c: Cache, snaps: Cache, gone: set<nat>, merged: Cache, active: nat)
    requires StaleSuperseded(c, snaps)
    requires forall id: nat :: id in c ==> id <= active
    requires forall id: nat :: id in snaps ==> id in gone || id == active
    requires active !in gone && active !in merged
    ensures StaleSuperseded((c - gone) + merged, (snaps - gone) + merged)
  {
    var c', snaps' := (c - gone) + merged, (snaps - gone) + merged;
    forall id: nat, k | Holds(snaps', id, k)
      ensures Holds(c', id, k)
    {
      if id !in merged {
        TopHasNoStale(c, snaps, active, k);
      }
    }
  }

  /** Nothing is stale in the cache file of an id no sub-map exceeds. */
  lemma TopHasNoStale(c: Cache, snaps: Cache, active: nat, k: Key)
    requires StaleSuperseded(c, snaps)
    requires forall id: nat :: id in c ==> id <= active
    ensures Holds(snaps, active, k) ==> Holds(c, active, k)
  {
    assert !Superseded(c, active, k);
  }

  /** Installing a merge keeps every indexed entry saved, only superseded entries stale, and saved records in bounds. */
  lemma InstallKeepsSaves(s: Store, m: Merge, limit: nat)
    requires Durable(s) && |s.indexes| >= 2
    requires MergeInv(m, limit) && |m.files| <= Active(s)
    ensures var t := Install(s, m);
            && Saved(t.cache, t.snapshots)
            && StaleSuperseded(t.cache, t.snapshots)
            && RecordsFit(t.snapshots, t.data)
  {
    var t := Install(s, m);
    var a := Active(s);
    var gone := set id | id in Mergeable(s);
    assert && t.cache == (s.cache - gone) + m.cache
           && t.data == (s.data - gone) + FileMap(m.files)
           && t.snapshots == (s.snapshots - gone) + m.cache
           && a !in gone by {
      InstallRetiresMergeable(s, m);
    }
    assert forall id: nat :: id in s.snapshots ==> id in gone || id == a by {
      MergeableIsAllButActive(s);
    }
    InstallKeepsSaved(s.cache, s.snapshots, gone, m.cache);
    InstallKeepsStaleSuperseded(s.cache, s.snapshots, gone, m.cache, a);
    MergeFitsReadable(m.cache, m.files, []);
    InstallKeepsFit(s.snapshots, s.data, gone, m.cache, FileMap(m.files), a);
  }

  /** Installing a merge below the active id keeps the cache files in step with the index. */
  lemma InstallKeepsDurable(s: Store, m: Merge, limit: nat)
    requires Durable(s) && |s.indexes| >= 2
    requires Active(s) in s.snapshots
    requires MergeInv(m, limit) && |m.files| <= Active(s)
    ensures Durable(Install(s, m))
  {
    var t := Install(s, m);
    var a := Active(s);
    InstallConsistent(s, m, limit);
    InstallKeepsSaves(s, m, limit);
    assert && t.indexes == Range(|m.files|) + [a]
           && (forall id :: id in t.snapshots ==> id in s.snapshots || id in m.cache)
           && a in t.snapshots by {
      InstallRetiresMergeable(s, m);
    }
    forall id: nat | id in t.snapshots
      ensures id in t.indexes
    {
      if id in m.cache {
        assert t.indexes[id] == id;
      }
    }
  }

  /** Compaction keeps the cache files in step with the index, whichever way it ends. */
  lemma CompactKeepsDurable(s: Store, limit: nat)
    requires Durable(s) && |s.indexes| >= 2
    requires Active(s) in s.snapshots
    ensures Durable(Compact(s, limit).store)
  {
    var m := CopyPhase(s, limit);
    if m.files != [] && |m.files| - 1 < Active(s) {
      InstallKeepsDurable(s, m, limit);
    }
  }

  /** write keeps the cache files in step with the index. */
  lemma WriteKeepsDurable(s: Store, key: Key, value: string, limit: nat)
    requires Durable(s)
    ensures Durable(Write(s, key, value, limit).store)
  {
    var bytes := EntryBytes(key, value);
    AppendKeepsDurable(s, key, bytes, |bytes|, limit);
    ConsistentAppendSucceeds(s, key, bytes, |bytes|, limit);
    var a := Append(s, key, bytes, |bytes|, limit);
    if a.rotated {
      CompactKeepsDurable(a.store, limit);
    }
  }
}
