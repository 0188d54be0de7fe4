/**
 * The store's public operations: write(key, value), read(key), and the
 * rebuild of the id list from the cache files at start-up.
 */
module Db {
  import opened Wrappers
  import opened Ordering
  import opened Codec
  import opened Index
  import opened State
  import opened Compaction

  /** The default rotation limit, FILE_MAX_LENGTH, in bytes. */
  const FileMaxLength: nat := 6

  /** The append part of a write: the state it leaves, the fault it raised, and whether it rotated. */
  datatype Appended = Appended(store: Store, fault: Option<Fault>, rotated: bool)

  /**
   * The append part of write, for an entry of the given bytes recorded with
   * the given size: make sure the active data file exists; if it is longer
   * than the limit, add id active + 1 to the list and create its (empty) data
   * file, raising if that file already exists; append the bytes to the
   * selected segment at its current length; index the key there; and save
   * that segment's sub-map to its cache file.
   */
  function Append(s: Store, key: Key, bytes: seq<byte>, size: nat, limit: nat): (r: Appended)
    requires |s.indexes| > 0
    ensures r.rotated <==> |CreateFile(s.data, Active(s))[Active(s)]| > limit
    ensures r.rotated ==> r.store.indexes == s.indexes + [Active(s) + 1]
    ensures !r.rotated ==> r.store.indexes == s.indexes && r.fault.None?
    ensures r.fault.Some? <==> r.rotated && Active(s) + 1 in s.data
    ensures r.fault.Some? ==> r.fault == Some(SegmentExists(Active(s) + 1))
  {
    var cur := Active(s);
    var data := CreateFile(s.data, cur);
    var rotated := |data[cur]| > limit;
    if rotated && cur + 1 in data then
      Appended(s.(indexes := s.indexes + [cur + 1], data := data), Some(SegmentExists(cur + 1)), true)
    else
      var target := if rotated then cur + 1 else cur;
      var files := if rotated then data[target := []] else data;
      var offset := |files[target]|;
      var cache := Put(s.cache, target, key, Record(offset, size));
      Appended(
        Store(if rotated then s.indexes + [target] else s.indexes,
              cache,
              files[target := files[target] + bytes],
              s.snapshots[target := cache[target]]),
        None,
        rotated)
  }

  /** The segment the append went to: the active id of the resulting list. */
  function Target(s: Store, limit: nat): (r: nat)
    requires |s.indexes| > 0
    ensures Active(s) <= r <= Active(s) + 1
    ensures r == Active(s) + 1 <==> Active(s) in s.data && |s.data[Active(s)]| > limit
  {
    if |CreateFile(s.data, Active(s))[Active(s)]| > limit then Active(s) + 1 else Active(s)
  }

  /**
   * Appending writes only the selected segment, at its old length: every
   * other data file is untouched, and the selected one keeps its old bytes
   * and gains exactly the entry's bytes.
   */
  lemma AppendOnlyExtendsTarget(s: Store, key: Key, bytes: seq<byte>, size: nat, limit: nat)
    requires |s.indexes| > 0
    requires Append(s, key, bytes, size, limit).fault.None?
    ensures var r, t := Append(s, key, bytes, size, limit).store, Target(s, limit);
            var before := if t in s.data then s.data[t] else [];
            && Active(r) == t
            && r.data.Keys == s.data.Keys + {t}
            && (forall id :: id in s.data && id != t ==> r.data[id] == s.data[id])
            && r.data[t] == before + bytes
            && Extends(s.data, r.data)
            && r.cache == Put(s.cache, t, key, Record(|before|, size))
            && Holds(r.cache, t, key) && r.cache[t][key] == Record(|before|, size)
            && r.snapshots == s.snapshots[t := r.cache[t]]
  {
  }

  /** An id list that is ascending and has no data file beyond its last id never meets an existing file when it rotates. */
  lemma ConsistentAppendSucceeds(s: Store, key: Key, bytes: seq<byte>, size: nat, limit: nat)
    requires Consistent(s)
    ensures Append(s, key, bytes, size, limit).fault.None?
  {
  }

  /** Appending keeps the store consistent, provided the recorded size does not exceed the bytes appended. */
  lemma AppendKeepsConsistent(s: Store, key: Key, bytes: seq<byte>, size: nat, limit: nat)
    requires Consistent(s)
    requires size <= |bytes|
    ensures Consistent(Append(s, key, bytes, size, limit).store)
  {
    var r := Append(s, key, bytes, size, limit).store;
    var t := Target(s, limit);
    AppendOnlyExtendsTarget(s, key, bytes, size, limit);
    var before := if t in s.data then s.data[t] else [];
    PutKeepsRecordsFit(s.cache, s.data, r.data, t, key, Record(|before|, size));
    assert StrictlyAscending(r.indexes);
  }

  /** The bytes just past the old ones are the appended ones. */
  lemma AppendedSlice(before: seq<byte>, bytes: seq<byte>, size: nat)
    requires size <= |bytes|
    ensures (before + bytes)[|before|..|before| + size] == bytes[..size]
  {
  }

  /** After appending, a lookup of the key returns the first `size` bytes of what was appended. */
  lemma AppendFindsEntry(s: Store, key: Key, bytes: seq<byte>, size: nat, limit: nat)
    requires Consistent(s)
    requires size <= |bytes|
    ensures var r := Append(s, key, bytes, size, limit).store;
            Readable(r.cache, r.data, key) && Lookup(r.cache, r.data, key) == Some(bytes[..size])
  {
    var r := Append(s, key, bytes, size, limit).store;
    var t := Target(s, limit);
    var before := if t in s.data then s.data[t] else [];
    var rec := Record(|before|, size);
    assert r.cache == Put(s.cache, t, key, rec) && t in r.data && Fits(rec, r.data[t])
        && Slice(r.data[t], rec) == bytes[..size] by {
      AppendOnlyExtendsTarget(s, key, bytes, size, limit);
      AppendedSlice(before, bytes, size);
    }
    assert forall id: nat :: id in s.cache ==> id <= t by {
      AppendOnlyExtendsTarget(s, key, bytes, size, limit);
    }
    PutFindsEntry(s.cache, r.data, t, key, rec);
  }

  /** After appending, a lookup of any other key returns what it did before. */
  lemma AppendKeepsOtherKeys(s: Store, key: Key, bytes: seq<byte>, size: nat, limit: nat, k: Key)
    requires Consistent(s)
    requires size <= |bytes|
    requires k != key
    ensures Consistent(Append(s, key, bytes, size, limit).store)
    ensures var r := Append(s, key, bytes, size, limit).store;
            Readable(r.cache, r.data, k) && Lookup(r.cache, r.data, k) == Lookup(s.cache, s.data, k)
  {
    var r := Append(s, key, bytes, size, limit).store;
    var t := Target(s, limit);
    AppendKeepsConsistent(s, key, bytes, size, limit);
    AppendOnlyExtendsTarget(s, key, bytes, size, limit);
    var before := if t in s.data then s.data[t] else [];
    PutKeepsOtherLookups(s.cache, s.data, r.data, t, key, Record(|before|, size), k);
  }

  /** The bytes write appends for a key and value: the UTF-8 form of `key:value;`. */
  function EntryBytes(key: Key, value: string): seq<byte> {
    Utf8(EntryText(key, value))
  }

  /**
   * The body of write for an entry of the given bytes recorded with the given
   * size: append, then run compaction when the append rotated to a new segment.
   */
  function AppendThenCompact(s: Store, key: Key, bytes: seq<byte>, size: nat, limit: nat): (r: Outcome)
    requires WellFormed(s)
    requires size <= |bytes|
    ensures r.fault.Some? ==> r.fault.value.SegmentExists? || r.fault.value.MergeCollision?
    ensures r.fault == Some(SegmentExists(Active(s) + 1)) <==> Target(s, limit) == Active(s) + 1 && Active(s) + 1 in s.data
  {
    var a := Append(s, key, bytes, size, limit);
    if a.fault.Some? || !a.rotated then Outcome(a.store, a.fault)
    else
      assert WellFormed(a.store) by {
        AppendKeepsWellFormed(s, key, bytes, size, limit);
      }
      Compact(a.store, limit)
  }

  /** write: the entry's UTF-8 bytes, recorded with their byte count as the size. */
  function Write(s: Store, key: Key, value: string, limit: nat): (r: Outcome)
    requires WellFormed(s)
    ensures r.fault.Some? ==> r.fault.value.SegmentExists? || r.fault.value.MergeCollision?
    ensures r.fault == Some(SegmentExists(Active(s) + 1)) <==> Target(s, limit) == Active(s) + 1 && Active(s) + 1 in s.data
  {
    AppendThenCompact(s, key, EntryBytes(key, value), |EntryBytes(key, value)|, limit)
  }

  /** Appending keeps records in bounds and the list ascending. */
  lemma AppendKeepsWellFormed(s: Store, key: Key, bytes: seq<byte>, size: nat, limit: nat)
    requires WellFormed(s)
    requires size <= |bytes|
    ensures WellFormed(Append(s, key, bytes, size, limit).store)
  {
    var a := Append(s, key, bytes, size, limit);
    var r := a.store;
    if a.fault.None? {
      var t := Target(s, limit);
      AppendOnlyExtendsTarget(s, key, bytes, size, limit);
      var before := if t in s.data then s.data[t] else [];
      PutKeepsRecordsFit(s.cache, s.data, r.data, t, key, Record(|before|, size));
    }
    assert StrictlyAscending(r.indexes);
  }

  /**
   * After the append and any compaction it triggers, the key reads the first
   * `size` bytes appended and every other key reads as before.
   */
  lemma AppendThenCompactLookup(s: Store, key: Key, bytes: seq<byte>, size: nat, limit: nat, k: Key)
    requires Consistent(s)
    requires size <= |bytes|
    ensures Consistent(AppendThenCompact(s, key, bytes, size, limit).store)
    ensures var r := AppendThenCompact(s, key, bytes, size, limit).store;
            && Readable(r.cache, r.data, k)
            && Lookup(r.cache, r.data, k) == if k == key then Some(bytes[..size]) else Lookup(s.cache, s.data, k)
  {
    var a := Append(s, key, bytes, size, limit).store;
    var r := AppendThenCompact(s, key, bytes, size, limit).store;
    var expected := if k == key then Some(bytes[..size]) else Lookup(s.cache, s.data, k);
    assert Consistent(a) && Readable(a.cache, a.data, k) && Lookup(a.cache, a.data, k) == expected by {
      AppendKeepsConsistent(s, key, bytes, size, limit);
      if k == key {
        AppendFindsEntry(s, key, bytes, size, limit);
      } else {
        AppendKeepsOtherKeys(s, key, bytes, size, limit, k);
      }
    }
    if r != a {
      CompactPreservesLookup(a, limit, k);
    }
    FitImpliesReadable(r.cache, r.data, k);
  }

  /**
   * Round trip: straight after write(key, value), reading the key returns
   * the whole entry `key:value;` as UTF-8, whether or not the write rotated
   * and compacted; every other key reads as before; and the store stays
   * consistent.
   */
  lemma WriteThenRead(s: Store, key: Key, value: string, limit: nat, k: Key)
    requires Consistent(s)
    ensures Consistent(Write(s, key, value, limit).store)
    ensures var r := Write(s, key, value, limit).store;
            && Readable(r.cache, r.data, k)
            && Lookup(r.cache, r.data, k) == if k == key then Some(EntryBytes(key, value)) else Lookup(s.cache, s.data, k)
  {
    var bytes := EntryBytes(key, value);
    AppendThenCompactLookup(s, key, bytes, |bytes|, limit, k);
    assert bytes[..|bytes|] == bytes;
  }

  /**
   * The first id of the descending walk whose sub-map holds the key is the
   * highest such id.
   */
  lemma ReadStopsAtNewest(c: Cache, key: Key, ids: seq<nat>, i: nat)
    requires StrictlyAscending(ids) && forall id :: id in ids <==> id in c
    requires i < |ids| && Holds(c, ids[i], key)
    requires forall j :: i < j < |ids| ==> !Holds(c, ids[j], key)
    ensures Newest(c, key) == Some(ids[i])
  {
    var n := Newest(c, key).value;
    var j :| 0 <= j < |ids| && ids[j] == n;
    assert n <= ids[i] by {
      if j > i {
        assert !Holds(c, ids[j], key);
      }
    }
  }

  /** A walk that passed every id without a hit means no sub-map holds the key. */
  lemma ReadFindsNothing(c: Cache, key: Key, ids: seq<nat>)
    requires forall id :: id in ids <==> id in c
    requires forall j :: 0 <= j < |ids| ==> !Holds(c, ids[j], key)
    ensures Newest(c, key) == None
  {
    forall id: nat | id in c
      ensures key !in c[id]
    {
      var j :| 0 <= j < |ids| && ids[j] == id;
    }
  }

  /**
   * The walk read does over the index: visit the ids in descending order and
   * stop at the first whose sub-map holds the key.
   */
  method FindNewest(c: Cache, key: Key) returns (r: Option<nat>)
    ensures r == Newest(c, key)
  {
    var ids := SortedIds(c.Keys);
    var i := |ids|;
    while i > 0
      invariant 0 <= i <= |ids|
      invariant forall j :: i <= j < |ids| ==> !Holds(c, ids[j], key)
    {
      i := i - 1;
      if key in c[ids[i]] {
        ReadStopsAtNewest(c, key, ids, i);
        return Some(ids[i]);
      }
    }
    ReadFindsNothing(c, key, ids);
    return None;
  }

  /**
   * read: find the newest sub-map holding the key and return the exact byte
   * range its record brackets, or None when no sub-map holds the key.
   */
  method Read(s: Store, key: Key) returns (r: Option<seq<byte>>)
    requires Readable(s.cache, s.data, key)
    ensures r == Lookup(s.cache, s.data, key)
  {
    var found := FindNewest(s.cache, key);
    match found
    case None =>
      return None;
    case Some(id) =>
      var rec := s.cache[id][key];
      return Some(s.data[id][rec.offset..rec.offset + rec.size]);
  }

  /**
   * initCacheAndIndex: load every cache file into the index and list their
   * ids in ascending order, or the single id 0 when there are none.
   */
  function Init(data: Files, snapshots: map<nat, SubMap>): (s: Store)
    ensures s.cache == snapshots && s.snapshots == snapshots && s.data == data
    ensures |s.indexes| > 0 && StrictlyAscending(s.indexes)
    ensures snapshots == map[] ==> s.indexes == [0]
    ensures snapshots != map[] ==> forall id :: id in s.indexes <==> id in snapshots
  {
    Store(if snapshots == map[] then [0] else SortedIds(snapshots.Keys), snapshots, data, snapshots)
  }
}
