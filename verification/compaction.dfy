/**
 * Compaction (`task`): every segment except the active one is copied, entry
 * by entry, into fresh merge files numbered from 0; the merged index is built
 * alongside; then the old ids are retired and the merge files installed under
 * the ids 0, 1, ... in front of the active id.
 */
module Compaction {
  import opened Wrappers
  import opened Ordering
  import opened Codec
  import opened Index
  import opened State

  /** One entry the copy loop visits: its key and the bytes its record brackets. */
  datatype Item = Item(key: Key, bytes: seq<byte>)

  /**
   * The copy loop's state: the merge files written so far (the last one is
   * open), the merged index, and the running write offset in the open file.
   * No files means no merge file was started yet.
   */
  datatype Merge = Merge(files: seq<Segment>, cache: Cache, offset: nat)

  const NoMerge := Merge([], map[], 0)

  /** Merge files keyed by their merge index. */
  function FileMap(files: seq<Segment>): (r: Files)
    ensures forall id: nat :: id in r <==> id < |files|
    ensures forall id: nat :: id < |files| ==> r[id] == files[id]
  {
    map id: nat | id < |files| :: files[id]
  }

  /** All files' bytes back to back. */
  function Flatten(files: seq<Segment>): seq<byte> {
    if files == [] then [] else files[0] + Flatten(files[1..])
  }

  lemma {:induction false} FlattenAppend(a: seq<Segment>, b: seq<Segment>)
    ensures Flatten(a + b) == Flatten(a) + Flatten(b)
    decreases |a|
  {
    if a == [] {
      assert a + b == b;
    } else {
      assert (a + b)[1..] == a[1..] + b;
      FlattenAppend(a[1..], b);
    }
  }

  /**
   * Concatenation regroups. Stated on its own so that the byte-accounting
   * proofs below get it without re-proving it in their larger contexts.
   */
  lemma Associative<T>(a: seq<T>, b: seq<T>, c: seq<T>)
    ensures a + b + c == a + (b + c)
  {
  }

  /** All items' bytes back to back. */
  function AllBytes(items: seq<Item>): seq<byte> {
    if items == [] then [] else items[0].bytes + AllBytes(items[1..])
  }

  /** The bytes of the last item carrying `key`, if any. */
  function LastBytes(items: seq<Item>, key: Key): (r: Option<seq<byte>>)
    ensures r.None? <==> forall i :: 0 <= i < |items| ==> items[i].key != key
  {
    if items == [] then None
    else
      var later := LastBytes(items[1..], key);
      if later.Some? then later
      else if items[0].key == key then Some(items[0].bytes)
      else None
  }

  /** Every record of the merged index lies inside its merge file. */
  ghost predicate MergeFits(c: Cache, files: seq<Segment>) {
    forall id: nat, k :: Holds(c, id, k) ==> id < |files| && Fits(c[id][k], files[id])
  }

  /**
   * What the copy loop keeps true: the merged index only names opened files
   * and stays inside them, the running offset is the open file's length,
   * every closed file exceeds the limit and the open one does not.
   */
  ghost predicate MergeInv(m: Merge, limit: nat) {
    && (forall id: nat :: id in m.cache ==> id < |m.files|)
    && MergeFits(m.cache, m.files)
    && (m.files == [] ==> m.offset == 0 && m.cache == map[])
    && (m.files != [] ==> m.offset == |m.files[|m.files| - 1]|)
    && (forall i :: 0 <= i < |m.files| - 1 ==> |m.files[i]| > limit)
    && (m.files != [] ==> |m.files[|m.files| - 1]| <= limit)
  }

  lemma MergeFitsReadable(c: Cache, files: seq<Segment>, key: Key)
    requires MergeFits(c, files)
    ensures RecordsFit(c, FileMap(files))
    ensures Readable(c, FileMap(files), key)
  {
  }

  /** What a lookup in the merged index would return. */
  function MergeLookup(m: Merge, key: Key): Option<seq<byte>>
    requires MergeFits(m.cache, m.files)
  {
    MergeFitsReadable(m.cache, m.files, key);
    Lookup(m.cache, FileMap(m.files), key)
  }

  /** The merge index the next entry is written to. */
  function OpenAt(files: seq<Segment>): nat {
    if files == [] then 0 else |files| - 1
  }

  /** The contents of the open merge file; none yet counts as empty. */
  function OpenFile(files: seq<Segment>): Segment {
    if files == [] then [] else files[|files| - 1]
  }

  function OpenIndex(m: Merge): nat {
    OpenAt(m.files)
  }

  /**
   * The merge files after appending `bytes` to the open one (opening merge
   * file 0 first when none is open), followed by a fresh empty file when the
   * open one has grown past the limit.
   */
  function AppendOpen(files: seq<Segment>, bytes: seq<byte>, limit: nat): (r: seq<Segment>)
    ensures var mi := OpenAt(files);
            var grown := OpenFile(files) + bytes;
            && |r| == (if |grown| > limit then mi + 2 else mi + 1)
            && (forall i :: 0 <= i < mi ==> r[i] == files[i])
            && r[mi] == grown
            && (|grown| > limit ==> r[mi + 1] == [])
  {
    var started := if files == [] then [[]] else files;
    var mi := |started| - 1;
    var cur := started[mi] + bytes;
    if |cur| > limit then started[mi := cur] + [[]] else started[mi := cur]
  }

  /** A file added at the end adds its bytes at the end. */
  lemma FlattenSnoc(files: seq<Segment>, x: Segment)
    ensures Flatten(files + [x]) == Flatten(files) + x
  {
    FlattenAppend(files, [x]);
    assert Flatten([x]) == x + Flatten([]);
  }

  /** Appending to the open merge file adds exactly the bytes, after all earlier ones. */
  lemma AppendOpenFlatten(files: seq<Segment>, bytes: seq<byte>, limit: nat)
    ensures Flatten(AppendOpen(files, bytes, limit)) == Flatten(files) + bytes
  {
    var started := if files == [] then [[]] else files;
    var mi := |started| - 1;
    var cur := started[mi] + bytes;
    var front := started[..mi];
    assert Flatten(started) == Flatten(files) by {
      if files == [] {
        assert Flatten(started) == [] + Flatten([]);
      }
    }
    assert started == front + [started[mi]];
    assert started[mi := cur] == front + [cur];
    FlattenSnoc(front, started[mi]);
    FlattenSnoc(front, cur);
    Associative(Flatten(front), started[mi], bytes);
    if |cur| > limit {
      FlattenSnoc(started[mi := cur], []);
    }
  }

  /**
   * One turn of the copy loop: open merge file 0 if none is open, append the
   * entry's bytes, record it at the running offset under the open merge
   * index, advance the offset, and when the open file has grown past the
   * limit reset the offset to 0 and open the next merge file.
   */
  function CopyEntry(m: Merge, it: Item, limit: nat): (r: Merge)
    requires MergeInv(m, limit)
    ensures MergeInv(r, limit)
    ensures r.files == AppendOpen(m.files, it.bytes, limit)
  {
    var mi := OpenIndex(m);
    var files := AppendOpen(m.files, it.bytes, limit);
    var sub := if mi in m.cache then m.cache[mi] else map[];
    var cache := m.cache[mi := sub[it.key := Record(m.offset, |it.bytes|)]];
    var grown := m.offset + |it.bytes|;
    var r := Merge(files, cache, if grown > limit then 0 else grown);
    assert MergeFits(r.cache, r.files) by {
      forall id: nat, k | Holds(r.cache, id, k)
        ensures id < |r.files| && Fits(r.cache[id][k], r.files[id])
      {
        if id != mi || k != it.key {
          assert Holds(m.cache, id, k);
          assert id < |m.files|;
        }
      }
    }
    r
  }

  /**
   * One turn records the entry at the running offset of the open merge file,
   * where its bytes now lie, and rotates exactly when that file has grown
   * past the limit.
   */
  lemma CopyEntryRecords(m: Merge, it: Item, limit: nat)
    requires MergeInv(m, limit)
    ensures var r := CopyEntry(m, it, limit);
            && Holds(r.cache, OpenIndex(m), it.key)
            && r.cache[OpenIndex(m)][it.key] == Record(m.offset, |it.bytes|)
            && OpenIndex(m) < |r.files|
            && Fits(r.cache[OpenIndex(m)][it.key], r.files[OpenIndex(m)])
            && Slice(r.files[OpenIndex(m)], r.cache[OpenIndex(m)][it.key]) == it.bytes
            && (forall id: nat, k :: Holds(r.cache, id, k) && (id != OpenIndex(m) || k != it.key) ==>
                  Holds(m.cache, id, k) && r.cache[id][k] == m.cache[id][k])
            && (forall id: nat, k :: Holds(m.cache, id, k) && k != it.key ==> Holds(r.cache, id, k))
            && var grown := m.offset + |it.bytes|;
               if grown > limit then |r.files| == OpenIndex(m) + 2 && r.offset == 0
               else |r.files| == OpenIndex(m) + 1 && r.offset == grown
  {
  }

  lemma CopyEntryFindsEntry(m: Merge, it: Item, limit: nat)
    requires MergeInv(m, limit)
    ensures MergeLookup(CopyEntry(m, it, limit), it.key) == Some(it.bytes)
  {
    var r := CopyEntry(m, it, limit);
    var mi := OpenIndex(m);
    CopyEntryRecords(m, it, limit);
    forall id: nat | Holds(r.cache, id, it.key)
      ensures id <= mi
    {
      if id != mi {
        assert id in m.cache;
      }
    }
    assert Newest(r.cache, it.key) == Some(mi);
    assert FileMap(r.files)[mi] == r.files[mi];
  }

  lemma CopyEntryKeepsOthers(m: Merge, it: Item, limit: nat, key: Key)
    requires MergeInv(m, limit)
    requires key != it.key
    ensures MergeLookup(CopyEntry(m, it, limit), key) == MergeLookup(m, key)
  {
    var r := CopyEntry(m, it, limit);
    var mi := OpenIndex(m);
    CopyEntryRecords(m, it, limit);
    MergeFitsReadable(m.cache, m.files, key);
    forall id: nat | Holds(m.cache, id, key)
      ensures id in FileMap(r.files) && FileMap(m.files)[id] <= FileMap(r.files)[id]
    {
      assert id < |m.files|;
      if id < mi {
        assert r.files[id] == m.files[id];
      } else {
        assert r.files[id] == m.files[id] + it.bytes;
      }
    }
    forall id: nat
      ensures Holds(m.cache, id, key) <==> Holds(r.cache, id, key)
    {
    }
    LookupAgrees(m.cache, FileMap(m.files), r.cache, FileMap(r.files), key);
  }

  /**
   * After one turn, the merged index finds the entry's own bytes under its
   * key and answers every other key as before.
   */
  lemma CopyEntryLookup(m: Merge, it: Item, limit: nat, key: Key)
    requires MergeInv(m, limit)
    ensures MergeLookup(CopyEntry(m, it, limit), key) ==
            if key == it.key then Some(it.bytes) else MergeLookup(m, key)
  {
    if key == it.key {
      CopyEntryFindsEntry(m, it, limit);
    } else {
      CopyEntryKeepsOthers(m, it, limit, key);
    }
  }

  /** The whole copy loop over the visited entries, in order. */
  function Copy(m: Merge, items: seq<Item>, limit: nat): (r: Merge)
    requires MergeInv(m, limit)
    ensures MergeInv(r, limit)
    ensures r.files == [] <==> m.files == [] && items == []
    ensures m.files != [] ==> |r.files| >= |m.files|
    decreases |items|
  {
    if items == [] then m else Copy(CopyEntry(m, items[0], limit), items[1..], limit)
  }

  /** One turn of the copy loop adds exactly the entry's bytes after all earlier ones. */
  lemma CopyEntryFlatten(m: Merge, it: Item, limit: nat)
    requires MergeInv(m, limit)
    ensures Flatten(CopyEntry(m, it, limit).files) == Flatten(m.files) + it.bytes
  {
    AppendOpenFlatten(m.files, it.bytes, limit);
  }

  /** The merge files hold exactly the visited entries' bytes, in visiting order. */
  lemma {:induction false} CopyWritesAllBytes(m: Merge, items: seq<Item>, limit: nat)
    requires MergeInv(m, limit)
    ensures Flatten(Copy(m, items, limit).files) == Flatten(m.files) + AllBytes(items)
    decreases |items|
  {
    if items != [] {
      var m' := CopyEntry(m, items[0], limit);
      CopyEntryFlatten(m, items[0], limit);
      CopyWritesAllBytes(m', items[1..], limit);
      Associative(Flatten(m.files), items[0].bytes, AllBytes(items[1..]));
    }
  }

  /**
   * After the copy loop, a lookup in the merged index returns the bytes of
   * the last visited entry with that key: later segments win.
   */
  lemma {:induction false} CopyLookup(m: Merge, items: seq<Item>, limit: nat, key: Key)
    requires MergeInv(m, limit)
    ensures MergeLookup(Copy(m, items, limit), key) ==
            if LastBytes(items, key).Some? then LastBytes(items, key) else MergeLookup(m, key)
    decreases |items|
  {
    if items != [] {
      var m' := CopyEntry(m, items[0], limit);
      AppendOpenFlatten(m.files, items[0].bytes, limit);
      CopyLookup(m', items[1..], limit, key);
      CopyEntryLookup(m, items[0], limit, key);
    }
  }

  lemma {:induction false} LastBytesConcat(a: seq<Item>, b: seq<Item>, key: Key)
    ensures LastBytes(a + b, key) == if LastBytes(b, key).Some? then LastBytes(b, key) else LastBytes(a, key)
    decreases |a|
  {
    if a == [] {
      assert a + b == b;
    } else {
      assert (a + b)[1..] == a[1..] + b;
      LastBytesConcat(a[1..], b, key);
    }
  }

  /** The entries of one sub-map, in the given key order, with the bytes each record brackets. */
  function EntryItems(file: Segment, sub: SubMap, keys: seq<Key>): (r: seq<Item>)
    requires forall k :: k in keys ==> k in sub && Fits(sub[k], file)
    ensures |r| == |keys|
    ensures forall i :: 0 <= i < |r| ==> r[i] == Item(keys[i], Slice(file, sub[keys[i]]))
  {
    if keys == [] then []
    else [Item(keys[0], Slice(file, sub[keys[0]]))] + EntryItems(file, sub, keys[1..])
  }

  lemma {:induction false} EntryItemsLast(file: Segment, sub: SubMap, keys: seq<Key>, key: Key)
    requires forall k :: k in keys ==> k in sub && Fits(sub[k], file)
    ensures LastBytes(EntryItems(file, sub, keys), key) ==
            if key in keys then Some(Slice(file, sub[key])) else None
    decreases |keys|
  {
    if keys != [] {
      EntryItemsLast(file, sub, keys[1..], key);
      assert EntryItems(file, sub, keys)[1..] == EntryItems(file, sub, keys[1..]);
      assert key in keys <==> key == keys[0] || key in keys[1..];
    }
  }

  /**
   * The entries the copy loop visits in one segment: none when the id has no
   * sub-map, an empty one, or no data file; otherwise every key of its
   * sub-map, in ascending key order.
   */
  function SegmentItems(s: Store, id: nat): seq<Item>
    requires RecordsFit(s.cache, s.data)
  {
    if id in s.cache && |s.cache[id]| > 0 && id in s.data then
      EntryItems(s.data[id], s.cache[id], SortedKeys(s.cache[id].Keys))
    else []
  }

  /** The entries the copy loop visits across the given ids, in list order. */
  function VisitItems(s: Store, ids: seq<nat>): seq<Item>
    requires RecordsFit(s.cache, s.data)
  {
    if ids == [] then [] else SegmentItems(s, ids[0]) + VisitItems(s, ids[1..])
  }

  /**
   * A segment is skipped, contributing nothing, exactly when it has no
   * sub-map, an empty one, or no data file. Otherwise it contributes one
   * item per key of its sub-map, each with the bytes its record brackets.
   */
  lemma SegmentItemsSkips(s: Store, id: nat)
    requires RecordsFit(s.cache, s.data)
    ensures var r := SegmentItems(s, id);
            && (r == [] <==> id !in s.cache || |s.cache[id]| == 0 || id !in s.data)
            && (id in s.cache && id in s.data ==> |r| == |s.cache[id]|)
            && forall i :: 0 <= i < |r| ==>
                 && id in s.cache && id in s.data && r[i].key in s.cache[id]
                 && r[i].bytes == Slice(s.data[id], s.cache[id][r[i].key])
  {
    var r := SegmentItems(s, id);
    if id in s.cache && id in s.data {
      var keys := SortedKeys(s.cache[id].Keys);
      assert |s.cache[id].Keys| == |s.cache[id]|;
      if r != [] {
        forall i | 0 <= i < |r|
          ensures r[i].key in s.cache[id]
        {
          assert r[i].key == keys[i];
        }
      }
    }
  }

  /** The copy loop visits nothing exactly when it skips every given segment. */
  lemma {:induction false} VisitItemsEmpty(s: Store, ids: seq<nat>)
    requires RecordsFit(s.cache, s.data)
    ensures VisitItems(s, ids) == [] <==> forall i :: 0 <= i < |ids| ==> SegmentItems(s, ids[i]) == []
    decreases |ids|
  {
    if ids != [] {
      VisitItemsEmpty(s, ids[1..]);
      assert forall i :: 1 <= i < |ids| ==> ids[i] == ids[1..][i - 1];
    }
  }

  /** The index cut down to the given ids. */
  function Restrict(c: Cache, ids: seq<nat>): (r: Cache)
    ensures forall id: nat :: id in r <==> id in c && id in ids
    ensures forall id: nat :: id in r ==> r[id] == c[id]
  {
    map id: nat | id in c && id in ids :: c[id]
  }

  /**
   * Visiting ascending ids, the last entry seen for a key comes from the
   * highest visited id holding it: exactly what a lookup restricted to those
   * ids finds.
   */
  lemma {:induction false} VisitFindsNewest(s: Store, ids: seq<nat>, key: Key)
    requires RecordsFit(s.cache, s.data)
    requires StrictlyAscending(ids)
    ensures RecordsFit(Restrict(s.cache, ids), s.data)
    ensures LastBytes(VisitItems(s, ids), key) == Lookup(Restrict(s.cache, ids), s.data, key)
    decreases |ids|
  {
    var c := Restrict(s.cache, ids);
    if ids != [] {
      var x := ids[0];
      var t := ids[1..];
      var ct := Restrict(s.cache, t);
      VisitFindsNewest(s, t, key);
      LastBytesConcat(SegmentItems(s, x), VisitItems(s, t), key);
      match Newest(ct, key)
      case Some(h) =>
        assert h in t;
        assert x < h;
        assert Holds(c, h, key);
        var h' := Newest(c, key).value;
        assert h' == h by {
          if h' != h {
            assert h' in t;
            assert Holds(ct, h', key);
          }
        }
      case None =>
        if Holds(s.cache, x, key) {
          var keys := SortedKeys(s.cache[x].Keys);
          EntryItemsLast(s.data[x], s.cache[x], keys, key);
          assert Newest(c, key) == Some(x) by {
            forall id: nat | Holds(c, id, key)
              ensures id == x
            {
            }
          }
        } else {
          if SegmentItems(s, x) != [] {
            EntryItemsLast(s.data[x], s.cache[x], SortedKeys(s.cache[x].Keys), key);
          }
          forall id: nat | id in c
            ensures key !in c[id]
          {
            if id != x {
              assert id in t;
              assert id in ct;
            }
          }
        }
    }
  }

  /**
   * The front of the id list up to and including the first occurrence of
   * `x`, or the whole list when `x` does not occur: the ids the retirement
   * loop removes when `x` is the last id to merge.
   */
  function Through(ids: seq<nat>, x: nat): (r: seq<nat>)
    ensures |r| <= |ids| && r == ids[..|r|]
    ensures x in ids ==> |r| > 0 && r[|r| - 1] == x && x !in r[..|r| - 1]
    ensures x !in ids ==> r == ids
  {
    if ids == [] then []
    else if ids[0] == x then [x]
    else [ids[0]] + Through(ids[1..], x)
  }

  /** With ascending ids, retiring through the next-to-last id retires every id but the active one. */
  lemma ThroughNextToLast(ids: seq<nat>)
    requires StrictlyAscending(ids) && |ids| >= 2
    ensures Through(ids, ids[|ids| - 2]) == ids[..|ids| - 1]
  {
    var x := ids[|ids| - 2];
    var r := Through(ids, x);
    assert ids[|r| - 1] == x;
  }

  /** The merge indexes 0, 1, ..., n - 1. */
  function Range(n: nat): (r: seq<nat>)
    ensures |r| == n
    ensures forall i :: 0 <= i < n ==> r[i] == i
  {
    if n == 0 then [] else Range(n - 1) + [n - 1]
  }

  /** The ids the copy loop visits: every listed id but the active one, in list order. */
  function Mergeable(s: Store): seq<nat>
    requires |s.indexes| >= 1
  {
    s.indexes[..|s.indexes| - 1]
  }

  /** Every listed id but the active one is mergeable, and the active one is not. */
  lemma MergeableIsAllButActive(s: Store)
    requires StrictlyAscending(s.indexes) && |s.indexes| >= 1
    ensures forall id :: id in Mergeable(s) <==> id in s.indexes && id != Active(s)
  {
    forall id | id in s.indexes && id != Active(s)
      ensures id in Mergeable(s)
    {
      var i :| 0 <= i < |s.indexes| && s.indexes[i] == id;
      assert i < |s.indexes| - 1;
    }
  }

  /** The merge files and merged index the copy loop produces. */
  function CopyPhase(s: Store, limit: nat): (m: Merge)
    requires WellFormed(s)
    ensures MergeInv(m, limit)
    ensures m.files == [] <==> VisitItems(s, Mergeable(s)) == []
  {
    Copy(NoMerge, VisitItems(s, Mergeable(s)), limit)
  }

  /**
   * Retirement and installation: remove the ids up to and including the
   * next-to-last one (their data files, cache files and sub-maps), then
   * install merge file i as segment i with its merged sub-map and cache
   * file, putting the ids 0..mergeIndex in front of what remains of the list.
   */
  function Install(s: Store, m: Merge): Store
    requires |s.indexes| >= 2
  {
    var n := |s.indexes|;
    var retired := Through(s.indexes, s.indexes[n - 2]);
    var gone := set id | id in retired;
    Store(Range(|m.files|) + s.indexes[|retired|..],
          (s.cache - gone) + m.cache,
          (s.data - gone) + FileMap(m.files),
          (s.snapshots - gone) + m.cache)
  }

  /**
   * task: copy every segment but the active one into merge files; if nothing
   * was copied, stop; otherwise retire and install. Merged ids that would
   * reach the active id raise before anything is retired.
   */
  function Compact(s: Store, limit: nat): (r: Outcome)
    requires WellFormed(s)
    requires |s.indexes| >= 2
    ensures r.fault.Some? ==> r.store == s
    ensures r.fault.Some? ==> r.fault.value.MergeCollision? && r.fault.value.active == Active(s)
    ensures VisitItems(s, Mergeable(s)) == [] ==> r == Outcome(s, None)
  {
    var m := CopyPhase(s, limit);
    if m.files == [] then Outcome(s, None)
    else if |m.files| - 1 >= Active(s) then
      Outcome(s, Some(MergeCollision(|m.files| - 1, Active(s))))
    else Outcome(Install(s, m), None)
  }

  /**
   * Installation puts merge file i at data file i and each merged sub-map in
   * both index and cache files, replacing whatever was there before.
   */
  lemma InstallReplaces(s: Store, m: Merge)
    requires |s.indexes| >= 2
    ensures var r := Install(s, m);
            && (forall i :: 0 <= i < |m.files| ==> i in r.data && r.data[i] == m.files[i])
            && (forall id :: id in m.cache ==> id in r.cache && r.cache[id] == m.cache[id])
            && (forall id :: id in m.cache ==> id in r.snapshots && r.snapshots[id] == m.cache[id])
  {
  }

  /** What retirement removes: exactly the mergeable ids. */
  lemma InstallRetiresMergeable(s: Store, m: Merge)
    requires StrictlyAscending(s.indexes) && |s.indexes| >= 2
    ensures var gone := set id | id in Mergeable(s);
            && Install(s, m).indexes == Range(|m.files|) + [Active(s)]
            && Install(s, m).cache == (s.cache - gone) + m.cache
            && Install(s, m).data == (s.data - gone) + FileMap(m.files)
            && Install(s, m).snapshots == (s.snapshots - gone) + m.cache
            && Active(s) !in gone
  {
    ThroughNextToLast(s.indexes);
  }

  /**
   * The list becomes the merged ids followed by the active id, and stays
   * ascending when the merged ids stay below the active one.
   */
  lemma InstallIds(s: Store, m: Merge)
    requires StrictlyAscending(s.indexes) && |s.indexes| >= 2
    requires |m.files| <= Active(s)
    ensures Install(s, m).indexes == Range(|m.files|) + [Active(s)]
    ensures StrictlyAscending(Install(s, m).indexes)
  {
    InstallRetiresMergeable(s, m);
  }

  /** The active id keeps its sub-map, its data file and its cache file. */
  lemma InstallKeepsActive(s: Store, m: Merge)
    requires StrictlyAscending(s.indexes) && |s.indexes| >= 2
    requires forall id: nat :: id in m.cache ==> id < |m.files|
    requires |m.files| <= Active(s)
    ensures var t, a := Install(s, m), Active(s);
            && (a in t.cache <==> a in s.cache)
            && (a in s.cache ==> t.cache[a] == s.cache[a])
            && (a in t.data <==> a in s.data)
            && (a in s.data ==> t.data[a] == s.data[a])
            && (a in t.snapshots <==> a in s.snapshots)
            && (a in s.snapshots ==> t.snapshots[a] == s.snapshots[a])
  {
    InstallRetiresMergeable(s, m);
  }

  /**
   * Every mergeable id is gone from the index, the data files and the cache
   * files unless a merge file was installed under it; every installed id
   * carries its merge file, merged sub-map and matching cache file.
   */
  lemma InstallRetiresAndInstalls(s: Store, m: Merge)
    requires StrictlyAscending(s.indexes) && |s.indexes| >= 2
    ensures forall id :: id in Mergeable(s) && id >= |m.files| && id !in m.cache ==>
              id !in Install(s, m).cache && id !in Install(s, m).data && id !in Install(s, m).snapshots
    ensures forall id: nat :: id < |m.files| ==> id in Install(s, m).data && Install(s, m).data[id] == m.files[id]
    ensures forall id: nat :: id in m.cache ==>
              && id in Install(s, m).cache && Install(s, m).cache[id] == m.cache[id]
              && id in Install(s, m).snapshots && Install(s, m).snapshots[id] == m.cache[id]
  {
    InstallRetiresMergeable(s, m);
  }

  /**
   * Retiring the `gone` ids from an index and its files alike, then
   * installing merged sub-maps over merged files, keeps records in bounds
   * when only the active id survives retirement.
   */
  lemma InstallKeepsFit(snaps: Cache, data: Files, gone: set<nat>, merged: Cache, mergedFiles: Files, active: nat)
    requires RecordsFit(snaps, data) && RecordsFit(merged, mergedFiles)
    requires forall id: nat :: id in snaps ==> id in gone || id == active
    requires active !in gone && active !in mergedFiles
    ensures RecordsFit((snaps - gone) + merged, (data - gone) + mergedFiles)
  {
    var snaps', data' := (snaps - gone) + merged, (data - gone) + mergedFiles;
    forall id: nat, k | Holds(snaps', id, k)
      ensures id in data' && Fits(snaps'[id][k], data'[id])
    {
      if id !in merged {
        assert Holds(snaps, id, k) && id == active;
      }
    }
  }

  /** Installing a well-formed merge result below the active id keeps the store consistent. */
  lemma InstallConsistent(s: Store, m: Merge, limit: nat)
    requires Consistent(s) && |s.indexes| >= 2
    requires MergeInv(m, limit)
    requires |m.files| <= Active(s)
    ensures Consistent(Install(s, m))
  {
    var t := Install(s, m);
    var a := Active(s);
    var gone := set id | id in Mergeable(s);
    InstallRetiresMergeable(s, m);
    InstallIds(s, m);
    assert Active(t) == a;
    MergeableIsAllButActive(s);
    MergeFitsReadable(m.cache, m.files, []);
    InstallKeepsFit(s.cache, s.data, gone, m.cache, FileMap(m.files), a);
    forall id: nat | id in t.cache
      ensures id in t.indexes
    {
      if id in m.cache {
        assert t.indexes[id] == id;
      }
    }
  }

  /** Compaction keeps the store consistent, whichever way it ends. */
  lemma CompactKeepsConsistent(s: Store, limit: nat)
    requires Consistent(s) && |s.indexes| >= 2
    ensures Consistent(Compact(s, limit).store)
  {
    var m := CopyPhase(s, limit);
    if m.files != [] && |m.files| - 1 < Active(s) {
      InstallConsistent(s, m, limit);
    }
  }

  /** A key the active sub-map holds reads, after installation, as it did before. */
  lemma InstallKeepsActiveLookup(s: Store, m: Merge, limit: nat, key: Key)
    requires Consistent(s) && |s.indexes| >= 2
    requires MergeInv(m, limit)
    requires |m.files| <= Active(s)
    requires Holds(s.cache, Active(s), key)
    ensures Readable(Install(s, m).cache, Install(s, m).data, key)
    ensures Lookup(Install(s, m).cache, Install(s, m).data, key) == Lookup(s.cache, s.data, key)
  {
    InstallConsistent(s, m, limit);
    InstallKeepsActive(s, m);
    InstallIds(s, m);
    ActiveKeyDecides(s, Install(s, m), key);
  }

  /** A key the active sub-map does not hold reads, after installation, as the merged index answers. */
  lemma InstallLookupMerged(s: Store, m: Merge, limit: nat, key: Key)
    requires Consistent(s) && |s.indexes| >= 2
    requires MergeInv(m, limit)
    requires |m.files| <= Active(s)
    requires !Holds(s.cache, Active(s), key)
    ensures Readable(Install(s, m).cache, Install(s, m).data, key)
    ensures Lookup(Install(s, m).cache, Install(s, m).data, key) == MergeLookup(m, key)
  {
    var t := Install(s, m);
    InstallConsistent(s, m, limit);
    InstallRetiresMergeable(s, m);
    MergeFitsReadable(m.cache, m.files, key);
    MergeableIsAllButActive(s);
    assert forall id: nat :: Holds(m.cache, id, key) <==> Holds(t.cache, id, key);
    LookupAgrees(m.cache, FileMap(m.files), t.cache, t.data, key);
  }

  /** For a key the active sub-map does not hold, only the mergeable ids matter to a lookup. */
  lemma MergeableDecideLookup(s: Store, key: Key)
    requires Consistent(s) && |s.indexes| >= 2
    requires !Holds(s.cache, Active(s), key)
    ensures RecordsFit(Restrict(s.cache, Mergeable(s)), s.data)
    ensures Readable(s.cache, s.data, key)
    ensures Lookup(Restrict(s.cache, Mergeable(s)), s.data, key) == Lookup(s.cache, s.data, key)
  {
    var restricted := Restrict(s.cache, Mergeable(s));
    MergeableIsAllButActive(s);
    assert forall id: nat :: Holds(restricted, id, key) <==> Holds(s.cache, id, key);
    LookupAgrees(restricted, s.data, s.cache, s.data, key);
  }

  /**
   * For a key the active sub-map does not hold, the merged index finds the
   * same bytes the store finds.
   */
  lemma CopyPhaseFindsNewest(s: Store, limit: nat, key: Key)
    requires Consistent(s) && |s.indexes| >= 2
    requires !Holds(s.cache, Active(s), key)
    ensures Readable(s.cache, s.data, key)
    ensures MergeLookup(CopyPhase(s, limit), key) == Lookup(s.cache, s.data, key)
  {
    var items := VisitItems(s, Mergeable(s));
    CopyLookup(NoMerge, items, limit, key);
    assert MergeLookup(NoMerge, key) == None;
    VisitFindsNewest(s, Mergeable(s), key);
    MergeableDecideLookup(s, key);
  }

  /**
   * Compaction changes no lookup: every key reads the same bytes afterwards
   * as before, because the copy visits ascending ids and later entries win.
   */
  lemma CompactPreservesLookup(s: Store, limit: nat, key: Key)
    requires Consistent(s) && |s.indexes| >= 2
    ensures Consistent(Compact(s, limit).store)
    ensures Lookup(Compact(s, limit).store.cache, Compact(s, limit).store.data, key) ==
            Lookup(s.cache, s.data, key)
  {
    CompactKeepsConsistent(s, limit);
    var m := CopyPhase(s, limit);
    if m.files != [] && |m.files| - 1 < Active(s) {
      if Holds(s.cache, Active(s), key) {
        InstallKeepsActiveLookup(s, m, limit, key);
      } else {
        InstallLookupMerged(s, m, limit, key);
        CopyPhaseFindsNewest(s, limit, key);
      }
    }
  }
}
