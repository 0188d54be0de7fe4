/**
 * Places where write and task, as the source has them, do not do what
 * they evidently intend. Each is modelled twice: as written, with an input
 * that exhibits the discrepancy, and as intended, which is the behaviour
 * the rest of the model uses.
 */
module Findings {
  import opened Wrappers
  import opened Ordering
  import opened Codec
  import opened Index
  import opened State
  import opened Compaction
  import opened Db
  import opened Restart

  // ---------------------------------------------------------------------
  // 1. The record size counts UTF-16 units, the file gets UTF-8 bytes.
  // ---------------------------------------------------------------------

  /**
   * write as the source has it: the bytes appended are the UTF-8 form of
   * `key:value;`, but the size recorded is the text's length in UTF-16 units.
   */
  function WriteWithUtf16Size(s: Store, key: Key, value: string, limit: nat): (r: Outcome)
    requires WellFormed(s)
    ensures IsAscii(EntryText(key, value)) ==> r == Write(s, key, value, limit)
    ensures r.fault.Some? ==> r.fault.value.SegmentExists? || r.fault.value.MergeCollision?
  {
    Utf16LengthVersusUtf8(EntryText(key, value));
    AppendThenCompact(s, key, EntryBytes(key, value), Utf16Length(EntryText(key, value)), limit)
  }

  /** The bytes the as-written record brackets: the entry's first UTF-16-length bytes. */
  function Utf16Prefix(key: Key, value: string): (r: seq<byte>)
    ensures r <= EntryBytes(key, value)
    ensures |r| == Utf16Length(EntryText(key, value))
  {
    Utf16LengthVersusUtf8(EntryText(key, value));
    EntryBytes(key, value)[..Utf16Length(EntryText(key, value))]
  }

  /**
   * Reading a key straight after the as-written write returns only the first
   * UTF-16-length bytes of the entry: the whole entry exactly when the entry
   * is ASCII, a strict prefix of it otherwise.
   */
  lemma Utf16SizeTruncates(s: Store, key: Key, value: string, limit: nat)
    requires Consistent(s)
    ensures Consistent(WriteWithUtf16Size(s, key, value, limit).store)
    ensures var r := WriteWithUtf16Size(s, key, value, limit).store;
            Lookup(r.cache, r.data, key) == Some(Utf16Prefix(key, value))
    ensures var r := WriteWithUtf16Size(s, key, value, limit).store;
            Lookup(r.cache, r.data, key) == Some(EntryBytes(key, value)) <==> IsAscii(EntryText(key, value))
  {
    var bytes := EntryBytes(key, value);
    var size := Utf16Length(EntryText(key, value));
    Utf16LengthVersusUtf8(EntryText(key, value));
    AppendThenCompactLookup(s, key, bytes, size, limit, key);
    assert bytes[..size] == Utf16Prefix(key, value);
    assert Utf16Prefix(key, value) == bytes <==> size == |bytes| by {
      if size == |bytes| {
        assert bytes[..size] == bytes;
      }
    }
  }

  /** The entry `é:;` is three UTF-16 units but four UTF-8 bytes, so its read drops the final `;`. */
  lemma AccentedKeyReadsShort()
    ensures !IsAscii(EntryText("é", ""))
    ensures Utf16Length(EntryText("é", "")) == 3 && |EntryBytes("é", "")| == 4
    ensures var r := WriteWithUtf16Size(Fresh, "é", "", FileMaxLength).store;
            Consistent(r) && Lookup(r.cache, r.data, "é") != Some(EntryBytes("é", ""))
  {
    assert EntryText("é", "") == ['é', ':', ';'];
    assert !IsAsciiChar('é');
    Utf16SizeTruncates(Fresh, "é", "", FileMaxLength);
  }

  // ---------------------------------------------------------------------
  // 2. The transfer loop asks for the whole size on every call.
  // ---------------------------------------------------------------------

  /**
   * FileChannel.transferTo(position, count, target): moves the bytes from
   * `position` on, at most `count` of them and at most `cap`, the number this
   * call happens to move; none when `position` is at or past the end.
   */
  function TransferTo(src: seq<byte>, position: nat, count: nat, cap: nat): (r: seq<byte>)
    ensures |r| <= count && |r| <= cap
    ensures position <= |src| ==> |r| <= |src| - position && r == src[position..position + |r|]
    ensures position < |src| && count > 0 && cap > 0 ==> |r| > 0
    ensures position + count <= |src| && count <= cap ==> |r| == count
  {
    if position >= |src| then []
    else
      var n := if count <= cap then count else cap;
      src[position..position + (if n <= |src| - position then n else |src| - position)]
  }

  /**
   * The copy loop of task as written: while fewer than `size` bytes have
   * moved, call transferTo at offset + moved with count `size`. The `caps`
   * schedule says how many bytes each successive call moves; None means the
   * schedule ran out before the loop ended.
   */
  function TransferAsWritten(src: seq<byte>, offset: nat, size: nat, moved: nat, caps: seq<nat>): (r: Option<seq<byte>>)
    ensures r.Some? && moved < size ==> size - moved <= |r.value| < size + size - moved
    ensures r.Some? && moved >= size ==> r.value == []
    decreases |caps|
  {
    if moved >= size then Some([])
    else if caps == [] then None
    else
      var chunk := TransferTo(src, offset + moved, size, caps[0]);
      match TransferAsWritten(src, offset, size, moved + |chunk|, caps[1..])
      case None => None
      case Some(rest) => Some(chunk + rest)
  }

  /** The intended loop: each call asks only for the bytes still missing. */
  function Transfer(src: seq<byte>, offset: nat, size: nat, moved: nat, caps: seq<nat>): (r: Option<seq<byte>>)
    ensures r.Some? ==> |r.value| == if moved < size then size - moved else 0
    decreases |caps|
  {
    if moved >= size then Some([])
    else if caps == [] then None
    else
      var chunk := TransferTo(src, offset + moved, size - moved, caps[0]);
      match Transfer(src, offset, size, moved + |chunk|, caps[1..])
      case None => None
      case Some(rest) => Some(chunk + rest)
  }

  /**
   * When every call moves at least one byte and there are enough calls, the
   * intended loop copies exactly the bytes the record brackets, however the
   * calls split them.
   */
  lemma {:induction false} TransferCopiesRecord(src: seq<byte>, offset: nat, size: nat, moved: nat, caps: seq<nat>)
    requires offset + size <= |src| && moved <= size
    requires forall i :: 0 <= i < |caps| ==> caps[i] > 0
    requires |caps| >= size - moved
    ensures Transfer(src, offset, size, moved, caps) == Some(src[offset + moved..offset + size])
    decreases |caps|
  {
    if moved < size {
      var chunk := TransferTo(src, offset + moved, size - moved, caps[0]);
      assert 0 < |chunk| <= size - moved;
      TransferCopiesRecord(src, offset, size, moved + |chunk|, caps[1..]);
      assert src[offset + moved..offset + size] == chunk + src[offset + moved + |chunk|..offset + size];
    }
  }

  /** When the first call moves the whole record, the loop as written copies exactly it too. */
  lemma TransferAsWrittenAgreesOnOneCall(src: seq<byte>, offset: nat, size: nat, caps: seq<nat>)
    requires offset + size <= |src| && size > 0
    requires |caps| > 0 && caps[0] >= size
    ensures TransferAsWritten(src, offset, size, 0, caps) == Some(src[offset..offset + size])
  {
    var chunk := TransferTo(src, offset, size, caps[0]);
    assert chunk == src[offset..offset + size];
    assert chunk + [] == chunk;
  }

  /**
   * A record of two bytes at offset 0, moved one byte and then two: the loop
   * as written copies three bytes, the intended one two.
   */
  lemma PartialTransferOvershoots()
    ensures TransferAsWritten([1, 2, 3, 4, 5], 0, 2, 0, [1, 2]) == Some([1, 2, 3])
    ensures Transfer([1, 2, 3, 4, 5], 0, 2, 0, [1, 2]) == Some([1, 2])
  {
    var src: seq<byte> := [1, 2, 3, 4, 5];
    var one, two, three: seq<byte> := [1], [2], [2, 3];
    assert TransferTo(src, 0, 2, 1) == one;
    assert TransferTo(src, 1, 2, 2) == three;
    assert TransferTo(src, 1, 1, 2) == two;
    assert TransferAsWritten(src, 0, 2, 3, []) == Some([]);
    assert TransferAsWritten(src, 0, 2, 1, [2]) == Some(three + []);
    assert TransferAsWritten(src, 0, 2, 0, [1, 2]) == Some(one + (three + []));
    assert Transfer(src, 0, 2, 2, []) == Some([]);
    assert Transfer(src, 0, 2, 1, [2]) == Some(two + []);
    assert Transfer(src, 0, 2, 0, [1, 2]) == Some(one + (two + []));
    var written, intended: seq<byte> := [1, 2, 3], [1, 2];
    assert one + (three + []) == written;
    assert one + (two + []) == intended;
  }

  // ---------------------------------------------------------------------
  // 3. Retirement deletes strictly, and a trailing empty merge file has no
  //    cache file.
  // ---------------------------------------------------------------------

  /**
   * The retirement loop of task as written: walk the list from the front;
   * delete the id's data file, then its cache file, each of which must exist;
   * drop its sub-map and its list entry; stop after `last`. A missing file
   * raises with the earlier ids already retired (and, for a missing cache
   * file, this id's data file already deleted).
   */
  function RetireStrict(s: Store, last: nat): (r: Outcome)
    ensures |r.store.indexes| <= |s.indexes|
    ensures r.fault.Some? ==>
              (r.fault.value.MissingSegment? || r.fault.value.MissingCacheFile?) && r.fault.value.id in s.indexes
    decreases |s.indexes|
  {
    if s.indexes == [] then Outcome(s, None)
    else
      var id := s.indexes[0];
      if id !in s.data then Outcome(s, Some(MissingSegment(id)))
      else if id !in s.snapshots then Outcome(s.(data := s.data - {id}), Some(MissingCacheFile(id)))
      else
        var t := Store(s.indexes[1..], s.cache - {id}, s.data - {id}, s.snapshots - {id});
        if id == last then Outcome(t, None)
        else
          RetireStrict(t, last)
  }

  /**
   * The move loop of task as written: for i from `n` - 1 down to 0, move
   * merge file i onto data file i, which must not exist, install merged
   * sub-map i when there is one, and put i in front of the list.
   */
  function MoveStrict(s: Store, files: seq<Segment>, merged: Cache, n: nat): (r: Outcome)
    requires n <= |files|
    ensures r.fault.None? ==> r.store.indexes == Range(n) + s.indexes
    ensures r.fault.Some? ==> r.fault.value.SegmentExists? && r.fault.value.id < n
    decreases n
  {
    if n == 0 then Outcome(s, None)
    else
      var i := n - 1;
      if i in s.data then Outcome(s, Some(SegmentExists(i)))
      else
        var t := Store([i] + s.indexes,
                       if i in merged then s.cache[i := merged[i]] else s.cache,
                       s.data[i := files[i]],
                       s.snapshots);
        var r := MoveStrict(t, files, merged, i);
        assert Range(i) + ([i] + s.indexes) == Range(i) + [i] + s.indexes == Range(n) + s.indexes;
        r
  }

  /** The ids of a set from the greatest down: the iteration order of a descending TreeMap. */
  function Descending(ids: set<nat>): (r: seq<nat>)
    ensures forall x :: x in r <==> x in ids
    ensures forall i, j :: 0 <= i < j < |r| ==> r[i] > r[j]
    decreases ids
  {
    if ids == {} then []
    else
      var m := MaxId(ids);
      var rest := Descending(ids - {m});
      assert forall x :: x in rest ==> x < m;
      [m] + rest
  }

  /**
   * The cache-file loop of task as written: for each merged id in the given
   * order, create its cache file, which must not exist, and save the merged
   * sub-map into it.
   */
  function SaveStrict(s: Store, merged: Cache, ids: seq<nat>): (r: Outcome)
    requires forall id :: id in ids ==> id in merged
    ensures r.store.indexes == s.indexes && r.store.cache == s.cache && r.store.data == s.data
    ensures r.fault.Some? ==> r.fault.value.CacheFileExists? && r.fault.value.id in ids
    decreases |ids|
  {
    if ids == [] then Outcome(s, None)
    else if ids[0] in s.snapshots then Outcome(s, Some(CacheFileExists(ids[0])))
    else SaveStrict(s.(snapshots := s.snapshots[ids[0] := merged[ids[0]]]), merged, ids[1..])
  }

  /**
   * The part of task as written after the copy loop: strict retirement
   * through the next-to-last id, strict moves, and strict cache-file
   * creation, each raising on the first file that is missing or already there.
   */
  function InstallStrict(s: Store, m: Merge): (r: Outcome)
    requires |s.indexes| >= 2
    ensures r.fault.None? ==> r.store.indexes == Range(|m.files|) + RetireStrict(s, s.indexes[|s.indexes| - 2]).store.indexes
    ensures RetireStrict(s, s.indexes[|s.indexes| - 2]).fault.Some? ==> r == RetireStrict(s, s.indexes[|s.indexes| - 2])
  {
    var retired := RetireStrict(s, s.indexes[|s.indexes| - 2]);
    if retired.fault.Some? then retired
    else
      var moved := MoveStrict(retired.store, m.files, m.cache, |m.files|);
      if moved.fault.Some? then moved
      else SaveStrict(moved.store, m.cache, Descending(m.cache.Keys))
  }

  /** task as written: the copy loop, then, if anything was copied, the strict installation. */
  function CompactStrict(s: Store, limit: nat): (r: Outcome)
    requires WellFormed(s) && |s.indexes| >= 2
    ensures CopyPhase(s, limit).files == [] ==> r == Outcome(s, None)
  {
    var m := CopyPhase(s, limit);
    if m.files == [] then Outcome(s, None) else InstallStrict(s, m)
  }

  /**
   * write with task as the source has it: the append, then the strict task
   * after a rotation. The record size is the entry's UTF-8 byte count, the
   * corrected size of Finding 1, so that this finding stays apart from that one.
   */
  function WriteStrict(s: Store, key: Key, value: string, limit: nat): (r: Outcome)
    requires WellFormed(s)
    ensures !Append(s, key, EntryBytes(key, value), |EntryBytes(key, value)|, limit).rotated ==>
              r == Write(s, key, value, limit)
  {
    var bytes := EntryBytes(key, value);
    var a := Append(s, key, bytes, |bytes|, limit);
    if a.fault.Some? || !a.rotated then Outcome(a.store, a.fault)
    else
      assert WellFormed(a.store) by {
        AppendKeepsWellFormed(s, key, bytes, |bytes|, limit);
      }
      CompactStrict(a.store, limit)
  }

  /** Every listed id has both its data file and its cache file, and no other id has either. */
  ghost predicate FilesMatchList(s: Store) {
    && (forall id :: id in s.indexes ==> id in s.data && id in s.snapshots)
    && (forall id :: id in s.data ==> id in s.indexes)
    && (forall id :: id in s.snapshots ==> id in s.indexes)
  }

  /** The ids a sequence lists. */
  function Gone(ids: seq<nat>): (r: set<nat>)
    ensures forall x :: x in r <==> x in ids
  {
    set x | x in ids
  }

  /** Retiring one id is retiring the list of it alone. */
  lemma DropOne<V>(m: map<nat, V>, id: nat)
    ensures m - {id} == m - Gone([id])
  {
    assert Gone([id]) == {id};
  }

  /** Retiring one id and then the rest is retiring them all. */
  lemma DropStep<V>(m: map<nat, V>, id: nat, rest: seq<nat>)
    ensures (m - {id}) - Gone(rest) == m - Gone([id] + rest)
  {
    assert Gone([id] + rest) == Gone(rest) + {id};
  }

  /** With both files of every retired id present, strict retirement removes exactly those ids. */
  lemma {:induction false} RetireStrictAgrees(s: Store, last: nat)
    requires StrictlyAscending(s.indexes)
    requires forall id :: id in Through(s.indexes, last) ==> id in s.data && id in s.snapshots
    ensures var r, retired := RetireStrict(s, last), Through(s.indexes, last);
            && r.fault.None?
            && r.store.indexes == s.indexes[|retired|..]
            && r.store.cache == s.cache - Gone(retired)
            && r.store.data == s.data - Gone(retired)
            && r.store.snapshots == s.snapshots - Gone(retired)
    decreases |s.indexes|, 2
  {
    if s.indexes != [] {
      var id := s.indexes[0];
      var t := Store(s.indexes[1..], s.cache - {id}, s.data - {id}, s.snapshots - {id});
      assert id in s.data && id in s.snapshots;
      RetireFirst(s, last);
      if id == last {
        DropOne(s.cache, id);
        DropOne(s.data, id);
        DropOne(s.snapshots, id);
      } else {
        RetireOnward(s, last);
      }
    }
  }

  /** The recursive case of the lemma above: the first id is not the last one to retire. */
  lemma {:induction false} RetireOnward(s: Store, last: nat)
    requires StrictlyAscending(s.indexes) && |s.indexes| > 0 && s.indexes[0] != last
    requires forall id :: id in Through(s.indexes, last) ==> id in s.data && id in s.snapshots
    ensures var r, retired := RetireStrict(s, last), Through(s.indexes, last);
            && r.fault.None?
            && r.store.indexes == s.indexes[|retired|..]
            && r.store.cache == s.cache - Gone(retired)
            && r.store.data == s.data - Gone(retired)
            && r.store.snapshots == s.snapshots - Gone(retired)
    decreases |s.indexes|, 1
  {
    var id := s.indexes[0];
    var t := Store(s.indexes[1..], s.cache - {id}, s.data - {id}, s.snapshots - {id});
    var rest := Through(t.indexes, last);
    assert id in Through(s.indexes, last);
    RetireFirst(s, last);
    RetireTail(s, t, last);
    DropStep(s.cache, id, rest);
    DropStep(s.data, id, rest);
    DropStep(s.snapshots, id, rest);
    assert t.indexes[|rest|..] == s.indexes[|rest| + 1..];
  }

  /** Retiring the first id when both its files are present, then going on unless it was the last. */
  lemma RetireFirst(s: Store, last: nat)
    requires |s.indexes| > 0 && s.indexes[0] in s.data && s.indexes[0] in s.snapshots
    ensures var id := s.indexes[0];
            var t := Store(s.indexes[1..], s.cache - {id}, s.data - {id}, s.snapshots - {id});
            && RetireStrict(s, last) == (if id == last then Outcome(t, None) else RetireStrict(t, last))
            && Through(s.indexes, last) == [id] + (if id == last then [] else Through(t.indexes, last))
  {
  }

  /** The induction step of the lemma above: retirement resumes on the rest of the list. */
  lemma {:induction false} RetireTail(s: Store, t: Store, last: nat)
    requires StrictlyAscending(s.indexes) && |s.indexes| > 0 && s.indexes[0] != last
    requires forall id :: id in Through(s.indexes, last) ==> id in s.data && id in s.snapshots
    requires var id := s.indexes[0];
             t == Store(s.indexes[1..], s.cache - {id}, s.data - {id}, s.snapshots - {id})
    ensures var r, rest := RetireStrict(t, last), Through(t.indexes, last);
            && r.fault.None?
            && r.store.indexes == t.indexes[|rest|..]
            && r.store.cache == t.cache - Gone(rest)
            && r.store.data == t.data - Gone(rest)
            && r.store.snapshots == t.snapshots - Gone(rest)
    decreases |s.indexes|, 0
  {
    var id := s.indexes[0];
    var rest := Through(t.indexes, last);
    assert Through(s.indexes, last) == [id] + rest;
    assert StrictlyAscending(t.indexes);
    forall x | x in rest
      ensures x in t.data && x in t.snapshots
    {
      var k :| 0 <= k < |rest| && rest[k] == x;
      assert x == s.indexes[k + 1];
      assert x in Through(s.indexes, last);
    }
    RetireStrictAgrees(t, last);
  }

  /** The merged sub-maps below `n`. */
  function Below(merged: Cache, n: nat): (r: Cache)
    ensures forall id: nat :: id in r <==> id in merged && id < n
    ensures forall id: nat :: id in r ==> r[id] == merged[id]
  {
    map id: nat | id in merged && id < n :: merged[id]
  }

  lemma MoveStepCache(c: Cache, merged: Cache, i: nat)
    ensures (if i in merged then c[i := merged[i]] else c) + Below(merged, i) == c + Below(merged, i + 1)
  {
  }

  lemma MoveStepData(d: Files, files: seq<Segment>, i: nat)
    requires i < |files|
    ensures d[i := files[i]] + FileMap(files[..i]) == d + FileMap(files[..i + 1])
  {
  }

  /** With no data file at the target ids, the strict moves install merge files 0..n-1 and their sub-maps. */
  lemma {:induction false} MoveStrictAgrees(s: Store, files: seq<Segment>, merged: Cache, n: nat)
    requires n <= |files|
    requires forall i: nat :: i < n ==> i !in s.data
    ensures var r := MoveStrict(s, files, merged, n);
            && r.fault.None?
            && r.store.indexes == Range(n) + s.indexes
            && r.store.cache == s.cache + Below(merged, n)
            && r.store.data == s.data + FileMap(files[..n])
            && r.store.snapshots == s.snapshots
    decreases n, 1
  {
    if n == 0 {
      assert Below(merged, 0) == map[];
      assert FileMap(files[..0]) == map[];
    } else {
      MoveOnward(s, files, merged, n);
    }
  }

  /** The recursive case of the lemma above: move merge file n - 1, then the ones below it. */
  lemma {:induction false} MoveOnward(s: Store, files: seq<Segment>, merged: Cache, n: nat)
    requires 0 < n <= |files|
    requires forall i: nat :: i < n ==> i !in s.data
    ensures var r := MoveStrict(s, files, merged, n);
            && r.fault.None?
            && r.store.indexes == Range(n) + s.indexes
            && r.store.cache == s.cache + Below(merged, n)
            && r.store.data == s.data + FileMap(files[..n])
            && r.store.snapshots == s.snapshots
    decreases n, 0
  {
    var i := n - 1;
    var t := Store([i] + s.indexes,
                   if i in merged then s.cache[i := merged[i]] else s.cache,
                   s.data[i := files[i]],
                   s.snapshots);
    MoveFirst(s, files, merged, n);
    MoveStrictAgrees(t, files, merged, i);
    MoveStepCache(s.cache, merged, i);
    MoveStepData(s.data, files, i);
    MoveStepIndexes(s.indexes, n);
  }

  lemma MoveStepIndexes(ids: seq<nat>, n: nat)
    requires n > 0
    ensures Range(n - 1) + ([n - 1] + ids) == Range(n) + ids
  {
  }

  /** Moving merge file n - 1 onto a free id, then going on with the ones below it. */
  lemma MoveFirst(s: Store, files: seq<Segment>, merged: Cache, n: nat)
    requires 0 < n <= |files| && n - 1 !in s.data
    ensures var i := n - 1;
            var t := Store([i] + s.indexes,
                           if i in merged then s.cache[i := merged[i]] else s.cache,
                           s.data[i := files[i]],
                           s.snapshots);
            MoveStrict(s, files, merged, n) == MoveStrict(t, files, merged, i)
  {
  }

  /** With none of the ids' cache files present, the strict saves store each listed merged sub-map. */
  lemma {:induction false} SaveStrictAgrees(s: Store, merged: Cache, ids: seq<nat>)
    requires forall id :: id in ids ==> id in merged && id !in s.snapshots
    requires forall i, j :: 0 <= i < j < |ids| ==> ids[i] != ids[j]
    ensures var r := SaveStrict(s, merged, ids);
            && r.fault.None?
            && r.store.snapshots == s.snapshots + Restrict(merged, ids)
    decreases |ids|
  {
    if ids == [] {
      assert Restrict(merged, ids) == map[];
    } else {
      var t := s.(snapshots := s.snapshots[ids[0] := merged[ids[0]]]);
      assert SaveStrict(s, merged, ids) == SaveStrict(t, merged, ids[1..]);
      assert forall id :: id in ids[1..] ==> id != ids[0];
      SaveStrictAgrees(t, merged, ids[1..]);
      SaveStep(s.snapshots, merged, ids);
    }
  }

  /** Saving the first id, then the rest, is saving them all. */
  lemma SaveStep(snaps: Cache, merged: Cache, ids: seq<nat>)
    requires ids != [] && ids[0] in merged
    ensures snaps[ids[0] := merged[ids[0]]] + Restrict(merged, ids[1..]) == snaps + Restrict(merged, ids)
  {
    assert forall x :: x in ids <==> x == ids[0] || x in ids[1..];
  }

  /** What is left after strict retirement: the active id with the files and sub-maps no merged id shares. */
  function Retired(s: Store): Store
    requires |s.indexes| >= 1
  {
    var g := Gone(Mergeable(s));
    Store([Active(s)], s.cache - g, s.data - g, s.snapshots - g)
  }

  /** With both files of every listed id present, strict retirement leaves just the active id. */
  lemma StrictRetiresMergeable(s: Store)
    requires StrictlyAscending(s.indexes) && |s.indexes| >= 2
    requires forall id :: id in s.indexes ==> id in s.data && id in s.snapshots
    ensures RetireStrict(s, s.indexes[|s.indexes| - 2]) == Outcome(Retired(s), None)
  {
    var n := |s.indexes|;
    var last := s.indexes[n - 2];
    var retired := Through(s.indexes, last);
    assert retired == Mergeable(s) by {
      ThroughNextToLast(s.indexes);
    }
    assert forall id :: id in retired ==> id in s.data && id in s.snapshots by {
      forall id | id in retired
        ensures id in s.data && id in s.snapshots
      {
        assert id in s.indexes;
      }
    }
    RetireStrictAgrees(s, last);
    var r := RetireStrict(s, last);
    assert r.store.indexes == [Active(s)] by {
      assert s.indexes[|retired|..] == [Active(s)];
    }
    assert Gone(retired) == Gone(Mergeable(s));
    assert r.store == Retired(s);
  }

  /** After the strict moves: merge files 0..n-1 in front, with their merged sub-maps. */
  function Moved(s: Store, m: Merge): Store
    requires |s.indexes| >= 1
  {
    var r := Retired(s);
    Store(Range(|m.files|) + [Active(s)], r.cache + m.cache, r.data + FileMap(m.files), r.snapshots)
  }

  /** Below the active id nothing survives strict retirement: only the active id keeps files. */
  lemma RetiredKeepsOnlyActive(s: Store)
    requires StrictlyAscending(s.indexes) && |s.indexes| >= 2 && FilesMatchList(s)
    ensures forall id :: id in Retired(s).data || id in Retired(s).snapshots ==> id == Active(s)
  {
    MergeableIsAllButActive(s);
    forall id | id in Retired(s).data || id in Retired(s).snapshots
      ensures id == Active(s)
    {
      assert id in s.indexes && id !in Mergeable(s);
    }
  }

  /** With merged ids below the active one, the strict moves meet no data file. */
  lemma StrictMoves(s: Store, m: Merge, limit: nat)
    requires StrictlyAscending(s.indexes) && |s.indexes| >= 2 && FilesMatchList(s)
    requires MergeInv(m, limit) && |m.files| <= Active(s)
    ensures MoveStrict(Retired(s), m.files, m.cache, |m.files|) == Outcome(Moved(s, m), None)
  {
    var n := |m.files|;
    RetiredKeepsOnlyActive(s);
    MoveStrictAgrees(Retired(s), m.files, m.cache, n);
    assert Below(m.cache, n) == m.cache;
    assert m.files[..n] == m.files;
  }

  /** With merged ids below the active one, the strict saves meet no cache file. */
  lemma StrictSaves(s: Store, m: Merge, limit: nat)
    requires StrictlyAscending(s.indexes) && |s.indexes| >= 2 && FilesMatchList(s)
    requires MergeInv(m, limit) && |m.files| <= Active(s)
    ensures SaveStrict(Moved(s, m), m.cache, Descending(m.cache.Keys)) ==
              Outcome(Moved(s, m).(snapshots := Moved(s, m).snapshots + m.cache), None)
  {
    var mv := Moved(s, m);
    assert forall id :: id in m.cache ==> id !in mv.snapshots by {
      RetiredKeepsOnlyActive(s);
    }
    SaveAllAgrees(mv, m.cache);
  }

  /** With none of the merged ids' cache files present, the strict saves store every merged sub-map. */
  lemma SaveAllAgrees(s: Store, merged: Cache)
    requires forall id :: id in merged ==> id !in s.snapshots
    ensures SaveStrict(s, merged, Descending(merged.Keys)) == Outcome(s.(snapshots := s.snapshots + merged), None)
  {
    var ids := Descending(merged.Keys);
    assert forall id :: id in merged <==> id in ids;
    assert forall i, j :: 0 <= i < j < |ids| ==> ids[i] != ids[j] by {
      assert forall i, j :: 0 <= i < j < |ids| ==> ids[i] > ids[j];
    }
    SaveStrictAgrees(s, merged, ids);
    RestrictAll(merged, ids);
  }

  /** Restricting a map to a list of all its ids leaves it whole. */
  lemma RestrictAll(c: Cache, ids: seq<nat>)
    requires forall id :: id in c <==> id in ids
    ensures Restrict(c, ids) == c
  {
    var r := Restrict(c, ids);
    assert r.Keys == c.Keys;
    forall id | id in r
      ensures r[id] == c[id]
    {
    }
  }

  /** Installation as the model has it leaves what the strict moves and saves leave. */
  lemma InstallIsMovedAndSaved(s: Store, m: Merge)
    requires StrictlyAscending(s.indexes) && |s.indexes| >= 2
    ensures Install(s, m) == Moved(s, m).(snapshots := Moved(s, m).snapshots + m.cache)
  {
    InstallRetiresMergeable(s, m);
    var g := Gone(Mergeable(s));
    assert g == set id | id in Mergeable(s);
    var t, u := Install(s, m), Moved(s, m);
    assert t.indexes == u.indexes;
    assert t.cache == u.cache;
    assert t.data == u.data;
    assert t.snapshots == u.snapshots + m.cache;
  }

  /**
   * With both files of every listed id present, no file of any other id, and
   * merged ids below the active one, the strict installation raises nothing
   * and leaves what the model's installation leaves.
   */
  lemma InstallStrictAgrees(s: Store, m: Merge, limit: nat)
    requires StrictlyAscending(s.indexes) && |s.indexes| >= 2 && FilesMatchList(s)
    requires MergeInv(m, limit) && |m.files| <= Active(s)
    ensures InstallStrict(s, m) == Outcome(Install(s, m), None)
  {
    assert forall id :: id in s.indexes ==> id in s.data && id in s.snapshots;
    StrictRetiresMergeable(s);
    StrictMoves(s, m, limit);
    InstallStrictSteps(s, m, Retired(s), Moved(s, m));
    StrictSaves(s, m, limit);
    InstallIsMovedAndSaved(s, m);
  }

  /** Once strict retirement and the strict moves succeed, the strict installation ends with the saves. */
  lemma InstallStrictSteps(s: Store, m: Merge, retired: Store, moved: Store)
    requires |s.indexes| >= 2
    requires RetireStrict(s, s.indexes[|s.indexes| - 2]) == Outcome(retired, None)
    requires MoveStrict(retired, m.files, m.cache, |m.files|) == Outcome(moved, None)
    ensures InstallStrict(s, m) == SaveStrict(moved, m.cache, Descending(m.cache.Keys))
  {
  }

  /**
   * While every listed id has both its files and no other id has any, task as
   * written does what the model's compaction does whenever the latter
   * succeeds.
   */
  lemma CompactStrictAgrees(s: Store, limit: nat)
    requires WellFormed(s) && |s.indexes| >= 2 && FilesMatchList(s)
    requires Compact(s, limit).fault.None?
    ensures CompactStrict(s, limit) == Compact(s, limit)
  {
    var m := CopyPhase(s, limit);
    if m.files != [] {
      InstallStrictAgrees(s, m, limit);
    }
  }

  /**
   * The store after write(name, henry), write(name, list), write(age, 123)
   * with the limit 6, holding the given bytes for the entries `name:list;`
   * and `age:123;`: the second write rotated to segment 1; the third rotated
   * to segment 2 and compacted segment 1's entry into merge file 0, which
   * grew past the limit and left an empty merge file 1 behind. Id 1 is
   * listed and has its (empty) data file but neither a sub-map nor a cache
   * file. `ThreeWritesFromFresh` below derives this store from a fresh one.
   */
  function ThreeWrites(name: seq<byte>, age: seq<byte>): Store {
    var c := map[0 := map["name" := Record(0, |name|)], 2 := map["age" := Record(0, |age|)]];
    Store([0, 1, 2], c, map[0 := name, 1 := [], 2 := age], c)
  }

  /** That store with the entries' UTF-8 bytes. */
  const AfterThreeWrites := ThreeWrites(EntryBytes("name", "list"), EntryBytes("age", "123"))

  /** The store after write(name, henry) on a fresh store, holding the given bytes for `name:henry;`. */
  function OneWrite(henry: seq<byte>): Store {
    var c := map[0 := map["name" := Record(0, |henry|)]];
    Store([0], c, map[0 := henry], c)
  }

  /**
   * The store after write(name, list) rotated to segment 1: segment 0's
   * sub-map lost `name`, but its cache file still holds it.
   */
  function TwoWrites(henry: seq<byte>, list: seq<byte>): Store {
    var empty: SubMap := map[];
    Store([0, 1],
          map[0 := empty, 1 := map["name" := Record(0, |list|)]],
          map[0 := henry, 1 := list],
          map[0 := map["name" := Record(0, |henry|)], 1 := map["name" := Record(0, |list|)]])
  }

  /** The store after the append part of write(age, 123), before its compaction. */
  function ThirdAppended(henry: seq<byte>, list: seq<byte>, age: seq<byte>): Store {
    var empty: SubMap := map[];
    Store([0, 1, 2],
          map[0 := empty, 1 := map["name" := Record(0, |list|)], 2 := map["age" := Record(0, |age|)]],
          map[0 := henry, 1 := list, 2 := age],
          map[0 := map["name" := Record(0, |henry|)], 1 := map["name" := Record(0, |list|)],
              2 := map["age" := Record(0, |age|)]])
  }

  /** The first write goes into segment 0 at offset 0 without rotating, as written and as modelled. */
  lemma FirstWrite(value: string)
    ensures WellFormed(OneWrite(EntryBytes("name", value)))
    ensures WriteStrict(Fresh, "name", value, FileMaxLength) == Outcome(OneWrite(EntryBytes("name", value)), None)
    ensures Write(Fresh, "name", value, FileMaxLength) == Outcome(OneWrite(EntryBytes("name", value)), None)
  {
    var b := EntryBytes("name", value);
    var a := Append(Fresh, "name", b, |b|, FileMaxLength);
    var rec := Record(0, |b|);
    assert !a.rotated && a.fault.None?;
    assert a.store.data == map[0 := b] by {
      assert CreateFile(Fresh.data, 0) == map[0 := []];
      assert [] + b == b;
    }
    assert a.store.cache == map[0 := map["name" := rec]] by {
      assert Newest(Fresh.cache, "name") == None;
      assert a.store.cache == Put(Fresh.cache, 0, "name", rec);
    }
  }

  /** The append part of write(name, list) finds segment 0 over the limit, rotates to segment 1 and indexes `name` there. */
  lemma SecondAppend(henry: seq<byte>, list: seq<byte>)
    requires |henry| > FileMaxLength
    ensures Append(OneWrite(henry), "name", list, |list|, FileMaxLength) == Appended(TwoWrites(henry, list), None, true)
  {
    var s := OneWrite(henry);
    var a := Append(s, "name", list, |list|, FileMaxLength);
    assert Newest(s.cache, "name") == Some(0) by {
      assert Holds(s.cache, 0, "name");
    }
    assert a.rotated && a.fault.None?;
    assert a.store.data == map[0 := henry, 1 := list] by {
      assert [] + list == list;
    }
    assert a.store.cache == TwoWrites(henry, list).cache by {
      assert a.store.cache == Put(s.cache, 1, "name", Record(0, |list|));
    }
  }

  /** After the second write only segment 1 indexes anything, and the copy loop finds nothing in segment 0. */
  lemma TwoWritesNothingToCopy(henry: seq<byte>, list: seq<byte>)
    ensures WellFormed(TwoWrites(henry, list))
    ensures VisitItems(TwoWrites(henry, list), Mergeable(TwoWrites(henry, list))) == []
  {
    var s := TwoWrites(henry, list);
    forall id: nat, k | Holds(s.cache, id, k)
      ensures id in s.data && Fits(s.cache[id][k], s.data[id])
    {
      assert id == 1;
    }
    assert Mergeable(s) == [0];
    assert SegmentItems(s, 0) == [];
  }

  /**
   * The second write of `name` finds segment 0 over the limit, rotates to
   * segment 1, and its compaction finds nothing to copy: segment 0's
   * sub-map is empty.
   */
  lemma SecondWrite(henry: seq<byte>, value: string)
    requires |henry| > FileMaxLength
    ensures WellFormed(TwoWrites(henry, EntryBytes("name", value)))
    ensures WriteStrict(OneWrite(henry), "name", value, FileMaxLength) ==
            Outcome(TwoWrites(henry, EntryBytes("name", value)), None)
    ensures Write(OneWrite(henry), "name", value, FileMaxLength) ==
            Outcome(TwoWrites(henry, EntryBytes("name", value)), None)
  {
    var b := EntryBytes("name", value);
    SecondAppend(henry, b);
    TwoWritesNothingToCopy(henry, b);
  }

  /** The append part of write(age, 123) rotates to segment 2 and indexes `age` there. */
  lemma ThirdAppend(henry: seq<byte>, list: seq<byte>, age: seq<byte>)
    requires |list| > FileMaxLength
    ensures Append(TwoWrites(henry, list), "age", age, |age|, FileMaxLength) ==
            Appended(ThirdAppended(henry, list, age), None, true)
  {
    var s := TwoWrites(henry, list);
    var u := ThirdAppended(henry, list, age);
    RotatingAppendIs(s, "age", age, FileMaxLength);
    assert Put(s.cache, 2, "age", Record(0, |age|)) == u.cache by {
      assert Newest(s.cache, "age") == None by {
        assert !Holds(s.cache, 0, "age") && !Holds(s.cache, 1, "age");
      }
    }
    assert s.data[2 := age] == u.data;
    assert s.snapshots[2 := u.cache[2]] == u.snapshots;
  }

  /** A single entry longer than the limit fills merge file 0 and opens an empty merge file 1. */
  lemma CopyOneLarge(it: Item, limit: nat)
    requires |it.bytes| > limit
    ensures Copy(NoMerge, [it], limit) == LargeMerge(it.key, it.bytes)
  {
    assert MergeInv(NoMerge, limit);
    var m := CopyEntry(NoMerge, it, limit);
    assert Copy(NoMerge, [it], limit) == Copy(m, [], limit);
    assert [] + it.bytes == it.bytes;
    assert m.files == [it.bytes, []];
  }

  /** Before its compaction the third write's store is well formed. */
  lemma ThirdWellFormed(henry: seq<byte>, list: seq<byte>, age: seq<byte>)
    ensures WellFormed(ThirdAppended(henry, list, age))
  {
    var s := ThirdAppended(henry, list, age);
    forall id: nat, k | Holds(s.cache, id, k)
      ensures id in s.data && Fits(s.cache[id][k], s.data[id])
    {
      assert id == 1 || id == 2;
    }
  }

  /** The copy loop finds only `name` in segment 1, bracketing the whole data file. */
  lemma ThirdSegmentOne(henry: seq<byte>, list: seq<byte>, age: seq<byte>)
    requires RecordsFit(ThirdAppended(henry, list, age).cache, ThirdAppended(henry, list, age).data)
    ensures SegmentItems(ThirdAppended(henry, list, age), 1) == [Item("name", list)]
  {
    var s := ThirdAppended(henry, list, age);
    assert SortedKeys(s.cache[1].Keys) == ["name"] by {
      assert s.cache[1].Keys == {"name"};
      assert LeastKey({"name"}) == "name";
    }
    assert list[0..|list|] == list;
  }

  /** Visiting two ids, where the first has nothing to copy, visits what the second holds. */
  lemma VisitSecondOnly(s: Store, x: nat, y: nat)
    requires RecordsFit(s.cache, s.data) && |s.indexes| >= 1
    requires Mergeable(s) == [x, y] && SegmentItems(s, x) == []
    ensures VisitItems(s, Mergeable(s)) == SegmentItems(s, y)
  {
    assert VisitItems(s, [y]) == SegmentItems(s, y) + [];
  }

  /** Before its compaction the third write's store is well formed, and the copy loop visits only segment 1's `name` entry. */
  lemma ThirdItems(henry: seq<byte>, list: seq<byte>, age: seq<byte>)
    ensures WellFormed(ThirdAppended(henry, list, age))
    ensures VisitItems(ThirdAppended(henry, list, age), Mergeable(ThirdAppended(henry, list, age))) == [Item("name", list)]
  {
    var s := ThirdAppended(henry, list, age);
    ThirdWellFormed(henry, list, age);
    ThirdSegmentOne(henry, list, age);
    assert Mergeable(s) == [0, 1];
    assert SegmentItems(s, 0) == [];
    VisitSecondOnly(s, 0, 1);
  }

  /** The compaction of the third write copies segment 1's `name` entry into merge file 0, which rotates. */
  lemma ThirdCopy(henry: seq<byte>, list: seq<byte>, age: seq<byte>)
    requires |list| > FileMaxLength
    ensures WellFormed(ThirdAppended(henry, list, age))
    ensures CopyPhase(ThirdAppended(henry, list, age), FileMaxLength) == LargeMerge("name", list)
  {
    ThirdItems(henry, list, age);
    CopyOneLarge(Item("name", list), FileMaxLength);
  }

  /**
   * The merge of one entry longer than the limit: its bytes in merge file 0,
   * recorded at offset 0, and an empty merge file 1.
   */
  function LargeMerge(key: Key, bytes: seq<byte>): Merge {
    Merge([bytes, []], map[0 := map[key := Record(0, |bytes|)]], 0)
  }

  /** Retiring segments 0 and 1 and installing the merged sub-map leaves `name` in 0 and `age` in 2. */
  lemma ThirdCacheInstalled(henry: seq<byte>, list: seq<byte>, age: seq<byte>)
    ensures (ThirdAppended(henry, list, age).cache - {0, 1}) + LargeMerge("name", list).cache == ThreeWrites(list, age).cache
  {
  }

  /** The same holds for the cache files. */
  lemma ThirdSnapshotsInstalled(henry: seq<byte>, list: seq<byte>, age: seq<byte>)
    ensures (ThirdAppended(henry, list, age).snapshots - {0, 1}) + LargeMerge("name", list).cache == ThreeWrites(list, age).snapshots
  {
  }

  /** Retiring segments 0 and 1 and moving the merge files in leaves `name:list;`, nothing, and the `age` entry. */
  lemma ThirdDataInstalled(henry: seq<byte>, list: seq<byte>, age: seq<byte>)
    ensures (ThirdAppended(henry, list, age).data - {0, 1}) + FileMap([list, []]) == ThreeWrites(list, age).data
  {
    var d := (ThirdAppended(henry, list, age).data - {0, 1}) + FileMap([list, []]);
    assert d.Keys == {0, 1, 2};
  }

  /** With the ids 0, 1, 2 listed, installation retires 0 and 1 and keeps 2 after the merged ids. */
  lemma InstallOverThree(s: Store, m: Merge)
    requires s.indexes == [0, 1, 2]
    ensures Install(s, m) == Store(Range(|m.files|) + [2], (s.cache - {0, 1}) + m.cache,
                                   (s.data - {0, 1}) + FileMap(m.files), (s.snapshots - {0, 1}) + m.cache)
  {
    InstallRetiresMergeable(s, m);
    var g := set id | id in Mergeable(s);
    assert g == {0, 1} by {
      assert Mergeable(s) == [0, 1];
    }
    assert s.cache - g == s.cache - {0, 1};
    assert s.data - g == s.data - {0, 1};
    assert s.snapshots - g == s.snapshots - {0, 1};
  }

  /**
   * With two merge files, that installation leaves any store whose maps are
   * the retired ones with the merged ones installed.
   */
  lemma InstallTwoOverThree(s: Store, m: Merge, u: Store)
    requires s.indexes == [0, 1, 2] && |m.files| == 2 && u.indexes == [0, 1, 2]
    requires u.cache == (s.cache - {0, 1}) + m.cache
    requires u.data == (s.data - {0, 1}) + FileMap(m.files)
    requires u.snapshots == (s.snapshots - {0, 1}) + m.cache
    ensures Install(s, m) == u
  {
    InstallOverThree(s, m);
    assert Range(2) == [0, 1];
  }

  /** Installing that merge retires segments 0 and 1 and leaves the store `ThreeWrites` describes. */
  lemma ThirdInstalled(henry: seq<byte>, list: seq<byte>, age: seq<byte>)
    ensures Install(ThirdAppended(henry, list, age), LargeMerge("name", list)) == ThreeWrites(list, age)
  {
    ThirdCacheInstalled(henry, list, age);
    ThirdSnapshotsInstalled(henry, list, age);
    ThirdDataInstalled(henry, list, age);
    InstallTwoOverThree(ThirdAppended(henry, list, age), LargeMerge("name", list), ThreeWrites(list, age));
  }

  /**
   * Installing that merge, as written and as modelled, gives the store
   * `ThreeWrites` describes.
   */
  lemma ThirdInstall(henry: seq<byte>, list: seq<byte>, age: seq<byte>)
    requires |list| > FileMaxLength
    ensures InstallStrict(ThirdAppended(henry, list, age), LargeMerge("name", list)) == Outcome(ThreeWrites(list, age), None)
    ensures Install(ThirdAppended(henry, list, age), LargeMerge("name", list)) == ThreeWrites(list, age)
  {
    var s, m := ThirdAppended(henry, list, age), LargeMerge("name", list);
    assert MergeInv(m, FileMaxLength) by {
      forall id: nat, k | Holds(m.cache, id, k)
        ensures id < |m.files| && Fits(m.cache[id][k], m.files[id])
      {
        assert id == 0;
      }
    }
    assert FilesMatchList(s);
    InstallStrictAgrees(s, m, FileMaxLength);
    ThirdInstalled(henry, list, age);
  }

  /**
   * The third write rotates to segment 2 and compacts; as written and as
   * modelled it leaves the store `ThreeWrites` describes.
   */
  lemma ThirdWrite(henry: seq<byte>, list: seq<byte>, value: string)
    requires |list| > FileMaxLength
    ensures WellFormed(TwoWrites(henry, list))
    ensures WriteStrict(TwoWrites(henry, list), "age", value, FileMaxLength) ==
            Outcome(ThreeWrites(list, EntryBytes("age", value)), None)
    ensures Write(TwoWrites(henry, list), "age", value, FileMaxLength) ==
            Outcome(ThreeWrites(list, EntryBytes("age", value)), None)
  {
    var b := EntryBytes("age", value);
    var s := TwoWrites(henry, list);
    var a := ThirdAppended(henry, list, b);
    var m := LargeMerge("name", list);
    assert WellFormed(s) by {
      forall id: nat, k | Holds(s.cache, id, k)
        ensures id in s.data && Fits(s.cache[id][k], s.data[id])
      {
        assert id == 1;
      }
    }
    ThirdAppend(henry, list, b);
    ThirdCopy(henry, list, b);
    ThirdInstall(henry, list, b);
    assert CompactStrict(a, FileMaxLength) == InstallStrict(a, m);
    assert Compact(a, FileMaxLength) == Outcome(Install(a, m), None);
  }

  /** Each entry of the trace is longer than the limit, whatever its encoding. */
  lemma TraceEntriesRotate()
    ensures |EntryBytes("name", "henry")| > FileMaxLength
    ensures |EntryBytes("name", "list")| > FileMaxLength
    ensures |EntryBytes("age", "123")| > FileMaxLength
  {
    assert |EntryText("name", "henry")| == 11;
    assert |EntryText("name", "list")| == 10;
    assert |EntryText("age", "123")| == 8;
  }

  /**
   * write(name, henry), write(name, list), write(age, 123) on a fresh store
   * with the limit 6 raise nothing and leave `AfterThreeWrites`, as written
   * and as modelled alike.
   */
  lemma ThreeWritesFromFresh()
    ensures var one := OneWrite(EntryBytes("name", "henry"));
            var two := TwoWrites(EntryBytes("name", "henry"), EntryBytes("name", "list"));
            && WriteStrict(Fresh, "name", "henry", FileMaxLength) == Outcome(one, None)
            && Write(Fresh, "name", "henry", FileMaxLength) == Outcome(one, None)
            && WellFormed(one)
            && WriteStrict(one, "name", "list", FileMaxLength) == Outcome(two, None)
            && Write(one, "name", "list", FileMaxLength) == Outcome(two, None)
            && WellFormed(two)
            && WriteStrict(two, "age", "123", FileMaxLength) == Outcome(AfterThreeWrites, None)
            && Write(two, "age", "123", FileMaxLength) == Outcome(AfterThreeWrites, None)
  {
    var henry, list := EntryBytes("name", "henry"), EntryBytes("name", "list");
    TraceEntriesRotate();
    FirstWrite("henry");
    SecondWrite(henry, "list");
    ThirdWrite(henry, list, "123");
  }

  /** The three writes leave a consistent store. */
  lemma ThreeWritesConsistent(name: seq<byte>, age: seq<byte>)
    ensures Consistent(ThreeWrites(name, age))
  {
    var s := ThreeWrites(name, age);
    assert s.cache.Keys == {0, 2} && s.data.Keys == {0, 1, 2};
    forall id: nat, k | Holds(s.cache, id, k)
      ensures id in s.data && Fits(s.cache[id][k], s.data[id])
    {
      assert id == 0 || id == 2;
    }
  }

  /** In that store `name` reads as its second value, the whole entry `name:list;`. */
  lemma ThreeWritesReadsName(name: seq<byte>, age: seq<byte>)
    ensures var s := ThreeWrites(name, age);
            Readable(s.cache, s.data, "name") && Lookup(s.cache, s.data, "name") == Some(name)
  {
    var s := ThreeWrites(name, age);
    assert Holds(s.cache, 0, "name") && !Holds(s.cache, 2, "name");
    assert Newest(s.cache, "name") == Some(0);
    assert name[0..|name|] == name;
  }

  /** Only segment 0 holds `name` after the three writes. */
  lemma OnlySegmentZeroHoldsName(name: seq<byte>, age: seq<byte>)
    ensures forall id: nat :: id != 0 ==> !Holds(ThreeWrites(name, age).cache, id, "name")
  {
    var c := ThreeWrites(name, age).cache;
    assert c.Keys == {0, 2} && "name" !in c[2];
  }

  /**
   * Strict retirement over the list [0, 1, 2, 3] through id 2, where id 0 has
   * both files and id 1 has its data file but no cache file: id 0 is retired,
   * id 1's data file is deleted, and the missing cache file raises.
   */
  lemma RetireStopsAtMissingCacheFile(s: Store)
    requires s.indexes == [0, 1, 2, 3]
    requires 0 in s.data && 0 in s.snapshots && 1 in s.data && 1 !in s.snapshots
    ensures RetireStrict(s, 2) ==
              Outcome(Store([1, 2, 3], s.cache - {0}, s.data - {0} - {1}, s.snapshots - {0}), Some(MissingCacheFile(1)))
  {
    var t := Store([1, 2, 3], s.cache - {0}, s.data - {0}, s.snapshots - {0});
    assert s.indexes[1..] == [1, 2, 3];
    assert RetireStrict(s, 2) == RetireStrict(t, 2);
    assert t.indexes[0] == 1 && 1 in t.data && 1 !in t.snapshots;
  }

  /** An append to an over-long active segment rotates to the next id, which has no file yet. */
  lemma RotatingAppend(s: Store, key: Key, bytes: seq<byte>, limit: nat)
    requires |s.indexes| > 0 && Active(s) in s.data && |s.data[Active(s)]| > limit
    requires Active(s) + 1 !in s.data
    ensures var a := Append(s, key, bytes, |bytes|, limit);
            && a.rotated && a.fault.None?
            && a.store.indexes == s.indexes + [Active(s) + 1]
            && a.store.data.Keys == s.data.Keys + {Active(s) + 1}
            && a.store.snapshots.Keys == s.snapshots.Keys + {Active(s) + 1}
            && a.store.cache == Put(s.cache, Active(s) + 1, key, Record(0, |bytes|))
  {
    AppendOnlyExtendsTarget(s, key, bytes, |bytes|, limit);
  }

  /**
   * The append part of the fourth write, once the age entry is longer than
   * the limit: it rotates to segment 3 without a fault; ids 0 and 1 keep
   * their data files, and id 1 still has no cache file.
   */
  lemma FourthWriteRotates(name: seq<byte>, age: seq<byte>, bytes: seq<byte>)
    requires |age| > FileMaxLength
    ensures var a := Append(ThreeWrites(name, age), "x", bytes, |bytes|, FileMaxLength);
            && a.rotated && a.fault.None?
            && a.store.indexes == [0, 1, 2, 3]
            && 0 in a.store.data && 0 in a.store.snapshots && 1 in a.store.data && 1 !in a.store.snapshots
  {
    RotatingAppend(ThreeWrites(name, age), "x", bytes, FileMaxLength);
  }

  /** After the append part of the fourth write, still only segment 0 holds `name`. */
  lemma FourthWriteKeepsName(name: seq<byte>, age: seq<byte>, bytes: seq<byte>)
    requires |age| > FileMaxLength
    ensures var c := Append(ThreeWrites(name, age), "x", bytes, |bytes|, FileMaxLength).store.cache;
            && Holds(c, 0, "name") && |c[0]| > 0
            && (forall id: nat :: id != 0 ==> !Holds(c, id, "name"))
  {
    var s := ThreeWrites(name, age);
    var c := Append(s, "x", bytes, |bytes|, FileMaxLength).store.cache;
    assert c == Put(s.cache, 3, "x", Record(0, |bytes|)) by {
      RotatingAppend(s, "x", bytes, FileMaxLength);
    }
    PutKeepsOtherKeys(s.cache, 3, "x", Record(0, |bytes|), "name");
    OnlySegmentZeroHoldsName(name, age);
    assert Holds(s.cache, 0, "name");
    assert forall id: nat :: Holds(c, id, "name") <==> Holds(s.cache, id, "name");
  }

  /** Dropping the only sub-map that holds a key leaves nothing to read for it. */
  lemma DroppedKeyReadsNothing(c: Cache, data: Files, key: Key, id: nat)
    requires forall j: nat :: j != id ==> !Holds(c, j, key)
    ensures Readable(c - {id}, data, key)
    ensures Lookup(c - {id}, data, key) == None
  {
    forall j: nat | j in c - {id}
      ensures key !in (c - {id})[j]
    {
      assert !Holds(c, j, key);
    }
  }

  /**
   * A fourth write rotates to segment 3 and compacts. Strict retirement
   * deletes segment 0's files and sub-map, deletes segment 1's data file,
   * and raises on its missing cache file: the list is left as [1, 2, 3] and
   * the live key `name` can no longer be read. This holds for any entry
   * bytes with an age entry longer than the limit.
   */
  lemma StrictCompactionLosesKeyFor(name: seq<byte>, age: seq<byte>)
    requires |age| > FileMaxLength
    ensures WellFormed(ThreeWrites(name, age))
    ensures var w := WriteStrict(ThreeWrites(name, age), "x", "y", FileMaxLength);
            && w.fault == Some(MissingCacheFile(1))
            && w.store.indexes == [1, 2, 3]
            && Readable(w.store.cache, w.store.data, "name")
            && Lookup(w.store.cache, w.store.data, "name") == None
  {
    var s := ThreeWrites(name, age);
    ThreeWritesConsistent(name, age);
    var bytes := EntryBytes("x", "y");
    var a := Append(s, "x", bytes, |bytes|, FileMaxLength).store;
    FourthWriteRotates(name, age, bytes);
    FourthWriteKeepsName(name, age, bytes);
    FourthWriteCopies(name, age);
    var w := WriteStrict(s, "x", "y", FileMaxLength);
    WriteStrictCompacts(s, "x", "y", FileMaxLength);
    RetireStopsAtMissingCacheFile(a);
    DroppedKeyReadsNothing(a.cache, w.store.data, "name", 0);
  }

  /** The append part of the fourth write leaves a well-formed store whose copy phase writes a merge file. */
  lemma FourthWriteCopies(name: seq<byte>, age: seq<byte>)
    requires |age| > FileMaxLength
    ensures var bytes := EntryBytes("x", "y");
            var a := Append(ThreeWrites(name, age), "x", bytes, |bytes|, FileMaxLength).store;
            && WellFormed(a) && |a.indexes| >= 2
            && CopyPhase(a, FileMaxLength).files != []
  {
    var s := ThreeWrites(name, age);
    var bytes := EntryBytes("x", "y");
    var a := Append(s, "x", bytes, |bytes|, FileMaxLength).store;
    ThreeWritesConsistent(name, age);
    FourthWriteRotates(name, age, bytes);
    FourthWriteKeepsName(name, age, bytes);
    AppendKeepsWellFormed(s, "x", bytes, |bytes|, FileMaxLength);
    FirstSegmentCopied(a, FileMaxLength);
  }

  /** When the first listed id is mergeable and its sub-map is not empty, the copy phase writes a merge file. */
  lemma FirstSegmentCopied(s: Store, limit: nat)
    requires WellFormed(s) && |s.indexes| >= 2
    requires var id := s.indexes[0]; id in s.cache && |s.cache[id]| > 0 && id in s.data
    ensures CopyPhase(s, limit).files != []
  {
    var id := s.indexes[0];
    assert SegmentItems(s, id) != [] by {
      var keys := SortedKeys(s.cache[id].Keys);
      assert |keys| > 0;
    }
    assert Mergeable(s)[0] == id;
    assert VisitItems(s, Mergeable(s)) != [];
  }

  /** After a rotating append that raised nothing, write as written runs the strict task on what it left. */
  lemma WriteStrictCompacts(s: Store, key: Key, value: string, limit: nat)
    requires WellFormed(s)
    requires var a := Append(s, key, EntryBytes(key, value), |EntryBytes(key, value)|, limit);
             a.rotated && a.fault.None? && WellFormed(a.store) && |a.store.indexes| >= 2
    ensures var a := Append(s, key, EntryBytes(key, value), |EntryBytes(key, value)|, limit);
            var m := CopyPhase(a.store, limit);
            m.files != [] ==> WriteStrict(s, key, value, limit) == InstallStrict(a.store, m)
  {
  }

  /**
   * The concrete trace: after write(name, henry), write(name, list),
   * write(age, 123) and write(x, y) with the limit 6, task as written raises
   * on segment 1's missing cache file and read(name) finds nothing.
   */
  lemma StrictCompactionLosesKey()
    ensures WellFormed(AfterThreeWrites)
    ensures var w := WriteStrict(AfterThreeWrites, "x", "y", FileMaxLength);
            && w.fault == Some(MissingCacheFile(1))
            && w.store.indexes == [1, 2, 3]
            && Readable(w.store.cache, w.store.data, "name")
            && Lookup(w.store.cache, w.store.data, "name") == None
  {
    StrictCompactionLosesKeyFor(EntryBytes("name", "list"), EntryBytes("age", "123"));
  }

  /** The same fourth write under the model's compaction still reads `name` as `name:list;`. */
  lemma ModelCompactionKeepsKey()
    ensures Consistent(AfterThreeWrites)
    ensures var r := Write(AfterThreeWrites, "x", "y", FileMaxLength).store;
            && Consistent(r)
            && Readable(r.cache, r.data, "name")
            && Lookup(r.cache, r.data, "name") == Some(EntryBytes("name", "list"))
  {
    var name, age := EntryBytes("name", "list"), EntryBytes("age", "123");
    ThreeWritesConsistent(name, age);
    ThreeWritesReadsName(name, age);
    WriteThenRead(AfterThreeWrites, "x", "y", FileMaxLength, "name");
  }

  /**
   * The whole trace as written, from a fresh store: write(name, henry),
   * write(name, list) and write(age, 123) raise nothing, and write(x, y)
   * raises on segment 1's missing cache file, after which read(name) finds
   * nothing.
   */
  lemma StrictTraceLosesName()
    ensures var one := WriteStrict(Fresh, "name", "henry", FileMaxLength);
            one.fault.None? && WellFormed(one.store) &&
            var two := WriteStrict(one.store, "name", "list", FileMaxLength);
            two.fault.None? && WellFormed(two.store) &&
            var three := WriteStrict(two.store, "age", "123", FileMaxLength);
            three.fault.None? && WellFormed(three.store) &&
            var four := WriteStrict(three.store, "x", "y", FileMaxLength);
            && four.fault == Some(MissingCacheFile(1))
            && Readable(four.store.cache, four.store.data, "name")
            && Lookup(four.store.cache, four.store.data, "name") == None
  {
    ThreeWritesFromFresh();
    StrictCompactionLosesKey();
  }

  /**
   * The same four writes under the model's compaction, from a fresh store:
   * the first three raise nothing, and after the fourth read(name) still
   * returns `name:list;`.
   */
  lemma ModelTraceKeepsName()
    ensures var one := Write(Fresh, "name", "henry", FileMaxLength);
            one.fault.None? && WellFormed(one.store) &&
            var two := Write(one.store, "name", "list", FileMaxLength);
            two.fault.None? && WellFormed(two.store) &&
            var three := Write(two.store, "age", "123", FileMaxLength);
            three.fault.None? && WellFormed(three.store) &&
            var four := Write(three.store, "x", "y", FileMaxLength);
            && Readable(four.store.cache, four.store.data, "name")
            && Lookup(four.store.cache, four.store.data, "name") == Some(EntryBytes("name", "list"))
  {
    ThreeWritesFromFresh();
    ModelCompactionKeepsKey();
  }

  // ---------------------------------------------------------------------
  // 4. The moves meet data files that are already there.
  // ---------------------------------------------------------------------

  /** A segment whose sub-map holds one key, recorded over the whole data file, yields that one entry. */
  lemma OneKeySegment(s: Store, id: nat, key: Key)
    requires RecordsFit(s.cache, s.data)
    requires id in s.cache && id in s.data && s.cache[id].Keys == {key}
    requires s.cache[id][key] == Record(0, |s.data[id]|)
    ensures SegmentItems(s, id) == [Item(key, s.data[id])]
  {
    assert SortedKeys(s.cache[id].Keys) == [key] by {
      assert LeastKey({key}) == key;
    }
    assert s.data[id][0..|s.data[id]|] == s.data[id];
  }

  /** The first write's store is well formed whatever bytes it holds. */
  lemma OneWriteWellFormed(henry: seq<byte>)
    ensures WellFormed(OneWrite(henry))
  {
  }

  /** The store after the append part of write(age, 123) on `OneWrite`: segment 0 was over the limit, so `age` went to segment 1. */
  function CollisionAppended(henry: seq<byte>, age: seq<byte>): Store {
    var c := map[0 := map["name" := Record(0, |henry|)], 1 := map["age" := Record(0, |age|)]];
    Store([0, 1], c, map[0 := henry, 1 := age], c)
  }

  /** That store is well formed. */
  lemma CollisionAppendedWellFormed(henry: seq<byte>, age: seq<byte>)
    ensures WellFormed(CollisionAppended(henry, age))
  {
    var u := CollisionAppended(henry, age);
    forall id: nat, k | Holds(u.cache, id, k)
      ensures id in u.data && Fits(u.cache[id][k], u.data[id])
    {
      assert id == 0 || id == 1;
    }
  }

  /** The append part of write(age, 123) after write(name, henry) rotates to segment 1 at offset 0. */
  lemma CollisionAppend(henry: seq<byte>, age: seq<byte>)
    requires |henry| > FileMaxLength
    ensures Append(OneWrite(henry), "age", age, |age|, FileMaxLength) == Appended(CollisionAppended(henry, age), None, true)
  {
    var s := OneWrite(henry);
    var a := Append(s, "age", age, |age|, FileMaxLength);
    var u := CollisionAppended(henry, age);
    assert a.rotated && a.fault.None?;
    assert a.store.data == u.data by {
      assert [] + age == age;
    }
    assert a.store.cache == u.cache by {
      assert Newest(s.cache, "age") == None by {
        assert !Holds(s.cache, 0, "age");
      }
      assert a.store.cache == Put(s.cache, 1, "age", Record(0, |age|));
    }
  }

  /** Its copy loop visits only segment 0's `name` entry, which fills merge file 0 past the limit and opens merge file 1. */
  lemma CollisionCopy(henry: seq<byte>, age: seq<byte>)
    requires |henry| > FileMaxLength
    ensures WellFormed(CollisionAppended(henry, age))
    ensures CopyPhase(CollisionAppended(henry, age), FileMaxLength) == LargeMerge("name", henry)
  {
    var s := CollisionAppended(henry, age);
    CollisionAppendedWellFormed(henry, age);
    assert Mergeable(s) == [0];
    OneKeySegment(s, 0, "name");
    assert VisitItems(s, [0]) == SegmentItems(s, 0) + [];
    CopyOneLarge(Item("name", henry), FileMaxLength);
  }

  /** What the strict task leaves when the move raises: segment 0 retired, only segment 1 with `age` left. */
  function CollisionRetired(age: seq<byte>): Store {
    var c := map[1 := map["age" := Record(0, |age|)]];
    Store([1], c, map[1 := age], c)
  }

  /** Strict installation of that merge retires segment 0, then raises on moving merge file 1 onto segment 1. */
  lemma CollisionInstallStrict(henry: seq<byte>, age: seq<byte>)
    ensures InstallStrict(CollisionAppended(henry, age), LargeMerge("name", henry)) ==
            Outcome(CollisionRetired(age), Some(SegmentExists(1)))
  {
    var a, m := CollisionAppended(henry, age), LargeMerge("name", henry);
    var t := CollisionRetired(age);
    assert RetireStrict(a, 0) == Outcome(t, None) by {
      assert a.indexes[1..] == [1];
      assert a.cache - {0} == t.cache && a.data - {0} == t.data;
    }
    assert MoveStrict(t, m.files, m.cache, 2) == Outcome(t, Some(SegmentExists(1))) by {
      assert 1 in t.data;
    }
  }

  /** Nothing holds `name` once segment 0 is retired. */
  lemma CollisionRetiredLosesName(age: seq<byte>)
    ensures var t := CollisionRetired(age);
            Readable(t.cache, t.data, "name") && Lookup(t.cache, t.data, "name") == None
  {
    var t := CollisionRetired(age);
    assert t.cache.Keys == {1} && "name" !in t.cache[1];
  }

  /** write(age, value) after write(name, henry), as written, for any over-long `name` entry. */
  lemma StrictCollisionFor(henry: seq<byte>, value: string)
    requires |henry| > FileMaxLength
    ensures WellFormed(OneWrite(henry))
    ensures WriteStrict(OneWrite(henry), "age", value, FileMaxLength) ==
            Outcome(CollisionRetired(EntryBytes("age", value)), Some(SegmentExists(1)))
  {
    var age := EntryBytes("age", value);
    OneWriteWellFormed(henry);
    CollisionAppend(henry, age);
    CollisionCopy(henry, age);
    WriteStrictCompacts(OneWrite(henry), "age", value, FileMaxLength);
    CollisionInstallStrict(henry, age);
  }

  /** The same write with the model's task raises the collision and leaves the append's store. */
  lemma ModelCollisionFor(henry: seq<byte>, value: string)
    requires |henry| > FileMaxLength
    ensures WellFormed(OneWrite(henry))
    ensures Write(OneWrite(henry), "age", value, FileMaxLength) ==
            Outcome(CollisionAppended(henry, EntryBytes("age", value)), Some(MergeCollision(1, 1)))
  {
    var age := EntryBytes("age", value);
    OneWriteWellFormed(henry);
    CollisionAppend(henry, age);
    CollisionCopy(henry, age);
  }

  /** In the append's store both keys read their whole entries. */
  lemma CollisionAppendedReads(henry: seq<byte>, age: seq<byte>)
    ensures var a := CollisionAppended(henry, age);
            && Readable(a.cache, a.data, "name") && Lookup(a.cache, a.data, "name") == Some(henry)
            && Readable(a.cache, a.data, "age") && Lookup(a.cache, a.data, "age") == Some(age)
  {
    var a := CollisionAppended(henry, age);
    assert Newest(a.cache, "name") == Some(0) by {
      assert Holds(a.cache, 0, "name") && !Holds(a.cache, 1, "name");
    }
    assert Newest(a.cache, "age") == Some(1) by {
      assert Holds(a.cache, 1, "age");
    }
    assert henry[0..|henry|] == henry && age[0..|age|] == age;
  }

  /**
   * write(name, henry) and then write(age, 123) on a fresh store, as
   * written: the second write rotates to segment 1 and copies `name` into
   * merge files 0 and 1. Retirement deletes segment 0; moving merge file 1
   * onto segment 1's data file then raises, and read(name) finds nothing.
   */
  lemma StrictCollisionLosesName()
    ensures var one := WriteStrict(Fresh, "name", "henry", FileMaxLength);
            one.fault.None? && WellFormed(one.store) &&
            var two := WriteStrict(one.store, "age", "123", FileMaxLength);
            && two.fault == Some(SegmentExists(1))
            && two.store.indexes == [1]
            && Readable(two.store.cache, two.store.data, "name")
            && Lookup(two.store.cache, two.store.data, "name") == None
  {
    TraceEntriesRotate();
    FirstWrite("henry");
    StrictCollisionFor(EntryBytes("name", "henry"), "123");
    CollisionRetiredLosesName(EntryBytes("age", "123"));
  }

  /**
   * The same two writes with the model's task: the second raises the
   * collision before retiring anything, and both keys still read their
   * whole entries.
   */
  lemma ModelCollisionKeepsName()
    ensures var one := Write(Fresh, "name", "henry", FileMaxLength);
            one.fault.None? && WellFormed(one.store) &&
            var two := Write(one.store, "age", "123", FileMaxLength);
            && two.fault == Some(MergeCollision(1, 1))
            && Readable(two.store.cache, two.store.data, "name")
            && Lookup(two.store.cache, two.store.data, "name") == Some(EntryBytes("name", "henry"))
            && Readable(two.store.cache, two.store.data, "age")
            && Lookup(two.store.cache, two.store.data, "age") == Some(EntryBytes("age", "123"))
  {
    TraceEntriesRotate();
    FirstWrite("henry");
    ModelCollisionFor(EntryBytes("name", "henry"), "123");
    CollisionAppendedReads(EntryBytes("name", "henry"), EntryBytes("age", "123"));
  }

  // ---------------------------------------------------------------------
  // 5. After a restart, an unlisted data file is still in the way.
  // ---------------------------------------------------------------------

  /** Two ids, listed ascending. */
  lemma SortedPair(x: nat, y: nat)
    requires x < y
    ensures SortedIds({x, y}) == [x, y]
  {
    var ids := SortedIds({x, y});
    assert |{x, y}| == 2;
    assert ids[0] in {x, y} && ids[1] in {x, y} && ids[0] < ids[1];
  }

  /**
   * The store a restart rebuilds from the files the three writes leave:
   * only ids 0 and 2 have cache files, so id 1 is no longer listed although
   * its empty data file is still there.
   */
  function Reloaded(name: seq<byte>, age: seq<byte>): Store {
    var c := ThreeWrites(name, age).cache;
    Store([0, 2], c, map[0 := name, 1 := [], 2 := age], c)
  }

  /** Restarting after the three writes rebuilds `Reloaded`, which is consistent. */
  lemma ReloadThreeWrites(name: seq<byte>, age: seq<byte>)
    ensures Init(ThreeWrites(name, age).data, ThreeWrites(name, age).snapshots) == Reloaded(name, age)
    ensures Consistent(Reloaded(name, age))
  {
    var s := ThreeWrites(name, age);
    assert s.snapshots.Keys == {0, 2};
    SortedPair(0, 2);
    ThreeWritesDurable(name, age);
    ReloadPreservesReads(s, "name");
  }

  /** The three writes' files and cache files agree with their index. */
  lemma ThreeWritesDurable(name: seq<byte>, age: seq<byte>)
    ensures Durable(ThreeWrites(name, age))
  {
    var s := ThreeWrites(name, age);
    ThreeWritesConsistent(name, age);
    assert s.snapshots.Keys == {0, 2};
  }

  /** The store after the append part of write(name, henry) on `Reloaded`: segment 2 was over the limit, so `name` went to segment 3. */
  function RestartAppended(name: seq<byte>, age: seq<byte>, henry: seq<byte>): Store {
    var s := Reloaded(name, age);
    var empty: SubMap := map[];
    var names := map["name" := Record(0, |henry|)];
    Store(s.indexes + [3], s.cache[0 := empty][3 := names], s.data[3 := henry], s.snapshots[3 := names])
  }

  /** That store is well formed. */
  lemma RestartAppendedWellFormed(name: seq<byte>, age: seq<byte>, henry: seq<byte>)
    ensures WellFormed(RestartAppended(name, age, henry))
  {
    var u := RestartAppended(name, age, henry);
    forall id: nat, k | Holds(u.cache, id, k)
      ensures id in u.data && Fits(u.cache[id][k], u.data[id])
    {
      assert id == 2 || id == 3;
    }
  }

  /** That append rotates to segment 3, which has no file yet, and takes `name` out of segment 0's sub-map. */
  lemma RestartAppend(name: seq<byte>, age: seq<byte>, henry: seq<byte>)
    requires |age| > FileMaxLength
    ensures Append(Reloaded(name, age), "name", henry, |henry|, FileMaxLength) ==
            Appended(RestartAppended(name, age, henry), None, true)
  {
    var s := Reloaded(name, age);
    RotatingAppendIs(s, "name", henry, FileMaxLength);
    RestartPut(name, age, henry);
  }

  /** An append that rotates onto a free id writes the entry there at offset 0, indexes it there and saves that sub-map. */
  lemma RotatingAppendIs(s: Store, key: Key, bytes: seq<byte>, limit: nat)
    requires |s.indexes| > 0 && Active(s) in s.data && |s.data[Active(s)]| > limit
    requires Active(s) + 1 !in s.data
    ensures var t := Active(s) + 1;
            var c := Put(s.cache, t, key, Record(0, |bytes|));
            Append(s, key, bytes, |bytes|, limit) ==
              Appended(Store(s.indexes + [t], c, s.data[t := bytes], s.snapshots[t := c[t]]), None, true)
  {
    var t := Active(s) + 1;
    assert [] + bytes == bytes;
    assert s.data[t := []][t := bytes] == s.data[t := bytes];
  }

  /** Indexing `name` in segment 3 takes it out of segment 0's sub-map and leaves segment 2's alone. */
  lemma RestartPut(name: seq<byte>, age: seq<byte>, henry: seq<byte>)
    ensures Put(Reloaded(name, age).cache, 3, "name", Record(0, |henry|)) == RestartAppended(name, age, henry).cache
  {
    var c := Reloaded(name, age).cache;
    var empty: SubMap := map[];
    assert Newest(c, "name") == Some(0) by {
      assert Holds(c, 0, "name") && !Holds(c, 2, "name");
    }
    assert c[0] - {"name"} == empty;
    assert 3 !in c;
  }

  /** Its copy loop skips the emptied segment 0 and copies segment 2's `age` entry, which fills merge file 0 past the limit. */
  lemma RestartCopy(name: seq<byte>, age: seq<byte>, henry: seq<byte>)
    requires |age| > FileMaxLength
    ensures WellFormed(RestartAppended(name, age, henry))
    ensures CopyPhase(RestartAppended(name, age, henry), FileMaxLength) == LargeMerge("age", age)
  {
    var s := RestartAppended(name, age, henry);
    RestartAppendedWellFormed(name, age, henry);
    assert Mergeable(s) == [0, 2];
    assert SegmentItems(s, 0) == [];
    OneKeySegment(s, 2, "age");
    VisitSecondOnly(s, 0, 2);
    CopyOneLarge(Item("age", age), FileMaxLength);
  }

  /** Strict installation of that merge retires ids 0 and 2, then raises on moving merge file 1 onto id 1's data file. */
  lemma RestartInstallStrict(name: seq<byte>, age: seq<byte>, henry: seq<byte>)
    ensures var a := RestartAppended(name, age, henry);
            InstallStrict(a, LargeMerge("age", age)) == Outcome(Retired(a), Some(SegmentExists(1)))
  {
    var a, m := RestartAppended(name, age, henry), LargeMerge("age", age);
    RestartRetireStrict(name, age, henry);
    RestartRetiredLosesAge(name, age, henry);
    assert MoveStrict(Retired(a), m.files, m.cache, 2) == Outcome(Retired(a), Some(SegmentExists(1)));
  }

  /** Strict retirement through id 2 finds both files of ids 0 and 2 and retires them. */
  lemma RestartRetireStrict(name: seq<byte>, age: seq<byte>, henry: seq<byte>)
    ensures var a := RestartAppended(name, age, henry);
            a.indexes[1] == 2 && RetireStrict(a, 2) == Outcome(Retired(a), None)
  {
    var a := RestartAppended(name, age, henry);
    assert a.indexes == [0, 2, 3];
    assert forall id :: id in a.indexes ==> id in a.data && id in a.snapshots;
    StrictRetiresMergeable(a);
  }

  /** Once ids 0 and 2 are retired only segment 3 is listed, id 1's data file is still there, and nothing holds `age`. */
  lemma RestartRetiredLosesAge(name: seq<byte>, age: seq<byte>, henry: seq<byte>)
    ensures var t := Retired(RestartAppended(name, age, henry));
            t.indexes == [3] && 1 in t.data && Readable(t.cache, t.data, "age") && Lookup(t.cache, t.data, "age") == None
  {
    var a := RestartAppended(name, age, henry);
    assert Gone(Mergeable(a)) == {0, 2} by {
      assert Mergeable(a) == [0, 2];
    }
    var t := Retired(a);
    assert t.cache.Keys == {3} && "age" !in t.cache[3];
  }

  /** write(name, value) on the reloaded store, as written, for any over-long `age` entry. */
  lemma RestartStrictFor(name: seq<byte>, age: seq<byte>, value: string)
    requires |age| > FileMaxLength
    ensures WellFormed(Reloaded(name, age))
    ensures WriteStrict(Reloaded(name, age), "name", value, FileMaxLength) ==
            Outcome(Retired(RestartAppended(name, age, EntryBytes("name", value))), Some(SegmentExists(1)))
  {
    var henry := EntryBytes("name", value);
    ReloadThreeWrites(name, age);
    RestartAppend(name, age, henry);
    RestartCopy(name, age, henry);
    WriteStrictCompacts(Reloaded(name, age), "name", value, FileMaxLength);
    RestartInstallStrict(name, age, henry);
  }

  /**
   * After the three writes and a restart, write(name, henry) as written:
   * the append rotates to segment 3 and the copy loop writes `age` into
   * merge files 0 and 1. Retirement deletes ids 0 and 2, then moving merge
   * file 1 onto the data file id 1 left behind raises, and read(age) finds
   * nothing.
   */
  lemma RestartStrictLosesAge()
    ensures var s := Init(AfterThreeWrites.data, AfterThreeWrites.snapshots);
            && WellFormed(s) && s.indexes == [0, 2]
            && var w := WriteStrict(s, "name", "henry", FileMaxLength);
            && w.fault == Some(SegmentExists(1))
            && w.store.indexes == [3]
            && Readable(w.store.cache, w.store.data, "age")
            && Lookup(w.store.cache, w.store.data, "age") == None
  {
    var name, age := EntryBytes("name", "list"), EntryBytes("age", "123");
    TraceEntriesRotate();
    ReloadThreeWrites(name, age);
    RestartStrictFor(name, age, "henry");
    RestartRetiredLosesAge(name, age, EntryBytes("name", "henry"));
  }

  /** In the three writes' store `age` reads its whole entry. */
  lemma ThreeWritesReadsAge(name: seq<byte>, age: seq<byte>)
    ensures var s := ThreeWrites(name, age);
            Readable(s.cache, s.data, "age") && Lookup(s.cache, s.data, "age") == Some(age)
  {
    var s := ThreeWrites(name, age);
    assert Holds(s.cache, 2, "age");
    assert Newest(s.cache, "age") == Some(2);
    assert age[0..|age|] == age;
  }

  /**
   * The same restart and write with the model's task: read(age) still
   * returns `age:123;`, and read(name) returns the new entry.
   */
  lemma RestartModelKeepsAge()
    ensures var s := Init(AfterThreeWrites.data, AfterThreeWrites.snapshots);
            && Consistent(s) && s.indexes == [0, 2]
            && var w := Write(s, "name", "henry", FileMaxLength).store;
            && Readable(w.cache, w.data, "age")
            && Lookup(w.cache, w.data, "age") == Some(EntryBytes("age", "123"))
            && Readable(w.cache, w.data, "name")
            && Lookup(w.cache, w.data, "name") == Some(EntryBytes("name", "henry"))
  {
    var name, age := EntryBytes("name", "list"), EntryBytes("age", "123");
    ThreeWritesDurable(name, age);
    ReloadPreservesReads(AfterThreeWrites, "age");
    ReloadThreeWrites(name, age);
    ThreeWritesReadsAge(name, age);
    var s := Init(AfterThreeWrites.data, AfterThreeWrites.snapshots);
    WriteThenRead(s, "name", "henry", FileMaxLength, "age");
    WriteThenRead(s, "name", "henry", FileMaxLength, "name");
  }
}
