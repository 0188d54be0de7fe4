/**
 * The store's state: the ascending list of segment ids (the last one is the
 * active segment), the in-memory index, the data files and the on-disk index
 * snapshots, one per segment id. Files are byte sequences keyed by id.
 */
module State {
  import opened Wrappers
  import opened Ordering
  import opened Codec
  import opened Index

  type Segment = seq<byte>

  type Files = map<nat, Segment>

  datatype Store = Store(
    indexes: seq<nat>,           // segment ids, ascending; the last is active
    cache: Cache,                // id -> (key -> Record), the in-memory index
    data: Files,                 // id -> contents of that segment's data file
    snapshots: map<nat, SubMap>) // id -> the sub-map last saved in that id's cache file

  /** Why an operation raised instead of returning normally. */
  datatype Fault =
    | SegmentExists(id: nat)                       // creating or moving onto a data file that is already there
    | CacheFileExists(id: nat)                     // creating a cache file that is already there
    | MissingSegment(id: nat)                      // deleting a data file that is not there
    | MissingCacheFile(id: nat)                    // deleting a cache file that is not there
    | MergeCollision(mergeIndex: nat, active: nat) // merged ids would reach the active id

  /**
   * The state an operation leaves behind, and the fault it raised, if any.
   * A raising operation may have changed the state before it raised.
   */
  datatype Outcome = Outcome(store: Store, fault: Option<Fault>)

  /** No files, no snapshots, and the single id 0. */
  const Fresh := Store([0], map[], map[], map[])

  /** getCurDataPath: the id of the active segment, the last one of the list. */
  function Active(s: Store): (r: nat)
    requires |s.indexes| > 0
    ensures r in s.indexes
    ensures StrictlyAscending(s.indexes) ==> forall id :: id in s.indexes ==> id <= r
  {
    s.indexes[|s.indexes| - 1]
  }

  /** The record's byte range lies inside the file. */
  predicate Fits(r: Record, file: Segment) {
    r.offset + r.size <= |file|
  }

  /** The bytes a record brackets. */
  function Slice(file: Segment, r: Record): (b: seq<byte>)
    requires Fits(r, file)
    ensures |b| == r.size
  {
    file[r.offset..r.offset + r.size]
  }

  /** Every record of every sub-map lies inside its segment's data file. */
  ghost predicate RecordsFit(c: Cache, data: Files) {
    forall id: nat, k :: Holds(c, id, k) ==> id in data && Fits(c[id][k], data[id])
  }

  /** The record a lookup of `key` finds lies inside its data file. */
  ghost predicate Readable(c: Cache, data: Files, key: Key) {
    match Newest(c, key)
    case None => true
    case Some(id) => id in data && Fits(c[id][key], data[id])
  }

  /**
   * The bytes a lookup of `key` returns: the range the newest record brackets
   * in its segment, or None when no sub-map holds the key.
   */
  function Lookup(c: Cache, data: Files, key: Key): (r: Option<seq<byte>>)
    requires Readable(c, data, key)
    ensures r.None? <==> forall id: nat :: id in c ==> key !in c[id]
  {
    match Newest(c, key)
    case None => None
    case Some(id) => Some(Slice(data[id], c[id][key]))
  }

  /** What every operation needs: a non-empty ascending id list and in-bounds records. */
  ghost predicate WellFormed(s: Store) {
    && |s.indexes| > 0
    && StrictlyAscending(s.indexes)
    && RecordsFit(s.cache, s.data)
  }

  /**
   * What the operations maintain beyond that: every sub-map belongs to a
   * listed id, and no data file lies beyond the active segment.
   */
  ghost predicate Consistent(s: Store) {
    && WellFormed(s)
    && (forall id: nat :: id in s.cache ==> id in s.indexes)
    && (forall id: nat :: id in s.data ==> id <= Active(s))
  }

  lemma FitImpliesReadable(c: Cache, data: Files, key: Key)
    requires RecordsFit(c, data)
    ensures Readable(c, data, key)
  {
  }

  /**
   * Two indexes that hold `key` under the same ids with the same records,
   * over files where the second only extends the first on those ids, answer
   * a lookup of `key` alike.
   */
  lemma LookupAgrees(c1: Cache, d1: Files, c2: Cache, d2: Files, key: Key)
    requires Readable(c1, d1, key)
    requires forall id: nat :: Holds(c1, id, key) <==> Holds(c2, id, key)
    requires forall id: nat :: Holds(c1, id, key) && Holds(c2, id, key) ==> c1[id][key] == c2[id][key]
    requires forall id: nat :: Holds(c1, id, key) ==> id in d1 && id in d2 && d1[id] <= d2[id]
    ensures Readable(c2, d2, key)
    ensures Lookup(c1, d1, key) == Lookup(c2, d2, key)
  {
    assert Hits(c1, key) == Hits(c2, key);
    match Newest(c1, key)
    case None =>
    case Some(id) =>
      var r := c1[id][key];
      assert d2[id][r.offset..r.offset + r.size] == d1[id][r.offset..r.offset + r.size];
  }

  /** Every file of `d1` is still in `d2`, with its old bytes as a prefix. */
  ghost predicate Extends(d1: Files, d2: Files) {
    forall id :: id in d1 ==> id in d2 && d1[id] <= d2[id]
  }

  /** putCacheMap of a record that fits, over files that only grew, keeps every record in bounds. */
  lemma PutKeepsRecordsFit(c: Cache, d1: Files, d2: Files, active: nat, key: Key, rec: Record)
    requires RecordsFit(c, d1) && Extends(d1, d2)
    requires active in d2 && Fits(rec, d2[active])
    ensures RecordsFit(Put(c, active, key, rec), d2)
  {
    var r := Put(c, active, key, rec);
    forall id: nat, k | Holds(r, id, k) && (id != active || k != key)
      ensures id in d2 && Fits(r[id][k], d2[id])
    {
      assert Holds(c, id, k);
    }
  }

  /**
   * putCacheMap on one key, over files that only grew, leaves the lookup of
   * every other key as it was.
   */
  lemma PutKeepsOtherLookups(c: Cache, d1: Files, d2: Files, active: nat, key: Key, rec: Record, k: Key)
    requires RecordsFit(c, d1) && Extends(d1, d2)
    requires k != key
    ensures Readable(Put(c, active, key, rec), d2, k)
    ensures Lookup(Put(c, active, key, rec), d2, k) == Lookup(c, d1, k)
  {
    var r := Put(c, active, key, rec);
    PutKeepsOtherHits(c, active, key, rec, k);
    forall id: nat
      ensures Holds(c, id, k) <==> Holds(r, id, k)
    {
      assert id in Hits(c, k) <==> id in Hits(r, k);
    }
    LookupAgrees(c, d1, r, d2, k);
  }

  /**
   * After putCacheMap into an id no sub-map exceeds, a lookup of the key
   * returns the bytes the new record brackets.
   */
  lemma PutFindsEntry(c: Cache, data: Files, active: nat, key: Key, rec: Record)
    requires forall id: nat :: id in c ==> id <= active
    requires active in data && Fits(rec, data[active])
    ensures Readable(Put(c, active, key, rec), data, key)
    ensures Lookup(Put(c, active, key, rec), data, key) == Some(Slice(data[active], rec))
  {
    PutMakesActiveNewest(c, active, key, rec);
  }

  /**
   * A key the active sub-map holds is found there; so two consistent stores
   * with the same active id, sub-map and data file read it alike.
   */
  lemma ActiveKeyDecides(s: Store, t: Store, key: Key)
    requires Consistent(s) && Consistent(t)
    requires Active(t) == Active(s) && Holds(s.cache, Active(s), key)
    requires Active(s) in t.cache && t.cache[Active(s)] == s.cache[Active(s)]
    requires Active(s) in t.data && t.data[Active(s)] == s.data[Active(s)]
    ensures Lookup(t.cache, t.data, key) == Lookup(s.cache, s.data, key)
  {
    assert forall id: nat :: id in t.cache ==> id <= Active(t);
    assert Holds(t.cache, Active(s), key);
    assert Newest(t.cache, key).Some?;
    assert Newest(s.cache, key) == Some(Active(s));
    assert Newest(t.cache, key) == Some(Active(s));
  }

  /**
   * createFile: make the file when it is missing, leave it alone otherwise.
   */
  function CreateFile(files: Files, id: nat): (r: Files)
    ensures id in r
    ensures r.Keys == files.Keys + {id}
    ensures id in files ==> r == files
    ensures id !in files ==> r[id] == [] && forall j :: j in files ==> r[j] == files[j]
  {
    if id in files then files else files[id := []]
  }

  lemma CreateFileIdempotent(files: Files, id: nat)
    ensures CreateFile(CreateFile(files, id), id) == CreateFile(files, id)
  {
  }
}
