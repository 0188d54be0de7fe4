/**
 * The in-memory index: segment id -> (key -> Record). A Record brackets one
 * log entry inside its segment. Lookups walk the ids from the highest down and
 * stop at the first sub-map holding the key, so the answer is always the
 * highest id that holds it.
 */
module Index {
  import opened Wrappers
  import opened Ordering

  type Key = string

  /** Position and length, in bytes, of one entry inside a segment. */
  datatype Record = Record(offset: nat, size: nat)

  type SubMap = map<Key, Record>

  type Cache = map<nat, SubMap>

  predicate Holds(c: Cache, id: nat, key: Key) {
    id in c && key in c[id]
  }

  /** The ids whose sub-map holds `key`. */
  function Hits(c: Cache, key: Key): (r: set<nat>)
    ensures forall id: nat :: id in r <==> Holds(c, id, key)
  {
    set id | id in c && key in c[id]
  }

  /**
   * The id the descending walk stops at: the highest id whose sub-map holds
   * `key`, or None when no sub-map holds it.
   */
  function Newest(c: Cache, key: Key): (r: Option<nat>)
    ensures r.None? <==> forall id: nat :: id in c ==> key !in c[id]
    ensures r.Some? ==> Holds(c, r.value, key)
    ensures r.Some? ==> forall id: nat :: Holds(c, id, key) ==> id <= r.value
  {
    var hits := Hits(c, key);
    if hits == {} then
      assert forall id: nat :: id in c ==> key !in c[id] by {
        forall id: nat | id in c
          ensures key !in c[id]
        {
          assert id !in hits;
        }
      }
      None
    else
      Some(MaxId(hits))
  }

  /**
   * The record a read uses: none when no sub-map holds `key`, otherwise the
   * one stored under `key` by a sub-map no higher holder overrides.
   */
  function Find(c: Cache, key: Key): (r: Option<Record>)
    ensures r.None? <==> forall id: nat :: !Holds(c, id, key)
    ensures r.Some? ==> exists id: nat :: Holds(c, id, key) && c[id][key] == r.value &&
                                        forall j: nat :: Holds(c, j, key) ==> j <= id
  {
    match Newest(c, key)
    case None => None
    case Some(id) => Some(c[id][key])
  }

  /** Every key is held by at most one sub-map. */
  ghost predicate Unique(c: Cache) {
    forall i, j, k :: Holds(c, i, k) && Holds(c, j, k) ==> i == j
  }

  /**
   * putCacheMap: drop `key` from the first sub-map of the descending walk that
   * holds it (and from no other), then store `rec` under `key` in the sub-map
   * of the active id, creating that sub-map when absent.
   */
  function Put(c: Cache, active: nat, key: Key, rec: Record): (r: Cache)
    ensures r.Keys == c.Keys + {active}
    ensures Holds(r, active, key) && r[active][key] == rec
    ensures forall id: nat :: id in c && id != active ==>
              r[id] == if Newest(c, key) == Some(id) then c[id] - {key} else c[id]
    ensures forall k :: k != key && k in r[active] ==> Holds(c, active, k) && r[active][k] == c[active][k]
    ensures forall k :: k != key && Holds(c, active, k) ==> k in r[active]
  {
    var removed :=
      match Newest(c, key)
      case None => c
      case Some(id) => c[id := c[id] - {key}];
    var sub := if active in removed then removed[active] else map[];
    removed[active := sub[key := rec]]
  }

  /** putCacheMap leaves the ids holding any other key as they were. */
  lemma PutKeepsOtherHits(c: Cache, active: nat, key: Key, rec: Record, k: Key)
    requires k != key
    ensures Hits(Put(c, active, key, rec), k) == Hits(c, k)
  {
    var r := Put(c, active, key, rec);
    assert Hits(r, k) == Hits(c, k);
  }

  /** Only `key`'s entries move: every other key is held by the same sub-maps and found where it was. */
  lemma PutKeepsOtherKeys(c: Cache, active: nat, key: Key, rec: Record, k: Key)
    requires k != key
    ensures Hits(Put(c, active, key, rec), k) == Hits(c, k)
    ensures Find(Put(c, active, key, rec), k) == Find(c, k)
  {
    PutKeepsOtherHits(c, active, key, rec, k);
  }

  /** When no id exceeds the active one, the key is afterwards found in the active sub-map. */
  lemma PutMakesActiveNewest(c: Cache, active: nat, key: Key, rec: Record)
    requires forall id: nat :: id in c ==> id <= active
    ensures Newest(Put(c, active, key, rec), key) == Some(active)
    ensures Find(Put(c, active, key, rec), key) == Some(rec)
  {
  }

  /** putCacheMap keeps the at-most-one-sub-map-per-key invariant. */
  lemma PutPreservesUnique(c: Cache, active: nat, key: Key, rec: Record)
    requires Unique(c)
    ensures Unique(Put(c, active, key, rec))
  {
    var r := Put(c, active, key, rec);
    forall i, j, k | Holds(r, i, k) && Holds(r, j, k)
      ensures i == j
    {
      if k == key {
        // The key survives only in the active sub-map: its one old holder lost it.
        forall x: nat | x != active && Holds(r, x, key)
          ensures false
        {
          assert Holds(c, x, key);
        }
      } else {
        assert Holds(c, i, k) && Holds(c, j, k);
      }
    }
  }
}
