/** The API server's in-memory cache of finished videos, the `Map`
    `mp4outputQueue` from id to `{ts, opt}`, and `updateOutputQueue`, which
    evicts one entry when there are more than three and then stores the new
    video. A JavaScript `Map` keeps its keys in insertion order (setting an
    existing key keeps its place), so the cache is modelled as that key
    order together with the entries. */
module OutputCache {
  import opened Seqs

  /** `{ts, opt}`: when a video was converted and its bytes. */
  datatype CachedVideo = CachedVideo(ts: nat, opt: seq<bv8>)

  /** The contents of the Map: its keys in insertion order and its entries. */
  datatype Store = Store(keys: seq<string>, entries: map<string, CachedVideo>)

  /** The keys are distinct and are exactly the keys of the entries. */
  predicate WellFormed(s: Store) {
    Distinct(s.keys) &&
    (forall k :: k in s.entries ==> k in s.keys) &&
    (forall k :: k in s.keys ==> k in s.entries)
  }

  /** The position of `cachedVideos[0]` after sorting the keys with the
      comparator `b.ts - a.ts`: the first key, in insertion order, whose
      timestamp is the greatest (the sort is stable). */
  function NewestIndex(keys: seq<string>, entries: map<string, CachedVideo>): (i: nat)
    requires |keys| > 0 && forall k :: k in keys ==> k in entries
    ensures i < |keys|
    ensures forall j :: 0 <= j < |keys| ==> entries[keys[j]].ts <= entries[keys[i]].ts
    ensures forall j :: 0 <= j < i ==> entries[keys[j]].ts < entries[keys[i]].ts
  {
    if |keys| == 1 then 0
    else
      var j := NewestIndex(keys[1..], entries) + 1;
      assert forall m :: 1 <= m < |keys| ==> keys[m] == keys[1..][m - 1];
      if entries[keys[0]].ts >= entries[keys[j]].ts then 0 else j
  }

  /** `mp4outputQueue.delete(cachedVideos[0])` when there are more than three
      keys; otherwise the Map as it was. */
  function Evict(s: Store): (r: Store)
    requires WellFormed(s)
  {
    if |s.keys| > 3 then
      var i := NewestIndex(s.keys, s.entries);
      Store(s.keys[..i] + s.keys[i + 1..], s.entries - {s.keys[i]})
    else s
  }

  /** `mp4outputQueue.set(id, v)`: a new key goes last, an existing key keeps
      its place. */
  function Put(s: Store, id: string, v: CachedVideo): Store {
    Store(if id in s.entries then s.keys else s.keys + [id], s.entries[id := v])
  }

  /** The Map after `updateOutputQueue({id, ts, opt})`. */
  function Update(s: Store, id: string, v: CachedVideo): Store
    requires WellFormed(s)
  {
    Put(Evict(s), id, v)
  }

  /** The key `updateOutputQueue` deletes, if any. */
  function EvictedKey(s: Store): (k: string)
    requires WellFormed(s) && |s.keys| > 3
  {
    s.keys[NewestIndex(s.keys, s.entries)]
  }

  /** The module-level Map, updated in place. */
  class OutputQueue {
    var keys: seq<string>
    var entries: map<string, CachedVideo>

    ghost predicate Valid()
      reads this
    {
      WellFormed(Store(keys, entries))
    }

    constructor ()
      ensures keys == [] && entries == map[] && Valid()
    {
      keys := [];
      entries := map[];
    }

    /** `mp4outputQueue.has(id)`. */
    predicate Has(id: string)
      reads this
    {
      id in entries
    }

    /** `updateOutputQueue({id, ts, opt})`. */
    method UpdateOutputQueue(id: string, ts: nat, opt: seq<bv8>)
      requires Valid()
      modifies this
      ensures Valid()
      ensures Store(keys, entries) == Update(Store(old(keys), old(entries)), id, CachedVideo(ts, opt))
    {
      ghost var before := Store(keys, entries);
      if |keys| > 3 {
        var newest := NewestIndex(keys, entries);
        entries := entries - {keys[newest]};
        keys := keys[..newest] + keys[newest + 1..];
      }
      assert Store(keys, entries) == Evict(before);
      EvictKeepsWellFormed(before);
      PutKeepsWellFormed(Store(keys, entries), id, CachedVideo(ts, opt));
      if id !in entries {
        keys := keys + [id];
      }
      entries := entries[id := CachedVideo(ts, opt)];
    }
  }

  lemma EvictKeepsWellFormed(s: Store)
    requires WellFormed(s)
    ensures WellFormed(Evict(s))
    ensures |s.keys| > 3 ==> |Evict(s).keys| == |s.keys| - 1
    ensures |s.keys| <= 3 ==> Evict(s) == s
  {
    if |s.keys| > 3 {
      var i := NewestIndex(s.keys, s.entries);
      var rest := s.keys[..i] + s.keys[i + 1..];
      RemoveAtDistinct(s.keys, i);
      assert forall k :: k in rest ==> k in s.keys && k != s.keys[i];
      assert forall k :: k in s.keys && k != s.keys[i] ==> k in rest;
    }
  }

  lemma PutKeepsWellFormed(s: Store, id: string, v: CachedVideo)
    requires WellFormed(s)
    ensures WellFormed(Put(s, id, v))
  {
  }

  /** After the update the new id maps to exactly the new `{ts, opt}`. */
  lemma UpdateStoresNewVideo(s: Store, id: string, v: CachedVideo)
    requires WellFormed(s)
    ensures WellFormed(Update(s, id, v))
    ensures id in Update(s, id, v).entries && Update(s, id, v).entries[id] == v
    ensures id in Update(s, id, v).keys
  {
    EvictKeepsWellFormed(s);
  }

  /** A Map of at most four entries holds at most four after the update. */
  lemma UpdateKeepsAtMostFour(s: Store, id: string, v: CachedVideo)
    requires WellFormed(s) && |s.keys| <= 4
    ensures |Update(s, id, v).keys| <= 4
  {
    EvictKeepsWellFormed(s);
  }

  /** With four or more entries the deleted key is one of greatest `ts`:
      the newest video goes, not the oldest. */
  lemma EvictsGreatestTimestamp(s: Store)
    requires WellFormed(s) && |s.keys| > 3
    ensures EvictedKey(s) in s.entries && EvictedKey(s) !in Evict(s).entries
    ensures forall k :: k in s.entries ==> s.entries[k].ts <= s.entries[EvictedKey(s)].ts
  {
    var i := NewestIndex(s.keys, s.entries);
    forall k | k in s.entries
      ensures s.entries[k].ts <= s.entries[EvictedKey(s)].ts
    {
      var m :| 0 <= m < |s.keys| && s.keys[m] == k;
    }
  }

  /** Every key other than the evicted one and the new id keeps its entry,
      and no key is added besides the new id. */
  lemma UpdateLeavesOthers(s: Store, id: string, v: CachedVideo, k: string)
    requires WellFormed(s) && k != id
    requires |s.keys| > 3 ==> k != EvictedKey(s)
    ensures k in Update(s, id, v).entries <==> k in s.entries
    ensures k in s.entries ==> Update(s, id, v).entries[k] == s.entries[k]
  {
  }

  /** A Map of three entries or fewer loses nothing: the update only sets
      the new id. */
  lemma SmallMapOnlyGrows(s: Store, id: string, v: CachedVideo)
    requires WellFormed(s) && |s.keys| <= 3
    ensures Update(s, id, v).entries == s.entries[id := v]
    ensures Update(s, id, v).keys == if id in s.entries then s.keys else s.keys + [id]
  {
    EvictKeepsWellFormed(s);
  }
}
