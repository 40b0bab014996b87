/** The search-result cache: an insertion-ordered map from cache keys to result pages
    with a timestamp, holding at most 100 keys, whose entries expire five minutes
    after they were stored. It evicts the oldest inserted key when full; reading an
    entry does not refresh its position. The clock is a parameter. */
module SearchCache {
  import opened Wrappers

  const MaxSize: nat := 100
  /** Five minutes, in milliseconds. */
  const Ttl: int := 5 * 60 * 1000

  datatype CacheEntry<V> = CacheEntry(key: string, results: seq<V>, timestamp: int)

  /** Keys are unique, as in a `Map`. */
  predicate KeysDistinct<V>(es: seq<CacheEntry<V>>) {
    forall i, j :: 0 <= i < j < |es| ==> es[i].key != es[j].key
  }

  predicate HasKey<V>(es: seq<CacheEntry<V>>, key: string) {
    exists i :: 0 <= i < |es| && es[i].key == key
  }

  /** The position of `key`, or the length when it is absent. */
  function IndexOfKey<V>(es: seq<CacheEntry<V>>, key: string): (i: nat)
    ensures i <= |es|
    ensures i < |es| ==> es[i].key == key
    ensures i == |es| <==> !HasKey(es, key)
    ensures forall j :: 0 <= j < i ==> es[j].key != key
  {
    if es == [] then 0
    else if es[0].key == key then 0
    else
      var i := IndexOfKey(es[1..], key);
      assert forall j :: 0 < j < |es| ==> es[j] == es[1..][j - 1];
      1 + i
  }

  /** The state after `cache.get(key)` at time `now`, and its result: a miss leaves the
      map alone; an entry older than the TTL is deleted and reported as a miss. */
  function GetStep<V>(es: seq<CacheEntry<V>>, key: string, now: int): (seq<CacheEntry<V>>, Option<seq<V>>) {
    var i := IndexOfKey(es, key);
    if i == |es| then (es, None)
    else if now - es[i].timestamp > Ttl then (es[..i] + es[i + 1..], None)
    else (es, Some(es[i].results))
  }

  /** `Map.set`: an existing key is updated where it stands, a new key goes last. */
  function Put<V>(es: seq<CacheEntry<V>>, e: CacheEntry<V>): seq<CacheEntry<V>> {
    var i := IndexOfKey(es, e.key);
    if i < |es| then es[i := e] else es + [e]
  }

  /** The state after `cache.set(key, results)` at time `now`. When the map is full the
      first inserted key is deleted first; if that key is the empty string, which is
      falsy, the method returns without storing anything. */
  function SetStep<V>(es: seq<CacheEntry<V>>, key: string, results: seq<V>, now: int): seq<CacheEntry<V>> {
    var e := CacheEntry(key, results, now);
    if |es| >= MaxSize then
      if es[0].key == "" then es else Put(es[1..], e)
    else Put(es, e)
  }

  /** Whether a set at this state returns early without storing. */
  predicate SetAborts<V>(es: seq<CacheEntry<V>>) {
    |es| >= MaxSize && es[0].key == ""
  }

  class SearchCache<V> {
    var entries: seq<CacheEntry<V>>

    ghost predicate Valid()
      reads this
    {
      KeysDistinct(entries) && |entries| <= MaxSize
    }

    constructor()
      ensures entries == [] && Valid()
    {
      entries := [];
    }

    /** `get(key)`. */
    method Get(key: string, now: int) returns (r: Option<seq<V>>)
      requires Valid()
      modifies this
      ensures (entries, r) == GetStep(old(entries), key, now)
      ensures Valid()
    {
      var i := IndexOfKey(entries, key);
      if i == |entries| {
        return None;
      }
      if now - entries[i].timestamp > Ttl {
        GetStepKeepsValid(entries, key, now);
        entries := entries[..i] + entries[i + 1..];
        return None;
      }
      r := Some(entries[i].results);
    }

    /** `set(key, results)`. */
    method Set(key: string, results: seq<V>, now: int)
      requires Valid()
      modifies this
      ensures entries == SetStep(old(entries), key, results, now)
      ensures Valid()
    {
      SetStepKeepsValid(entries, key, results, now);
      if |entries| >= MaxSize {
        var oldestKey := entries[0].key;
        if oldestKey == "" {
          return;
        }
        entries := entries[1..];
      }
      entries := Put(entries, CacheEntry(key, results, now));
    }

    /** `clear()`. */
    method Clear()
      modifies this
      ensures entries == [] && Valid()
    {
      entries := [];
    }

    /** The `size` getter: the number of keys, never more than the capacity. */
    function Size(): (n: nat)
      reads this
      requires Valid()
      ensures n <= MaxSize
      ensures n == |set i | 0 <= i < |entries| :: entries[i].key|
    {
      DistinctKeysCount(entries);
      |entries|
    }
  }

  lemma {:induction false} DistinctKeysCount<V>(es: seq<CacheEntry<V>>)
    requires KeysDistinct(es)
    ensures |set i | 0 <= i < |es| :: es[i].key| == |es|
  {
    if es != [] {
      var init := es[..|es| - 1];
      DistinctKeysCount(init);
      var last := es[|es| - 1].key;
      assert (set i | 0 <= i < |es| :: es[i].key) == (set i | 0 <= i < |init| :: init[i].key) + {last};
      assert last !in (set i | 0 <= i < |init| :: init[i].key);
    }
  }

  lemma PutKeepsDistinct<V>(es: seq<CacheEntry<V>>, e: CacheEntry<V>)
    requires KeysDistinct(es)
    ensures KeysDistinct(Put(es, e))
    ensures |Put(es, e)| == if HasKey(es, e.key) then |es| else |es| + 1
  {
  }

  /** A get keeps the keys distinct and never grows the map. */
  lemma GetStepKeepsValid<V>(es: seq<CacheEntry<V>>, key: string, now: int)
    requires KeysDistinct(es)
    ensures KeysDistinct(GetStep(es, key, now).0)
    ensures |GetStep(es, key, now).0| <= |es|
  {
    var i := IndexOfKey(es, key);
    if i < |es| {
      var r := es[..i] + es[i + 1..];
      forall a, b | 0 <= a < b < |r| ensures r[a].key != r[b].key {
        var a' := if a < i then a else a + 1;
        var b' := if b < i then b else b + 1;
        assert r[a] == es[a'] && r[b] == es[b'];
      }
    }
  }

  /** A set keeps the keys distinct and the map within its capacity. */
  lemma SetStepKeepsValid<V>(es: seq<CacheEntry<V>>, key: string, results: seq<V>, now: int)
    requires KeysDistinct(es) && |es| <= MaxSize
    ensures KeysDistinct(SetStep(es, key, results, now))
    ensures |SetStep(es, key, results, now)| <= MaxSize
  {
    var e := CacheEntry(key, results, now);
    if |es| >= MaxSize && es[0].key != "" {
      PutKeepsDistinct(es[1..], e);
    } else if |es| < MaxSize {
      PutKeepsDistinct(es, e);
    }
  }

  /** Reading back: a key just stored is returned with the stored results at any
      time up to the TTL later, unless the set returned early. */
  lemma SetThenGet<V>(es: seq<CacheEntry<V>>, key: string, results: seq<V>, now: int, later: int)
    requires KeysDistinct(es) && !SetAborts(es)
    requires later - now <= Ttl
    ensures GetStep(SetStep(es, key, results, now), key, later) == (SetStep(es, key, results, now), Some(results))
  {
    var e := CacheEntry(key, results, now);
    var base := if |es| >= MaxSize then es[1..] else es;
    assert SetStep(es, key, results, now) == Put(base, e);
    var i := IndexOfKey(base, key);
    var es' := Put(base, e);
    assert es'[IndexOfKey(base, key)] == e;
    assert KeysDistinct(base);
    PutKeepsDistinct(base, e);
    UniqueIndex(es', key, i);
  }

  lemma UniqueIndex<V>(es: seq<CacheEntry<V>>, key: string, i: nat)
    requires KeysDistinct(es) && i < |es| && es[i].key == key
    ensures IndexOfKey(es, key) == i
  {
  }

  /** Expiry: an entry older than the TTL is reported as a miss and deleted. */
  lemma ExpiredEntryIsDropped<V>(es: seq<CacheEntry<V>>, key: string, now: int)
    requires KeysDistinct(es) && HasKey(es, key)
    requires now - es[IndexOfKey(es, key)].timestamp > Ttl
    ensures GetStep(es, key, now).1 == None
    ensures !HasKey(GetStep(es, key, now).0, key)
    ensures |GetStep(es, key, now).0| == |es| - 1
  {
    var i := IndexOfKey(es, key);
    var r := es[..i] + es[i + 1..];
    forall j | 0 <= j < |r| ensures r[j].key != key {
      if j < i {
        assert r[j] == es[j];
      } else {
        assert r[j] == es[j + 1];
      }
    }
  }

  /** Eviction: storing a new key in a full map deletes the oldest inserted key and
      keeps the map at its capacity; the new key goes last. */
  lemma FullSetEvictsOldest<V>(es: seq<CacheEntry<V>>, key: string, results: seq<V>, now: int)
    requires KeysDistinct(es) && |es| == MaxSize && es[0].key != "" && es[0].key != key
    requires !HasKey(es, key)
    ensures var es' := SetStep(es, key, results, now);
      && |es'| == MaxSize
      && !HasKey(es', es[0].key)
      && es'[|es'| - 1] == CacheEntry(key, results, now)
      && es'[..|es'| - 1] == es[1..]
  {
    var e := CacheEntry(key, results, now);
    var base := es[1..];
    assert !HasKey(base, key) by {
      forall j | 0 <= j < |base| ensures base[j].key != key {
        assert base[j] == es[j + 1];
      }
    }
    var es' := base + [e];
    forall j | 0 <= j < |es'| ensures es'[j].key != es[0].key {
      if j < |base| {
        assert es'[j] == es[j + 1];
      }
    }
  }

  /** Re-setting a key in a map below capacity replaces its entry where it stands:
      the position is kept and the timestamp refreshed to `now`. */
  lemma SetExistingKeyInPlace<V>(es: seq<CacheEntry<V>>, key: string, results: seq<V>, now: int)
    requires KeysDistinct(es) && |es| < MaxSize && HasKey(es, key)
    ensures var i := IndexOfKey(es, key);
      && SetStep(es, key, results, now) == es[i := CacheEntry(key, results, now)]
      && |SetStep(es, key, results, now)| == |es|
  {
  }

  /** A full map evicts its oldest key even when the key being set is already present
      further on: that entry is then replaced in place, so the map shrinks by one. */
  lemma FullSetExistingKeyEvicts<V>(es: seq<CacheEntry<V>>, key: string, results: seq<V>, now: int, i: nat)
    requires KeysDistinct(es) && |es| == MaxSize && es[0].key != ""
    requires 0 < i < |es| && es[i].key == key
    ensures var es' := SetStep(es, key, results, now);
      && es' == es[1..][i - 1 := CacheEntry(key, results, now)]
      && |es'| == MaxSize - 1
      && !HasKey(es', es[0].key)
  {
    var base := es[1..];
    assert base[i - 1] == es[i];
    UniqueIndex(base, key, i - 1);
    var es' := base[i - 1 := CacheEntry(key, results, now)];
    forall j | 0 <= j < |es'| ensures es'[j].key != es[0].key {
      if j != i - 1 {
        assert es'[j] == es[j + 1];
      }
    }
  }

  /** Setting the oldest key of a full map evicts it and stores it again, last. */
  lemma FullSetOldestKeyMovesLast<V>(es: seq<CacheEntry<V>>, results: seq<V>, now: int)
    requires KeysDistinct(es) && |es| == MaxSize && es[0].key != ""
    ensures SetStep(es, es[0].key, results, now) == es[1..] + [CacheEntry(es[0].key, results, now)]
  {
    var key := es[0].key;
    var base := es[1..];
    assert !HasKey(base, key) by {
      forall j | 0 <= j < |base| ensures base[j].key != key {
        assert base[j] == es[j + 1];
      }
    }
  }

  /** A full map whose oldest key is the empty string is left untouched by a set. */
  lemma AbortedSetKeepsMap<V>(es: seq<CacheEntry<V>>, key: string, results: seq<V>, now: int)
    requires SetAborts(es)
    ensures SetStep(es, key, results, now) == es
  {
  }

  /** A hit neither changes nor reorders the map: the eviction order is insertion
      order, not recency of use. */
  lemma HitKeepsOrder<V>(es: seq<CacheEntry<V>>, key: string, now: int)
    requires GetStep(es, key, now).1.Some?
    ensures GetStep(es, key, now).0 == es
    ensures GetStep(es, key, now).1.value == es[IndexOfKey(es, key)].results
    ensures now - es[IndexOfKey(es, key)].timestamp <= Ttl
  {
  }
}
