/** The LRU type of package simplelru: a single-threaded cache with a
    capacity (0 = unlimited), a TTL (0 = never expires) and an optional
    eviction callback. The recency list and the key index are fields the
    methods update in place; each method is proved to perform the matching
    transition of LruModel and to keep the invariant Coherent. */
module SimpleLru {
  import opened Seqs
  import opened LruModel

  class LRU<K(==), V> {
    /** Capacity; 0 means unlimited. Resize may set any value. */
    var size: int
    /** TTL in nanoseconds; 0 means entries never expire. */
    var ttl: int
    /** Whether an eviction callback was given. */
    var hasCallback: bool
    /** evictList, front (index 0) = most recently used. */
    var list: seq<Entry<K, V>>
    /** cache: key -> element of evictList (or a nil element). */
    var index: map<Nilable<K>, Handle>
    /** The (key, value) pairs the callback has been called with, in order. */
    var evictLog: seq<(Nilable<K>, Nilable<V>)>

    function Model(): Store<K, V>
      reads this
    {
      Store(list, index, evictLog)
    }

    /** The list/index invariant and the capacity bound. */
    predicate Valid()
      reads this
    {
      Coherent(Model()) && WithinCapacity(list, size)
    }

    /** NewLRU: sizes and TTLs of zero or below mean "no limit"; both
        structures start empty. */
    constructor (size: int, ttl: int, hasCallback: bool)
      ensures Valid()
      ensures this.size == (if size <= 0 then 0 else size) && this.size >= 0
      ensures this.ttl == (if ttl <= 0 then 0 else ttl) && this.ttl >= 0
      ensures this.hasCallback == hasCallback
      ensures list == [] && index == map[] && evictLog == []
    {
      this.size := if size <= 0 then 0 else size;
      this.ttl := if ttl <= 0 then 0 else ttl;
      this.hasCallback := hasCallback;
      list := [];
      index := map[];
      evictLog := [];
    }

    /** removeElement: unlink the entry at position i, drop its key from the
        index, and call the callback with it. */
    method RemoveElement(i: nat)
      requires Valid() && i < |list|
      modifies this`list, this`index, this`evictLog
      ensures Valid()
      ensures Model() == RemoveAt(old(Model()), i, hasCallback)
      ensures old(list)[i].key !in index && !Listed(list, old(list)[i].key)
    {
      RemoveAtSpec(Model(), i, hasCallback);
      var e := list[i];
      list := Drop(list, i);
      index := index - {e.key};
      if hasCallback {
        evictLog := evictLog + [Evicted(e)];
      }
    }

    /** removeOldest: remove the back entry, if there is one. */
    method EvictOldest()
      requires Valid()
      modifies this`list, this`index, this`evictLog
      ensures Valid()
      ensures Model() == DropOldest(old(Model()), hasCallback)
    {
      if |list| > 0 {
        RemoveElement(|list| - 1);
      }
    }

    /** Set(k, v) at time now. Nil keys and values are ignored. An indexed
        key must have a live handle: with a nil one the code dereferences
        nil and panics. */
    method Set(k: Nilable<K>, v: Nilable<V>, now: int)
      requires Valid()
      requires k.Val? && v.Val? ==> !Dangling(Model(), k)
      modifies this`list, this`index, this`evictLog
      ensures Valid()
      ensures Model() == SetStep(old(Model()), size, k, v, now, hasCallback)
      ensures |list| <= |old(list)|
    {
      ghost var st := Model();
      SetNeverGrows(st, size, k, v, now, hasCallback);
      if k.Nil? || v.Nil? {
        return;
      }
      RefreshKeepsCoherence(st, k, v, now);
      var e := Entry(k, v, now);
      if k in index {
        var i := Position(list, k);
        list := Promote(list[i := e], i);
      } else {
        index := index[k := Null];
      }
      assert Model() == Refresh(st, k, v, now);
      if size != 0 && |list| > size {
        EvictOldest();
      }
    }

    /** Get(k) at time now. A key that is indexed and not expired moves to
        the front and its value is returned, found only when that value is
        not nil; otherwise nothing changes and (nil, false) is returned. An
        indexed key must have a live handle (else the code panics). */
    method Get(k: Nilable<K>, now: int) returns (v: Nilable<V>, ok: bool)
      requires Valid() && !Dangling(Model(), k)
      modifies this`list
      ensures Valid()
      ensures var hit := k in old(index) && !Expired(old(Model()), ttl, k, now);
        if hit then
          var i := Position(old(list), k);
          && list == Promote(old(list), i)
          && v == old(list)[i].value && ok == old(list)[i].value.Val?
        else
          list == old(list) && v == Nil && !ok
    {
      if k in index && !Expired(Model(), ttl, k, now) {
        var i := Position(list, k);
        var e := list[i];
        PromoteKeepsCoherence(Model(), i);
        list := Promote(list, i);
        if e.value.Nil? {
          return Nil, false;
        }
        return e.value, true;
      }
      return Nil, false;
    }

    /** Contains(k) at time now: indexed and not expired. With a TTL a nil
        handle panics; without one, a key indexed with a nil handle is
        reported as present. */
    function Contains(k: Nilable<K>, now: int): (b: bool)
      reads this
      requires Valid() && (ttl != 0 ==> !Dangling(Model(), k))
      ensures b <==> k in index && (ttl == 0 || now - list[Position(list, k)].updatedAt <= ttl)
    {
      k in index && !Expired(Model(), ttl, k, now)
    }

    /** Peek(k) at time now: like Get without moving anything, except that
        the found flag reports whether k is indexed, so an expired entry
        yields (nil, true). */
    function Peek(k: Nilable<K>, now: int): (r: (Nilable<V>, bool))
      reads this
      requires Valid() && !Dangling(Model(), k)
      ensures r.1 <==> k in index
      ensures r.0 == if Contains(k, now) then list[Position(list, k)].value else Nil
    {
      if k in index && !Expired(Model(), ttl, k, now) then (list[Position(list, k)].value, true)
      else (Nil, k in index)
    }

    /** Remove(k): deletes an indexed key from list and index (expired or
        not), calls the callback, and reports whether it was indexed. An
        indexed key must have a live handle (else the code panics). */
    method Remove(k: Nilable<K>) returns (removed: bool)
      requires Valid() && !Dangling(Model(), k)
      modifies this`list, this`index, this`evictLog
      ensures Valid()
      ensures removed <==> k in old(index)
      ensures removed ==> Model() == RemoveAt(old(Model()), Position(old(list), k), hasCallback)
      ensures !removed ==> Model() == old(Model())
      ensures k !in index && !Listed(list, k)
    {
      if k in index {
        var i := Position(list, k);
        RemoveElement(i);
        return true;
      }
      assert !Listed(list, k) by {
        forall j | 0 <= j < |list| ensures list[j].key != k {
          assert list[j].key in index;
        }
      }
      return false;
    }

    /** RemoveOldest(): removes and returns the back entry, expired or not;
        (nil, nil, false) with nothing changed when the list is empty. */
    method RemoveOldest() returns (k: Nilable<K>, v: Nilable<V>, ok: bool)
      requires Valid()
      modifies this`list, this`index, this`evictLog
      ensures Valid()
      ensures ok <==> old(list) != []
      ensures ok ==> k == old(list)[|old(list)| - 1].key && v == old(list)[|old(list)| - 1].value
      ensures !ok ==> k == Nil && v == Nil
      ensures Model() == DropOldest(old(Model()), hasCallback)
    {
      if |list| > 0 {
        var e := list[|list| - 1];
        RemoveElement(|list| - 1);
        return e.key, e.value, true;
      }
      return Nil, Nil, false;
    }

    /** Len(): the number of list entries, expired ones included; it equals
        the number of keys indexed with a live handle. */
    function Len(): (n: nat)
      reads this
      requires Valid()
      ensures n == |set q | q in index && index[q] == Live|
    {
      LiveCount(Model());
      |list|
    }

    /** Keys() at time now: starting at the back, the keys of the entries
        met before the first expired one, oldest first (UnexpiredTailSpec
        spells out which keys these are). */
    method Keys(now: int) returns (keys: seq<Nilable<K>>)
      requires Valid()
      ensures keys == UnexpiredTail(list, ttl, now, |list|)
    {
      var st := Model();
      keys := [];
      var i: nat := |st.list|;
      while i > 0 && !Expired(st, ttl, st.list[i - 1].key, now)
        invariant i <= |st.list|
        invariant keys + UnexpiredTail(st.list, ttl, now, i) == UnexpiredTail(st.list, ttl, now, |st.list|)
      {
        UnexpiredTailCons(st, ttl, now, i, keys, UnexpiredTail(st.list, ttl, now, |st.list|));
        keys := keys + [st.list[i - 1].key];
        i := i - 1;
      }
      if i > 0 {
        UnexpiredTailStop(st, ttl, now, i);
      }
      assert UnexpiredTail(st.list, ttl, now, i) == [];
    }

    /** Purge(): deletes every indexed key, calling the callback with each
        key and the value of its entry (in map order, which is unspecified),
        then empties the list. With a callback, a nil handle is
        dereferenced and panics, so none may be present. */
    method Purge()
      requires Valid()
      requires hasCallback ==> forall q :: q in index ==> index[q] == Live
      modifies this`list, this`index, this`evictLog
      ensures Valid() && list == [] && index == map[]
      ensures |evictLog| >= |old(evictLog)| && evictLog[..|old(evictLog)|] == old(evictLog)
      ensures !hasCallback ==> evictLog == old(evictLog)
      ensures hasCallback ==> multiset(evictLog[|old(evictLog)|..]) == multiset(Pairs(old(list)))
    {
      // The callback's calls, in the order the walk makes them.
      var cache, reported := index, [];
      ghost var rest := list;
      if hasCallback {
        ReportedInit(Model());
      }
      while cache != map[]
        modifies {}
        invariant !hasCallback ==> reported == []
        invariant hasCallback ==> Reported(list, cache, rest, reported)
        decreases |cache|
      {
        var q :| q in cache;
        if hasCallback {
          ReportedStep(list, cache, rest, reported, q);
          rest := Drop(rest, Position(rest, q));
          reported := reported + [Evicted(list[Position(list, q)])];
        }
        cache := cache - {q};
      }
      if hasCallback {
        ReportedAll(list, rest, reported);
      }
      index, evictLog := cache, evictLog + reported;
      assert evictLog[|old(evictLog)|..] == reported;
      list := [];
    }

    /** Resize(n): removes the oldest entry max(0, Len - n) times (which
        stops removing anything once the list is empty), sets the capacity
        to n as given, and returns that count. */
    method Resize(n: int) returns (diff: int)
      requires Valid()
      modifies this
      ensures Valid()
      ensures diff == if |old(list)| > n then |old(list)| - n else 0
      ensures Model() == DropOldestTimes(old(Model()), diff, hasCallback)
      ensures list == old(list)[..|old(list)| - (if diff <= |old(list)| then diff else |old(list)|)]
      ensures evictLog == old(evictLog) + (if hasCallback then BackPairs(old(list), |old(list)| - |list|) else [])
      ensures size == n && ttl == old(ttl) && hasCallback == old(hasCallback)
    {
      diff := |list| - n;
      if diff < 0 {
        diff := 0;
      }
      ghost var st := Model();
      for i := 0 to diff
        modifies this`list, this`index, this`evictLog
        invariant Valid()
        invariant Model() == DropOldestTimes(st, i, hasCallback)
      {
        EvictOldest();
      }
      DropOldestTimesSpec(st, diff, hasCallback);
      ResizeFits(st, n, hasCallback);
      assert DroppedBack(st, Model(), if diff <= |st.list| then diff else |st.list|, hasCallback);
      size := n;
    }
  }
}
