/** The state of the simplelru cache as a value, and the state transitions
    its operations perform, written as functions so that properties of them
    can be stated and proved as lemmas. The class in SimpleLru is proved to
    perform exactly these transitions. */
module LruModel {
  import opened Seqs

  /** A Go interface{} value: nil, or some concrete value. */
  datatype Nilable<T> = Nil | Val(get: T)

  /** What the index maps a key to: a nil *list.Element, or a live element,
      which is the list slot whose entry has this key. */
  datatype Handle = Null | Live

  /** One element of the recency list; updatedAt is in nanoseconds. */
  datatype Entry<K, V> = Entry(key: Nilable<K>, value: Nilable<V>, updatedAt: int)

  /** The pair handed to the eviction callback. */
  function Evicted<K, V>(e: Entry<K, V>): (Nilable<K>, Nilable<V>)
  {
    (e.key, e.value)
  }

  /** The callback pairs of a run of entries, in list order. */
  function Pairs<K, V>(list: seq<Entry<K, V>>): seq<(Nilable<K>, Nilable<V>)>
  {
    seq(|list|, j requires 0 <= j < |list| => Evicted(list[j]))
  }

  /** The callback pairs of the last c entries, back first (the order in
      which repeated removal of the oldest entry reports them). */
  function BackPairs<K, V>(list: seq<Entry<K, V>>, c: nat): seq<(Nilable<K>, Nilable<V>)>
    requires c <= |list|
  {
    seq(c, j requires 0 <= j < c => Evicted(list[|list| - 1 - j]))
  }

  /** The recency list (front = most recently used), the key index, and the
      log of (key, value) pairs the eviction callback has received. */
  datatype Store<K(==), V> = Store(
    list: seq<Entry<K, V>>,
    index: map<Nilable<K>, Handle>,
    log: seq<(Nilable<K>, Nilable<V>)>)

  predicate DistinctKeys<K(==), V>(list: seq<Entry<K, V>>)
  {
    forall i, j :: 0 <= i < j < |list| ==> list[i].key != list[j].key
  }

  predicate Listed<K(==), V>(list: seq<Entry<K, V>>, k: Nilable<K>)
  {
    exists i :: 0 <= i < |list| && list[i].key == k
  }

  /** The invariant tying the two structures together: list keys are
      distinct, every list entry's key is indexed with a live handle, and
      every live handle has its list entry. Keys indexed with a null handle
      are allowed: Set creates them. */
  predicate Coherent<K(==), V>(st: Store<K, V>)
  {
    && DistinctKeys(st.list)
    && (forall i :: 0 <= i < |st.list| ==> st.list[i].key in st.index && st.index[st.list[i].key] == Live)
    && (forall k :: k in st.index && st.index[k] == Live ==> Listed(st.list, k))
  }

  /** k is indexed with a nil element: dereferencing its handle panics. */
  predicate Dangling<K(==), V>(st: Store<K, V>, k: Nilable<K>)
  {
    k in st.index && st.index[k] == Null
  }

  /** The slot a live handle denotes: the first (with distinct keys, the
      only) list position holding k. */
  function Position<K(==), V>(list: seq<Entry<K, V>>, k: Nilable<K>): (i: nat)
    requires Listed(list, k)
    ensures i < |list| && list[i].key == k
    ensures forall j :: 0 <= j < i ==> list[j].key != k
    decreases |list|
  {
    if list[0].key == k then 0
    else
      var j :| 0 <= j < |list| && list[j].key == k;
      assert list[1..][j - 1].key == k;
      Position(list[1..], k) + 1
  }

  lemma PositionOf<K, V>(list: seq<Entry<K, V>>, i: nat)
    requires DistinctKeys(list) && i < |list|
    ensures Listed(list, list[i].key) && Position(list, list[i].key) == i
  {
  }

  /** expired(k): false when there is no TTL; for an indexed key, whether
      more than ttl nanoseconds have passed since its entry was updated;
      true for a key that is not indexed. With a TTL, a null handle is
      dereferenced, which panics, so it is excluded. */
  function Expired<K(==), V>(st: Store<K, V>, ttl: int, k: Nilable<K>, now: int): (r: bool)
    requires Coherent(st)
    requires ttl != 0 ==> !Dangling(st, k)
    ensures r ==> ttl != 0
    ensures ttl != 0 && !Listed(st.list, k) ==> r
    ensures forall i :: 0 <= i < |st.list| && st.list[i].key == k ==>
      (r <==> ttl != 0 && now - st.list[i].updatedAt > ttl)
  {
    if ttl == 0 then false
    else if k in st.index then now - st.list[Position(st.list, k)].updatedAt > ttl
    else true
  }

  /** What Keys collects: walking from position n - 1 towards the front, the
      keys of the entries met before the first one that is past its TTL. */
  function UnexpiredTail<K, V>(list: seq<Entry<K, V>>, ttl: int, now: int, n: nat): (r: seq<Nilable<K>>)
    requires n <= |list|
    ensures |r| <= n
    decreases n
  {
    if n == 0 || (ttl != 0 && now - list[n - 1].updatedAt > ttl) then []
    else [list[n - 1].key] + UnexpiredTail(list, ttl, now, n - 1)
  }

  /** removeElement: unlink the entry at position i, delete its key from
      the index, and report it to the callback if there is one. */
  function RemoveAt<K(==), V>(st: Store<K, V>, i: nat, hasCallback: bool): (r: Store<K, V>)
    requires i < |st.list|
    ensures |r.list| == |st.list| - 1
    ensures r.index.Keys == st.index.Keys - {st.list[i].key}
    ensures |r.log| == |st.log| + (if hasCallback then 1 else 0) && r.log[..|st.log|] == st.log
  {
    var e := st.list[i];
    Store(Drop(st.list, i), st.index - {e.key}, if hasCallback then st.log + [Evicted(e)] else st.log)
  }

  /** removeOldest: remove the back entry, if any. */
  function DropOldest<K(==), V>(st: Store<K, V>, hasCallback: bool): (r: Store<K, V>)
    ensures |st.list| == 0 ==> r == st
    ensures |st.list| > 0 ==> r.list == st.list[..|st.list| - 1] && st.list[|st.list| - 1].key !in r.index
  {
    if |st.list| == 0 then st
    else
      assert Drop(st.list, |st.list| - 1) == st.list[..|st.list| - 1];
      RemoveAt(st, |st.list| - 1, hasCallback)
  }

  /** removeOldest called m times in a row. */
  function DropOldestTimes<K(==), V>(st: Store<K, V>, m: nat, hasCallback: bool): (r: Store<K, V>)
    ensures r.list == st.list[..|st.list| - (if m <= |st.list| then m else |st.list|)]
    decreases m
  {
    if m == 0 then st else DropOldest(DropOldestTimes(st, m - 1, hasCallback), hasCallback)
  }

  /** The part of Set before the capacity check: a key with a live handle
      gets a fresh entry moved to the front; any other key is indexed with
      the nil element the failed lookup returned, and nothing is linked. */
  function Refresh<K(==), V>(st: Store<K, V>, k: Nilable<K>, v: Nilable<V>, now: int): (r: Store<K, V>)
    requires Coherent(st) && !Dangling(st, k)
    ensures |r.list| == |st.list| && r.log == st.log
    ensures k in st.index ==> r.index == st.index && r.list[0] == Entry(k, v, now)
    ensures k !in st.index ==> r.list == st.list && Dangling(r, k)
  {
    if k in st.index then
      var i := Position(st.list, k);
      st.(list := Promote(st.list[i := Entry(k, v, now)], i))
    else
      st.(index := st.index[k := Null])
  }

  /** The capacity check at the end of Set: with a limit set and the list
      longer than it, remove the oldest entry once. */
  function EvictIfOver<K(==), V>(st: Store<K, V>, size: int, hasCallback: bool): (r: Store<K, V>)
    ensures size != 0 && |st.list| > size && |st.list| > 0 ==> r.list == st.list[..|st.list| - 1]
    ensures !(size != 0 && |st.list| > size) ==> r == st
    ensures size > 0 && |st.list| <= size + 1 ==> |r.list| <= size
  {
    if size != 0 && |st.list| > size then DropOldest(st, hasCallback) else st
  }

  /** The capacity bound: with a positive capacity the list holds at most
      that many entries, and with a negative one (which only Resize can
      set) it is empty. */
  predicate WithinCapacity<K, V>(list: seq<Entry<K, V>>, size: int)
  {
    (size > 0 ==> |list| <= size) && (size < 0 ==> list == [])
  }

  /** Set(k, v) at time now, as the code does it. It never lengthens the
      list, so it keeps the capacity bound even though it evicts at most
      once. */
  function SetStep<K(==), V>(st: Store<K, V>, size: int, k: Nilable<K>, v: Nilable<V>, now: int, hasCallback: bool): (r: Store<K, V>)
    requires Coherent(st)
    requires k.Val? && v.Val? ==> !Dangling(st, k)
    ensures |r.list| <= |st.list|
    ensures WithinCapacity(st.list, size) ==> WithinCapacity(r.list, size)
  {
    if k.Nil? || v.Nil? then st
    else EvictIfOver(Refresh(st, k, v, now), size, hasCallback)
  }

  /** Only entries are counted: the live handles are exactly as many as the
      list entries, and null handles are not counted. */
  lemma LiveCount<K, V>(st: Store<K, V>)
    requires Coherent(st)
    ensures |set k | k in st.index && st.index[k] == Live| == |st.list|
  {
    assert (set k | k in st.index && st.index[k] == Live)
        == (set i | 0 <= i < |st.list| :: st.list[i].key);
    FirstKeysCount(st.list, |st.list|);
  }

  lemma {:induction false} FirstKeysCount<K, V>(list: seq<Entry<K, V>>, n: nat)
    requires DistinctKeys(list) && n <= |list|
    ensures |set i | 0 <= i < n :: list[i].key| == n
  {
    if n > 0 {
      FirstKeysCount(list, n - 1);
      assert (set i | 0 <= i < n :: list[i].key)
          == (set i | 0 <= i < n - 1 :: list[i].key) + {list[n - 1].key};
    }
  }

  // ---------------------------------------------------------------------
  // The invariant, key by key

  /** Under the invariant a key is listed exactly when it is indexed with a
      live handle. */
  lemma ListedByCoherent<K, V>(st: Store<K, V>)
    requires Coherent(st)
    ensures forall q :: Listed(st.list, q) <==> q in st.index && st.index[q] == Live
  {
    forall q | Listed(st.list, q) ensures q in st.index && st.index[q] == Live {
      var j :| 0 <= j < |st.list| && st.list[j].key == q;
    }
  }

  /** Conversely, distinct list keys that are listed exactly when they are
      indexed with a live handle make the invariant. */
  lemma CoherentByListed<K, V>(st: Store<K, V>)
    requires DistinctKeys(st.list)
    requires forall q :: Listed(st.list, q) <==> q in st.index && st.index[q] == Live
    ensures Coherent(st)
  {
    forall i | 0 <= i < |st.list| ensures st.list[i].key in st.index && st.index[st.list[i].key] == Live {
      assert Listed(st.list, st.list[i].key);
    }
  }

  /** Moving an entry to the front changes neither which keys are listed nor
      their distinctness. */
  lemma PromoteKeys<K, V>(s: seq<Entry<K, V>>, i: nat)
    requires DistinctKeys(s) && i < |s|
    ensures DistinctKeys(Promote(s, i))
    ensures forall q :: Listed(Promote(s, i), q) <==> Listed(s, q)
  {
    var r := Promote(s, i);
    forall a, b | 0 <= a < b < |r| ensures r[a].key != r[b].key {
      var a' := if a == 0 then i else if a <= i then a - 1 else a;
      var b' := if b == 0 then i else if b <= i then b - 1 else b;
      assert r[a] == s[a'] && r[b] == s[b'];
    }
    forall q ensures Listed(r, q) <==> Listed(s, q) {
      if Listed(r, q) {
        var a :| 0 <= a < |r| && r[a].key == q;
        var a' := if a == 0 then i else if a <= i then a - 1 else a;
        assert s[a'].key == q;
      }
      if Listed(s, q) {
        var a :| 0 <= a < |s| && s[a].key == q;
        var a' := if a == i then 0 else if a < i then a + 1 else a;
        assert r[a'].key == q;
      }
    }
  }

  /** Replacing an entry by one with the same key changes neither which
      keys are listed nor their distinctness. */
  lemma UpdateKeys<K, V>(s: seq<Entry<K, V>>, i: nat, e: Entry<K, V>)
    requires DistinctKeys(s) && i < |s| && e.key == s[i].key
    ensures DistinctKeys(s[i := e])
    ensures forall q :: Listed(s[i := e], q) <==> Listed(s, q)
  {
    var u := s[i := e];
    forall a, b | 0 <= a < b < |u| ensures u[a].key != u[b].key {
      assert u[a].key == s[a].key && u[b].key == s[b].key;
    }
    forall q ensures Listed(u, q) <==> Listed(s, q) {
      if Listed(u, q) {
        var a :| 0 <= a < |u| && u[a].key == q;
        assert s[a].key == q;
      }
      if Listed(s, q) {
        var a :| 0 <= a < |s| && s[a].key == q;
        assert u[a].key == q;
      }
    }
  }

  // ---------------------------------------------------------------------
  // Removal keeps the two structures in lockstep

  /** Removing one entry takes its key out of both the list and the index,
      keeps the survivors in order, logs the pair once when there is a
      callback, and keeps the invariant. */
  lemma RemoveAtSpec<K, V>(st: Store<K, V>, i: nat, hasCallback: bool)
    requires Coherent(st) && i < |st.list|
    ensures var r := RemoveAt(st, i, hasCallback);
      && Coherent(r)
      && st.list[i].key !in r.index && !Listed(r.list, st.list[i].key)
      && |r.list| == |st.list| - 1
      && (forall k :: k != st.list[i].key ==> (k in r.index <==> k in st.index))
      && r.log == st.log + (if hasCallback then [Evicted(st.list[i])] else [])
  {
    ListedByCoherent(st);
    DropKeepsDistinct(st.list, i);
    DropListed(st.list, i);
    CoherentByListed(RemoveAt(st, i, hasCallback));
  }

  /** r is what removing the last c entries of st one by one, back first,
      leaves behind. */
  ghost predicate DroppedBack<K, V>(st: Store<K, V>, r: Store<K, V>, c: nat, hasCallback: bool)
    requires c <= |st.list|
  {
    && r.list == st.list[..|st.list| - c]
    && r.index == st.index - (set j | |st.list| - c <= j < |st.list| :: st.list[j].key)
    && r.log == st.log + (if hasCallback then BackPairs(st.list, c) else [])
  }

  /** m calls of removeOldest remove the last min(m, Len) entries: the list
      keeps its front part, exactly the removed keys leave the index, and
      the callback receives the removed pairs back first. */
  lemma {:induction false} DropOldestTimesSpec<K, V>(st: Store<K, V>, m: nat, hasCallback: bool)
    requires Coherent(st)
    ensures var c := if m <= |st.list| then m else |st.list|;
      var r := DropOldestTimes(st, m, hasCallback);
      Coherent(r) && DroppedBack(st, r, c, hasCallback)
  {
    if m > 0 {
      DropOldestTimesSpec(st, m - 1, hasCallback);
      var r1 := DropOldestTimes(st, m - 1, hasCallback);
      assert DropOldestTimes(st, m, hasCallback) == DropOldest(r1, hasCallback);
      var c1 := if m - 1 <= |st.list| then m - 1 else |st.list|;
      if c1 < |st.list| {
        DropOneMore(st, r1, c1, hasCallback);
      } else {
        assert r1.list == [];
      }
    }
  }

  lemma DropOneMore<K, V>(st: Store<K, V>, r1: Store<K, V>, c1: nat, hasCallback: bool)
    requires Coherent(r1) && c1 < |st.list| && DroppedBack(st, r1, c1, hasCallback)
    ensures Coherent(DropOldest(r1, hasCallback)) && DroppedBack(st, DropOldest(r1, hasCallback), c1 + 1, hasCallback)
  {
    var n := |st.list|;
    var c := c1 + 1;
    var back := |r1.list| - 1;
    assert r1.list[back] == st.list[n - c];
    RemoveAtSpec(r1, back, hasCallback);
    BackKeysStep(st.list, c1);
    BackPairsStep(st.list, c1);
    assert DropOldest(r1, hasCallback).list == st.list[..n - c];
  }

  /** Resize(n) leaves the list within the new capacity n: it removes
      Len - n entries when n is below Len, which empties the list when n is
      zero or negative. */
  lemma ResizeFits<K, V>(st: Store<K, V>, n: int, hasCallback: bool)
    ensures var diff := if |st.list| > n then |st.list| - n else 0;
      WithinCapacity(DropOldestTimes(st, diff, hasCallback).list, n)
  {
  }

  lemma BackKeysStep<K, V>(list: seq<Entry<K, V>>, c1: nat)
    requires c1 < |list|
    ensures (set j | |list| - (c1 + 1) <= j < |list| :: list[j].key)
         == (set j | |list| - c1 <= j < |list| :: list[j].key) + {list[|list| - (c1 + 1)].key}
  {
  }

  lemma BackPairsStep<K, V>(list: seq<Entry<K, V>>, c1: nat)
    requires c1 < |list|
    ensures BackPairs(list, c1 + 1) == BackPairs(list, c1) + [Evicted(list[|list| - (c1 + 1)])]
  {
  }

  /** One step of Purge's walk over the index, seen from the entries not yet
      reported: reporting the entry of key rest[j] takes it out of that run,
      which keeps distinct keys drawn from the list, loses exactly that key,
      and moves exactly its pair into the log. */
  lemma PurgeOne<K, V>(list: seq<Entry<K, V>>, rest: seq<Entry<K, V>>, j: nat)
    requires DistinctKeys(rest) && (forall e :: e in rest ==> e in list) && j < |rest|
    ensures var r := Drop(rest, j);
      && DistinctKeys(r) && (forall e :: e in r ==> e in list)
      && (forall q :: Listed(r, q) <==> Listed(rest, q) && q != rest[j].key)
      && multiset(Pairs(rest)) == multiset(Pairs(r)) + multiset{Evicted(rest[j])}
  {
    DropKeepsDistinct(rest, j);
    DropListed(rest, j);
    DropPairs(rest, j);
    var r := Drop(rest, j);
    forall e | e in r ensures e in list {
      var a :| 0 <= a < |r| && r[a] == e;
      assert rest[if a < j then a else a + 1] == e;
    }
  }

  lemma DropKeepsDistinct<K, V>(rest: seq<Entry<K, V>>, j: nat)
    requires DistinctKeys(rest) && j < |rest|
    ensures DistinctKeys(Drop(rest, j))
  {
    var r := Drop(rest, j);
    forall a, b | 0 <= a < b < |r| ensures r[a].key != r[b].key {
      var a' := if a < j then a else a + 1;
      var b' := if b < j then b else b + 1;
      assert r[a] == rest[a'] && r[b] == rest[b'];
    }
  }

  lemma DropListed<K, V>(rest: seq<Entry<K, V>>, j: nat)
    requires DistinctKeys(rest) && j < |rest|
    ensures forall q :: Listed(Drop(rest, j), q) <==> Listed(rest, q) && q != rest[j].key
  {
    var r := Drop(rest, j);
    forall q ensures Listed(r, q) <==> Listed(rest, q) && q != rest[j].key {
      if Listed(r, q) {
        var a :| 0 <= a < |r| && r[a].key == q;
        var a' := if a < j then a else a + 1;
        assert rest[a'].key == q;
      }
      if Listed(rest, q) && q != rest[j].key {
        var a :| 0 <= a < |rest| && rest[a].key == q;
        var a' := if a < j then a else a - 1;
        assert r[a'].key == q;
      }
    }
  }

  lemma DropPairs<K, V>(rest: seq<Entry<K, V>>, j: nat)
    requires j < |rest|
    ensures multiset(Pairs(rest)) == multiset(Pairs(Drop(rest, j))) + multiset{Evicted(rest[j])}
  {
    var p := Pairs(rest);
    assert p == p[..j] + [p[j]] + p[j + 1..];
    assert Pairs(Drop(rest, j)) == p[..j] + p[j + 1..];
  }

  /** Purge's progress: rest holds the entries whose keys are still
      indexed, and done (the pairs reported so far) together with rest's
      pairs are exactly the pairs of the list. */
  ghost predicate Reported<K, V>(list: seq<Entry<K, V>>, index: map<Nilable<K>, Handle>, rest: seq<Entry<K, V>>, done: seq<(Nilable<K>, Nilable<V>)>)
  {
    && DistinctKeys(rest) && (forall e :: e in rest ==> e in list)
    && (forall q :: q in index ==> Listed(rest, q))
    && (forall a :: 0 <= a < |rest| ==> rest[a].key in index)
    && multiset(done) + multiset(Pairs(rest)) == multiset(Pairs(list))
  }

  /** Purge starts with nothing reported when every handle is live. */
  lemma ReportedInit<K, V>(st: Store<K, V>)
    requires Coherent(st) && forall q :: q in st.index ==> st.index[q] == Live
    ensures Reported(st.list, st.index, st.list, [])
  {
  }

  /** Reporting and deleting one indexed key q, with the value of its list
      entry, keeps the progress relation. */
  lemma ReportedStep<K, V>(list: seq<Entry<K, V>>, index: map<Nilable<K>, Handle>, rest: seq<Entry<K, V>>, done: seq<(Nilable<K>, Nilable<V>)>, q: Nilable<K>)
    requires DistinctKeys(list) && Reported(list, index, rest, done) && q in index
    ensures Listed(list, q)
    ensures Reported(list, index - {q}, Drop(rest, Position(rest, q)), done + [Evicted(list[Position(list, q)])])
  {
    var j := Position(rest, q);
    assert rest[j] in list;
    var i := Position(list, q);
    assert list[i] == rest[j];
    PurgeOne(list, rest, j);
    var r := Drop(rest, j);
    var x := Evicted(rest[j]);
    assert multiset(done + [x]) == multiset(done) + multiset{x};
    forall a | 0 <= a < |r| ensures r[a].key in index - {q} {
      assert Listed(r, r[a].key);
    }
    forall p | p in index - {q} ensures Listed(r, p) {
      assert Listed(rest, p);
    }
  }

  /** When the index is empty, every pair of the list has been reported. */
  lemma ReportedAll<K, V>(list: seq<Entry<K, V>>, rest: seq<Entry<K, V>>, done: seq<(Nilable<K>, Nilable<V>)>)
    requires Reported(list, map[], rest, done)
    ensures multiset(done) == multiset(Pairs(list))
  {
    assert rest == [];
  }

  // ---------------------------------------------------------------------
  // Set

  /** Set keeps the invariant. */
  lemma SetKeepsCoherence<K, V>(st: Store<K, V>, size: int, k: Nilable<K>, v: Nilable<V>, now: int, hasCallback: bool)
    requires Coherent(st) && (k.Val? && v.Val? ==> !Dangling(st, k))
    ensures Coherent(SetStep(st, size, k, v, now, hasCallback))
  {
    if k.Val? && v.Val? {
      RefreshKeepsCoherence(st, k, v, now);
      var r1 := Refresh(st, k, v, now);
      if size != 0 && |r1.list| > size && |r1.list| > 0 {
        RemoveAtSpec(r1, |r1.list| - 1, hasCallback);
      }
    }
  }

  lemma RefreshKeepsCoherence<K, V>(st: Store<K, V>, k: Nilable<K>, v: Nilable<V>, now: int)
    requires Coherent(st) && !Dangling(st, k)
    ensures Coherent(Refresh(st, k, v, now))
  {
    ListedByCoherent(st);
    if k in st.index {
      var i := Position(st.list, k);
      UpdateKeys(st.list, i, Entry(k, v, now));
      PromoteKeys(st.list[i := Entry(k, v, now)], i);
    }
    CoherentByListed(Refresh(st, k, v, now));
  }

  /** Moving an entry to the front (Get's promotion) keeps the invariant. */
  lemma PromoteKeepsCoherence<K, V>(st: Store<K, V>, i: nat)
    requires Coherent(st) && i < |st.list|
    ensures Coherent(st.(list := Promote(st.list, i)))
  {
    var e := st.list[i];
    PositionOf(st.list, i);
    assert st.list[i := e] == st.list;
    RefreshKeepsCoherence(st, e.key, e.value, e.updatedAt);
  }

  /** Set never lengthens the list (a new key is indexed but never linked),
      and shortens it by at most the one capacity eviction. */
  lemma SetNeverGrows<K, V>(st: Store<K, V>, size: int, k: Nilable<K>, v: Nilable<V>, now: int, hasCallback: bool)
    requires Coherent(st) && (k.Val? && v.Val? ==> !Dangling(st, k))
    ensures var r := SetStep(st, size, k, v, now, hasCallback);
      |st.list| - 1 <= |r.list| <= |st.list|
  {
  }

  /** Set with a nil key or a nil value changes nothing. */
  lemma SetNilIsNoOp<K, V>(st: Store<K, V>, size: int, k: Nilable<K>, v: Nilable<V>, now: int, hasCallback: bool)
    requires Coherent(st) && (k.Nil? || v.Nil?)
    ensures SetStep(st, size, k, v, now, hasCallback) == st
  {
  }

  /** Set on a key with a live handle: the fresh entry (value v, stamped
      now) is first, the other entries follow in their old relative order,
      and the index is untouched; the capacity check may then cut off the
      last of these, and only then. */
  lemma SetLiveKeyPromotes<K, V>(st: Store<K, V>, size: int, k: Nilable<K>, v: Nilable<V>, now: int, hasCallback: bool)
    requires Coherent(st) && k.Val? && v.Val? && k in st.index && st.index[k] == Live
    ensures var i := Position(st.list, k);
      var m := [Entry(k, v, now)] + Drop(st.list, i);
      var r := SetStep(st, size, k, v, now, hasCallback);
      && (if size != 0 && |st.list| > size then r.list == m[..|m| - 1] else r.list == m)
      && Refresh(st, k, v, now).index == st.index
  {
    var i := Position(st.list, k);
    var m := [Entry(k, v, now)] + Drop(st.list, i);
    PromoteUpdated(st.list, i, Entry(k, v, now));
    assert Refresh(st, k, v, now).list == m;
    if size != 0 && |m| > size {
      assert Drop(m, |m| - 1) == m[..|m| - 1];
    }
  }

  /** Set on a key that is not indexed: the key is indexed with a null
      handle and is not linked into the list, so every later Get, Peek or
      Remove of it panics. The list is as before unless the capacity check
      (which does not depend on k) removed its back entry. */
  lemma SetNewKeyDangles<K, V>(st: Store<K, V>, size: int, k: Nilable<K>, v: Nilable<V>, now: int, hasCallback: bool)
    requires Coherent(st) && k.Val? && v.Val? && k !in st.index
    ensures var r := SetStep(st, size, k, v, now, hasCallback);
      && Dangling(r, k) && !Listed(r.list, k)
      && (if size != 0 && |st.list| > size && |st.list| > 0
          then r.list == st.list[..|st.list| - 1]
          else r.list == st.list)
  {
    var r1 := Refresh(st, k, v, now);
    assert r1.list == st.list;
    if size != 0 && |st.list| > size && |st.list| > 0 {
      assert st.list[|st.list| - 1].key in st.index;
      RemoveAtSpec(r1, |r1.list| - 1, hasCallback);
    }
    var r := SetStep(st, size, k, v, now, hasCallback);
    forall j | 0 <= j < |r.list| ensures r.list[j].key != k {
      assert st.list[j].key in st.index;
    }
  }

  /** The capacity check of Set evicts exactly one entry, the back one of
      the list after the refresh: its key leaves list and index and its
      pair is logged once; without an eviction nothing is logged. */
  lemma SetEvictsBack<K, V>(st: Store<K, V>, size: int, k: Nilable<K>, v: Nilable<V>, now: int, hasCallback: bool)
    requires Coherent(st) && k.Val? && v.Val? && !Dangling(st, k)
    ensures var r1 := Refresh(st, k, v, now);
      var r := SetStep(st, size, k, v, now, hasCallback);
      if size != 0 && |r1.list| > size && |r1.list| > 0 then
        var b := r1.list[|r1.list| - 1];
        && b.key !in r.index && !Listed(r.list, b.key)
        && r.list == r1.list[..|r1.list| - 1]
        && r.log == st.log + (if hasCallback then [Evicted(b)] else [])
      else r.list == r1.list && r.log == st.log
  {
    RefreshKeepsCoherence(st, k, v, now);
    var r1 := Refresh(st, k, v, now);
    if size != 0 && |r1.list| > size && |r1.list| > 0 {
      RemoveAtSpec(r1, |r1.list| - 1, hasCallback);
    }
  }

  /** Round trip: after Set(k, v) on an indexed key, with a non-negative
      TTL and capacity, k is first in the list with value v and is not
      expired at the same instant, so Get returns (v, true). */
  lemma SetThenGetHits<K, V>(st: Store<K, V>, size: int, ttl: int, k: Nilable<K>, v: Nilable<V>, now: int, hasCallback: bool)
    requires Coherent(st) && k.Val? && v.Val? && k in st.index && st.index[k] == Live
    requires size >= 0 && ttl >= 0
    ensures var r := SetStep(st, size, k, v, now, hasCallback);
      && Coherent(r) && k in r.index && r.index[k] == Live
      && r.list[0] == Entry(k, v, now) && Position(r.list, k) == 0
      && !Expired(r, ttl, k, now)
  {
    SetKeepsCoherence(st, size, k, v, now, hasCallback);
    RefreshKeepsCoherence(st, k, v, now);
    var r1 := Refresh(st, k, v, now);
    var r := SetStep(st, size, k, v, now, hasCallback);
    if size != 0 && |r1.list| > size {
      assert |r1.list| >= 2;
      assert r1.list[|r1.list| - 1].key != k;
    }
    assert r.list[0] == Entry(k, v, now);
    PositionOf(r.list, 0);
  }

  // ---------------------------------------------------------------------
  // Expiry and Keys

  /** Expiry of the key at list position i, read off its entry. */
  lemma ExpiredAt<K, V>(st: Store<K, V>, ttl: int, now: int, i: nat)
    requires Coherent(st) && i < |st.list|
    ensures Expired(st, ttl, st.list[i].key, now) <==> ttl != 0 && now - st.list[i].updatedAt > ttl
  {
    PositionOf(st.list, i);
  }

  /** The TTL boundary is inclusive: an entry stamped t is still live at
      t + ttl and, with a TTL set, expired one nanosecond later. */
  lemma ExpiryBoundary<K, V>(st: Store<K, V>, ttl: int, i: nat)
    requires Coherent(st) && i < |st.list| && ttl >= 0
    ensures var e := st.list[i];
      && !Expired(st, ttl, e.key, e.updatedAt + ttl)
      && (ttl > 0 <==> Expired(st, ttl, e.key, e.updatedAt + ttl + 1))
  {
    ExpiredAt(st, ttl, st.list[i].updatedAt + ttl, i);
    ExpiredAt(st, ttl, st.list[i].updatedAt + ttl + 1, i);
  }

  /** Once expired, an entry stays expired as time moves on; a key that is
      not indexed is expired whenever a TTL is set. */
  lemma ExpiryIsMonotone<K, V>(st: Store<K, V>, ttl: int, k: Nilable<K>, now: int, later: int)
    requires Coherent(st) && (ttl != 0 ==> !Dangling(st, k)) && now <= later
    ensures Expired(st, ttl, k, now) ==> Expired(st, ttl, k, later)
    ensures ttl != 0 && k !in st.index ==> Expired(st, ttl, k, now)
  {
  }

  /** One step of Keys' walk: an unexpired entry at position i - 1 is the
      next key collected. */
  lemma UnexpiredTailCons<K, V>(st: Store<K, V>, ttl: int, now: int, i: nat, keys: seq<Nilable<K>>, whole: seq<Nilable<K>>)
    requires Coherent(st) && 0 < i <= |st.list| && !Expired(st, ttl, st.list[i - 1].key, now)
    requires keys + UnexpiredTail(st.list, ttl, now, i) == whole
    ensures (keys + [st.list[i - 1].key]) + UnexpiredTail(st.list, ttl, now, i - 1) == whole
  {
    ExpiredAt(st, ttl, now, i - 1);
    assert UnexpiredTail(st.list, ttl, now, i) == [st.list[i - 1].key] + UnexpiredTail(st.list, ttl, now, i - 1);
  }

  /** Keys stops where Expired first holds, which is where the walk of
      UnexpiredTail stops too. */
  lemma UnexpiredTailStop<K, V>(st: Store<K, V>, ttl: int, now: int, i: nat)
    requires Coherent(st) && 0 < i <= |st.list| && Expired(st, ttl, st.list[i - 1].key, now)
    ensures UnexpiredTail(st.list, ttl, now, i) == []
  {
    ExpiredAt(st, ttl, now, i - 1);
  }

  /** Keys' result holds the keys at positions n - 1, n - 2, ..., oldest
      first. */
  lemma {:induction false} UnexpiredTailKeys<K, V>(list: seq<Entry<K, V>>, ttl: int, now: int, n: nat)
    requires n <= |list|
    ensures forall j :: 0 <= j < |UnexpiredTail(list, ttl, now, n)| ==>
      UnexpiredTail(list, ttl, now, n)[j] == list[n - 1 - j].key
  {
    if n > 0 && (ttl == 0 || now - list[n - 1].updatedAt <= ttl) {
      UnexpiredTailKeys(list, ttl, now, n - 1);
      var t := UnexpiredTail(list, ttl, now, n - 1);
      var r := UnexpiredTail(list, ttl, now, n);
      assert r == [list[n - 1].key] + t;
      forall j | 0 < j < |r| ensures r[j] == list[n - 1 - j].key {
        assert r[j] == t[j - 1];
      }
    }
  }

  /** ... and those are the entries at the back within their TTL, stopping
      at the first entry that is past it, even when entries nearer the
      front are still live. */
  lemma {:induction false} UnexpiredTailSpec<K, V>(list: seq<Entry<K, V>>, ttl: int, now: int, n: nat)
    requires n <= |list|
    ensures var r := UnexpiredTail(list, ttl, now, n);
      && (forall p :: n - |r| <= p < n ==> ttl == 0 || now - list[p].updatedAt <= ttl)
      && (|r| < n ==> ttl != 0 && now - list[n - 1 - |r|].updatedAt > ttl)
  {
    if n > 0 && (ttl == 0 || now - list[n - 1].updatedAt <= ttl) {
      UnexpiredTailSpec(list, ttl, now, n - 1);
      assert |UnexpiredTail(list, ttl, now, n)| == |UnexpiredTail(list, ttl, now, n - 1)| + 1;
    }
  }

  /** Set evicts at most once. From a store of three entries under a
      capacity of 1 (which no sequence of calls reaches, since every
      operation keeps the capacity bound), refreshing a listed key leaves
      two entries, still over the capacity. */
  lemma SetEvictsOnlyOnce()
    ensures var st: Store<int, string> := Store(
        [Entry(Val(1), Val("a"), 0), Entry(Val(2), Val("b"), 0), Entry(Val(3), Val("c"), 0)],
        map[Val(1) := Live, Val(2) := Live, Val(3) := Live], []);
      && Coherent(st)
      && |SetStep(st, 1, Val(1), Val("z"), 5, false).list| == 2
  {
    var st: Store<int, string> := Store(
        [Entry(Val(1), Val("a"), 0), Entry(Val(2), Val("b"), 0), Entry(Val(3), Val("c"), 0)],
        map[Val(1) := Live, Val(2) := Live, Val(3) := Live], []);
    assert st.list[0].key == Val(1) && st.list[1].key == Val(2) && st.list[2].key == Val(3);
    assert Listed(st.list, Val(1)) && Listed(st.list, Val(2)) && Listed(st.list, Val(3));
  }

  /** Capacity 2, no TTL, a callback: Set(1, "a"), Set(2, "b"), Set(3, "c")
      evict nothing and link nothing; the three keys end up indexed with
      null handles, so Len is 0 while Contains (which, without a TTL, only
      asks the index) reports each key present, and Get of any of them
      would panic. */
  lemma CapacityTwoScenario()
    ensures var st0: Store<int, string> := Store([], map[], []);
      var st1 := SetStep(st0, 2, Val(1), Val("a"), 0, true);
      var st2 := SetStep(st1, 2, Val(2), Val("b"), 1, true);
      var st3 := SetStep(st2, 2, Val(3), Val("c"), 2, true);
      && st3.list == [] && st3.log == []
      && st3.index == map[Val(1) := Null, Val(2) := Null, Val(3) := Null]
      && Dangling(st3, Val(1)) && !Expired(st3, 0, Val(1), 3)
  {
  }
}
