/**
 The DNS cache over its store: expiry, last-access ticks, sweeping, and sampled
 least-recently-used eviction on a bounded cache. Clock readings are parameters
 and each operation is one atomic step.

 Three ghost fields record what a run did: the events in order, the number of
 ticks issued, and the keys from least to most recently accessed. `Valid` ties
 them to the store, so what it says holds after every run of operations.
 */
module DnsCache {
  import opened Bits
  import opened Wrappers
  import opened DnsStore

  // ── Histories ──────────────────────────────────────────────────────────────

  datatype Event =
    | Put(key: Key, addrs: Addrs, expiresAt: nat)
    | Evicted(key: Key)
    | Swept(keys: set<Key>)
  {
    predicate Concerns(k: Key) { if Swept? then k in keys else key == k }
  }

  datatype Cached = Cached(addrs: Addrs, expiresAt: nat)

  /** What was last inserted for the key and has been neither evicted nor swept since. */
  function Last(history: seq<Event>, k: Key): Option<Cached> {
    if history == [] then None
    else
      var e := history[|history| - 1];
      if !e.Concerns(k) then Last(history[..|history| - 1], k)
      else if e.Put? then Some(Cached(e.addrs, e.expiresAt))
      else None
  }

  /** The `i`-th event inserted this value for the key, and no later event concerns the key. */
  ghost predicate LatestPut(history: seq<Event>, k: Key, c: Cached, i: int) {
    && 0 <= i < |history| && history[i] == Put(k, c.addrs, c.expiresAt)
    && forall j :: i < j < |history| ==> !history[j].Concerns(k)
  }

  lemma {:induction false} LastIsLatestPut(history: seq<Event>, k: Key, c: Cached)
    ensures Last(history, k) == Some(c) <==> exists i :: LatestPut(history, k, c, i)
  {
    if history != [] {
      var n := |history| - 1;
      var h := history[..n];
      if history[n].Concerns(k) {
        assert Last(history, k) == Some(c) ==> LatestPut(history, k, c, n);
      } else {
        LastIsLatestPut(h, k, c);
        forall i
          ensures LatestPut(history, k, c, i) <==> LatestPut(h, k, c, i)
        {
          assert forall j :: 0 <= j < n ==> h[j] == history[j];
        }
      }
    }
  }

  lemma LastSnoc(history: seq<Event>, e: Event, k: Key)
    ensures Last(history + [e], k) ==
            if !e.Concerns(k) then Last(history, k)
            else if e.Put? then Some(Cached(e.addrs, e.expiresAt)) else None
  {
    assert (history + [e])[..|history|] == history;
  }

  /** The stored entries are exactly the ones the history leaves standing. */
  ghost predicate Records(history: seq<Event>, m: map<Key, Entry>) {
    forall k: Key :: Last(history, k) == if k in m then Some(Cached(m[k].addrs, m[k].expiresAt)) else None
  }

  lemma RecordsPut(history: seq<Event>, m: map<Key, Entry>, k: Key, e: Entry)
    requires Records(history, m)
    ensures Records(history + [Put(k, e.addrs, e.expiresAt)], m[k := e])
  {
    forall x: Key { LastSnoc(history, Put(k, e.addrs, e.expiresAt), x); }
  }

  lemma RecordsTouch(history: seq<Event>, m: map<Key, Entry>, k: Key, t: nat)
    requires Records(history, m) && k in m
    ensures Records(history, m[k := m[k].(lastAccess := t)])
  {
  }

  lemma RecordsEvicted(history: seq<Event>, m: map<Key, Entry>, k: Key)
    requires Records(history, m)
    ensures Records(history + [Evicted(k)], m - {k})
  {
    forall x: Key { LastSnoc(history, Evicted(k), x); }
  }

  lemma RecordsSwept(history: seq<Event>, m: map<Key, Entry>, ks: set<Key>)
    requires Records(history, m)
    ensures Records(history + [Swept(ks)], m - ks)
  {
    forall x: Key { LastSnoc(history, Swept(ks), x); }
  }

  // ── Recency ────────────────────────────────────────────────────────────────

  function Without(order: seq<Key>, ks: set<Key>): (r: seq<Key>)
    ensures forall k :: k in r <==> k in order && k !in ks
  {
    if order == [] then []
    else if order[0] in ks then Without(order[1..], ks)
    else [order[0]] + Without(order[1..], ks)
  }

  function MoveToBack(order: seq<Key>, k: Key): seq<Key> {
    Without(order, {k}) + [k]
  }

  /** Insertion into a textbook LRU list of bounded size: touch, and drop the head of a full list. */
  function LruInsert(order: seq<Key>, k: Key, capacity: nat): seq<Key> {
    if k in order || |order| < capacity || order == [] then MoveToBack(order, k)
    else order[1..] + [k]
  }

  ghost predicate Ascending(m: map<Key, Entry>, order: seq<Key>) {
    && (forall i :: 0 <= i < |order| ==> order[i] in m)
    && (forall i, j :: 0 <= i < j < |order| ==> m[order[i]].lastAccess < m[order[j]].lastAccess)
  }

  /** `order` lists the keys of `m` from least to most recently accessed. */
  ghost predicate Recency(m: map<Key, Entry>, order: seq<Key>) {
    Ascending(m, order) && forall k :: k in m ==> k in order
  }

  ghost predicate TicksBelow(m: map<Key, Entry>, bound: nat) {
    forall k :: k in m ==> m[k].lastAccess < bound
  }

  lemma AscendingHead(m: map<Key, Entry>, order: seq<Key>)
    requires Ascending(m, order) && order != []
    ensures Ascending(m, order[1..])
    ensures forall x :: x in order[1..] ==> x in m && m[order[0]].lastAccess < m[x].lastAccess
  {
  }

  lemma AscendingCons(m: map<Key, Entry>, h: Key, rest: seq<Key>)
    requires Ascending(m, rest) && h in m
    requires forall x :: x in rest ==> x in m && m[h].lastAccess < m[x].lastAccess
    ensures Ascending(m, [h] + rest)
  {
  }

  lemma {:induction false} AscendingWithout(m: map<Key, Entry>, order: seq<Key>, ks: set<Key>)
    requires Ascending(m, order)
    ensures Ascending(m, Without(order, ks))
  {
    if order != [] {
      assert order[0] in m;
      AscendingHead(m, order);
      hide Ascending;
      AscendingWithout(m, order[1..], ks);
      if order[0] !in ks {
        AscendingCons(m, order[0], Without(order[1..], ks));
      }
    }
  }

  lemma RecencyRemove(m: map<Key, Entry>, order: seq<Key>, ks: set<Key>)
    requires Recency(m, order)
    ensures Recency(m - ks, Without(order, ks))
  {
    AscendingWithout(m, order, ks);
    var w := Without(order, ks);
    forall i | 0 <= i < |w|
      ensures w[i] in m - ks
    {
      assert w[i] in w;
    }
  }

  lemma RecencyTouch(m: map<Key, Entry>, order: seq<Key>, k: Key, e: Entry)
    requires Recency(m, order) && TicksBelow(m, e.lastAccess)
    ensures Recency(m[k := e], MoveToBack(order, k))
  {
    AscendingWithout(m, order, {k});
    var w := Without(order, {k});
    forall i | 0 <= i < |w|
      ensures w[i] in m && w[i] != k
    {
      assert w[i] in w;
    }
    forall x | x in m[k := e]
      ensures x in MoveToBack(order, k)
    {
      assert x != k ==> x in w;
    }
  }

  lemma {:induction false} AscendingSize(m: map<Key, Entry>, order: seq<Key>)
    requires Recency(m, order)
    ensures |order| == |m|
  {
    if order == [] {
      assert m == map[];
    } else {
      var k := order[0];
      RecencyRemove(m, order, {k});
      WithoutHead(m, order);
      assert k in m;
      hide Recency;
      AscendingSize(m - {k}, order[1..]);
      assert m.Keys == (m - {k}).Keys + {k};
    }
  }

  lemma {:induction false} WithoutHead(m: map<Key, Entry>, order: seq<Key>)
    requires Recency(m, order) && order != []
    ensures Without(order, {order[0]}) == order[1..]
  {
    assert order[0] !in order[1..];
    WithoutAbsent(order[1..], order[0]);
  }

  lemma {:induction false} WithoutAbsent(order: seq<Key>, k: Key)
    requires k !in order
    ensures Without(order, {k}) == order
  {
    if order != [] { WithoutAbsent(order[1..], k); }
  }

  ghost predicate IsLeast(m: map<Key, Entry>, v: Key) {
    v in m && forall x :: x in m ==> m[v].lastAccess <= m[x].lastAccess
  }

  /** Evicting the least recently accessed of all entries after a touch is the LRU list's insertion. */
  lemma EvictLeastIsLru(m: map<Key, Entry>, order: seq<Key>, k: Key, e: Entry, v: Key)
    requires Recency(m, order) && TicksBelow(m, e.lastAccess) && k !in m && m != map[]
    requires IsLeast(m[k := e], v)
    ensures Without(MoveToBack(order, k), {v}) == LruInsert(order, k, |m|)
  {
    hide Recency, Without, IsLeast;
    AbsentFromOrder(m, order, k);
    RecencyTouch(m, order, k, e);
    AscendingSize(m, order);
    WithoutAbsent(order, k);
    var touched := order + [k];
    LeastIsHead(m[k := e], touched, v);
    WithoutHead(m[k := e], touched);
    assert touched[1..] == order[1..] + [k];
  }

  lemma AbsentFromOrder(m: map<Key, Entry>, order: seq<Key>, k: Key)
    requires Recency(m, order) && k !in m
    ensures k !in order
  {
  }

  lemma LeastIsHead(m: map<Key, Entry>, order: seq<Key>, v: Key)
    requires Recency(m, order) && IsLeast(m, v)
    ensures order != [] && order[0] == v
  {
    assert v in order;
    var i :| 0 <= i < |order| && order[i] == v;
    assert order[0] in m;
  }

  // ── The clock of ticks ─────────────────────────────────────────────────────

  /** While the counter has not wrapped, `order` is the recency order and every tick is in the past. */
  ghost predicate Clock(m: map<Key, Entry>, order: seq<Key>, issued: nat) {
    && TicksBelow(m, U64_SPACE)
    && (issued <= U64_SPACE ==> Recency(m, order) && TicksBelow(m, issued))
  }

  lemma ClockTouch(m: map<Key, Entry>, order: seq<Key>, issued: nat, k: Key, e: Entry)
    requires Clock(m, order, issued) && e.lastAccess == issued % U64_SPACE
    ensures Clock(m[k := e], MoveToBack(order, k), issued + 1)
  {
    if issued < U64_SPACE {
      hide Recency, MoveToBack;
      assert e.lastAccess == issued;
      RecencyTouch(m, order, k, e);
    }
  }

  lemma ClockRemove(m: map<Key, Entry>, order: seq<Key>, issued: nat, ks: set<Key>)
    requires Clock(m, order, issued)
    ensures Clock(m - ks, Without(order, ks), issued)
  {
    if issued <= U64_SPACE { RecencyRemove(m, order, ks); }
  }

  // ── The cache ──────────────────────────────────────────────────────────────

  /** Exactly the entries that had expired by `cutoff` are gone, from the map, the record and the order, and counted. */
  ghost predicate Purged(m: map<Key, Entry>, m': map<Key, Entry>, history: seq<Event>, history': seq<Event>,
                         order: seq<Key>, order': seq<Key>, purged: nat, cutoff: nat)
  {
    var gone := ExpiredBy(m, cutoff);
    && m' == m - gone && history' == history + [Swept(gone)] && order' == Without(order, gone)
    && purged == |m| - |m'|
  }

  /** Where the sampled window starts; each of the windows is drawn by some value. */
  function WindowStart(draw: nat, len: nat): (start: nat)
    ensures start + SampleSize(len) <= len
    ensures draw + SampleSize(len) <= len ==> start == draw
  {
    if draw + SampleSize(len) <= len then draw else len - SampleSize(len)
  }

  class Cache {
    const store: Store
    const ttl: nat
    const capacity: Option<nat>
    var tick: nat
    ghost var issued: nat
    ghost var history: seq<Event>
    ghost var order: seq<Key>

    ghost predicate Consistent()
      reads this, store
    {
      && store.Valid()
      && tick == issued % U64_SPACE
      && Records(history, store.Contents())
      && Clock(store.Contents(), order, issued)
    }

    ghost predicate Valid()
      reads this, store
    {
      Consistent() && (capacity.Some? ==> 1 <= capacity.value && |store.slots| <= capacity.value)
    }

    /** An unbounded cache. */
    constructor New(hashOf: Key -> nat, ttl: nat)
      ensures Valid() && capacity == None && this.ttl == ttl && history == [] && fresh(store)
    {
      store := new Store(hashOf);
      this.ttl, capacity := ttl, None;
      tick, issued, history, order := 0, 0, [], [];
    }

    /** A cache of at most `capacity` entries, and of at least one. */
    constructor WithCapacity(hashOf: Key -> nat, ttl: nat, capacity: nat)
      ensures Valid() && this.ttl == ttl && history == [] && order == [] && issued == 0 && store.slots == [] && fresh(store)
      ensures this.capacity == Some(if capacity < 1 then 1 else capacity)
    {
      store := new Store(hashOf);
      this.ttl, this.capacity := ttl, Some(if capacity < 1 then 1 else capacity);
      tick, issued, history, order := 0, 0, [], [];
    }

    method NextTick() returns (t: nat)
      requires tick == issued % U64_SPACE
      modifies this`tick, this`issued
      ensures t == old(issued) % U64_SPACE && issued == old(issued) + 1 && tick == issued % U64_SPACE
    {
      t := tick;
      tick := (tick + 1) % U64_SPACE;
      issued := issued + 1;
    }

    /** Stamps an entry as just accessed. */
    method Touch(idx: nat)
      requires Valid() && idx < |store.slots|
      modifies this, store
      ensures Valid() && history == old(history) && issued == old(issued) + 1
      ensures var k := old(store.slots)[idx].key;
              && order == MoveToBack(old(order), k)
              && store.Contents() == old(store.Contents())[k := old(store.Contents())[k].(lastAccess := old(issued) % U64_SPACE)]
    {
      hide Clock, Records, MoveToBack;
      var t := NextTick();
      var k, e := store.slots[idx].key, store.slots[idx].entry.(lastAccess := t);
      ClockTouch(store.Contents(), order, old(issued), k, e);
      RecordsTouch(history, store.Contents(), k, t);
      store.SetEntry(idx, e);
      order := MoveToBack(order, k);
    }

    /** The last inserted value that is still stored and has not expired. */
    method Get(key: Key, now: nat) returns (r: Option<Addrs>)
      requires Valid()
      modifies this, store
      ensures Valid() && history == old(history)
      ensures r == match Last(history, key)
                   case Some(c) => if now < c.expiresAt then Some(c.addrs) else None
                   case None => None
      ensures r.Some? ==> issued == old(issued) + 1 && order == MoveToBack(old(order), key)
      ensures r.None? ==> issued == old(issued) && order == old(order) && store.Contents() == old(store.Contents())
    {
      hide Last, MoveToBack, Clock;
      var found := store.Find(store.hashOf(key), key);
      if found.None? { return None; }
      var entry := store.slots[found.value].entry;
      if now < entry.expiresAt {
        Touch(found.value);
        return Some(entry.addrs);
      }
      r := None;
    }

    /** The last inserted value that is still stored, expired or not. */
    method GetStale(key: Key) returns (r: Option<Addrs>)
      requires Valid()
      modifies this, store
      ensures Valid() && history == old(history)
      ensures r == match Last(history, key) case Some(c) => Some(c.addrs) case None => None
      ensures r.Some? ==> issued == old(issued) + 1 && order == MoveToBack(old(order), key)
      ensures r.None? ==> issued == old(issued) && order == old(order) && store.Contents() == old(store.Contents())
    {
      hide Last, MoveToBack, Clock;
      var found := store.Find(store.hashOf(key), key);
      if found.None? { return None; }
      var entry := store.slots[found.value].entry;
      Touch(found.value);
      r := Some(entry.addrs);
    }

    /**
     Evicts one entry: the first expired slot of the drawn window, or the least
     recently accessed one there. The start of the window is reported for the
     contract only.
     */
    method EvictOne(now: nat, draw: nat) returns (done: bool, ghost start: nat, ghost victim: nat)
      requires Consistent()
      modifies this`history, this`order, store
      ensures Consistent()
      ensures done <==> |old(store.slots)| > 0
      ensures !done ==> history == old(history) && order == old(order) && store.slots == old(store.slots)
      ensures done ==>
                && start == WindowStart(draw, |old(store.slots)|)
                && Evicts(old(store.slots), store.slots, start, now, victim)
                && history == old(history) + [Evicted(old(store.slots)[victim].key)]
                && order == Without(old(order), {old(store.slots)[victim].key})
    {
      hide Records, Clock, Without, IsVictim, View, Placed;
      var len := |store.slots|;
      if len == 0 { return false, 0, 0; }
      TicksOfSlots(store.slots, store.pos, order, issued);
      var from := WindowStart(draw, len);
      var v := PickVictim(store.slots, from, now);
      assert v < len by { VictimInRange(store.slots, from, now, v); }
      var k := store.slots[v].key;
      RecordsEvicted(history, store.Contents(), k);
      ClockRemove(store.Contents(), order, issued, {k});
      store.RemoveAt(v);
      history, order := history + [Evicted(k)], Without(order, {k});
      done, start, victim := true, from, v;
    }

    /** Overwrites the entry of the key, or appends one. */
    method Upsert(key: Key, addrs: Addrs, now: nat) returns (added: bool)
      requires Consistent()
      modifies this, store
      ensures Consistent() && issued == old(issued) + 1
      ensures history == old(history) + [Put(key, addrs, now + ttl)] && order == MoveToBack(old(order), key)
      ensures added <==> key !in old(store.Contents())
      ensures added ==> store.slots == Pushed(old(store.slots), store.hashOf, key, addrs, now + ttl, old(issued))
      ensures !added ==> |store.slots| == |old(store.slots)|
      ensures key in store.Contents()
    {
      hide Records, Clock, MoveToBack, View, Placed;
      var found := store.Find(store.hashOf(key), key);
      var t := NextTick();
      var entry := Entry(addrs, now + ttl, t);
      RecordsPut(history, store.Contents(), key, entry);
      ClockTouch(store.Contents(), order, old(issued), key, entry);
      history, order := history + [Put(key, addrs, now + ttl)], MoveToBack(order, key);
      added := found.None?;
      if found.Some? {
        store.SetEntry(found.value, entry);
      } else {
        store.Push(store.hashOf(key), key, entry);
      }
    }

    /**
     Inserts or overwrites, then evicts past the capacity. `evictAt` is the clock
     reading of the eviction, which follows that of the insertion. The window and
     the slot of the victim are reported for the contract only.
     */
    method Insert(key: Key, addrs: Addrs, now: nat, evictAt: nat, draw: nat)
      returns (ghost victim: Option<nat>, ghost start: nat)
      requires Valid() && now <= evictAt
      modifies this, store
      ensures Valid() && issued == old(issued) + 1
      ensures victim.Some? <==> capacity.Some? && key !in old(store.Contents()) && |old(store.slots)| == capacity.value
      ensures var pushed := Pushed(old(store.slots), store.hashOf, key, addrs, now + ttl, old(issued));
              if victim.Some?
              then Evicts(pushed, store.slots, start, evictAt, victim.value)
                   && start == WindowStart(draw, |pushed|)
                   && history == old(history) + [Put(key, addrs, now + ttl), Evicted(pushed[victim.value].key)]
              else history == old(history) + [Put(key, addrs, now + ttl)]
                   && order == MoveToBack(old(order), key)
                   && (key !in old(store.Contents()) ==> store.slots == pushed)
      ensures old(issued) < U64_SPACE && evictAt < now + ttl ==> key in store.Contents()
      ensures old(issued) < U64_SPACE && capacity.Some? && capacity.value <= 7 && evictAt < now + ttl
              && NoneExpired(old(store.slots), 0, |old(store.slots)|, evictAt)
              ==> order == LruInsert(old(order), key, capacity.value)
    {
      hide Records, Clock, Without, MoveToBack, LruInsert, Evicts, NoneExpired, View, Placed, Last;
      victim, start := None, 0;
      ViewSize(store.slots, store.pos);
      var added := Upsert(key, addrs, now);
      ghost var pushed, h1, o1 := store.slots, history, order;
      LruRoom(old(store.Contents()), old(order), old(issued), key, capacity);
      while capacity.Some? && |store.slots| > capacity.value
        invariant Consistent() && issued == old(issued) + 1
        invariant victim.None? ==> store.slots == pushed && history == h1 && order == o1 && key in store.Contents()
        invariant victim.Some? ==>
                    && added && capacity.Some? && |pushed| == capacity.value + 1 == |store.slots| + 1
                    && Evicts(pushed, store.slots, start, evictAt, victim.value) && victim.value < |pushed|
                    && start == WindowStart(draw, |pushed|)
                    && history == h1 + [Evicted(pushed[victim.value].key)]
                    && order == Without(o1, {pushed[victim.value].key})
        decreases |store.slots|
      {
        var done;
        ghost var v;
        done, start, v := EvictOne(evictAt, draw);
        if !done { break; }
        EvictsShrinks(pushed, store.slots, start, evictAt, v);
        victim := Some(v);
      }
      if victim.Some? {
        EvictionOutcome(old(store.slots), old(store.pos), old(order), old(issued), pushed[|pushed| - 1],
                        store.slots, store.pos, start, evictAt, victim.value);
      }
    }

    /** Purges entries that expired more than the grace period ago and counts them. */
    method SweepExpired(grace: nat, now: nat) returns (purged: nat)
      requires Valid()
      modifies this, store
      ensures Valid() && issued == old(issued)
      ensures now < grace ==> purged == 0 && history == old(history) && store.Contents() == old(store.Contents())
      ensures now >= grace ==>
                Purged(old(store.Contents()), store.Contents(), old(history), history, old(order), order, purged, now - grace)
      ensures SweptAfterGrace(old(store.Contents()), store.Contents(), grace, now)
    {
      hide Purged, SweptAfterGrace, Records, Clock, View, Placed;
      ghost var m := store.Contents();
      if now < grace {
        SweepNothing(m, grace, now);
        return 0;
      }
      purged := Purge(now - grace);
      PurgedIff(m, store.Contents(), old(history), history, old(order), order, purged, grace, now);
    }

    method Purge(cutoff: nat) returns (purged: nat)
      requires Valid()
      modifies this, store
      ensures Valid() && issued == old(issued)
      ensures Purged(old(store.Contents()), store.Contents(), old(history), history, old(order), order, purged, cutoff)
    {
      hide Records, Clock, Without, View, Placed, Indexed, Hashed, Kept, ExpiredBy;
      ghost var m := store.Contents();
      ghost var gone := ExpiredBy(m, cutoff);
      SweptView(m, cutoff);
      purged := store.Retain((e: Entry) => e.expiresAt > cutoff);
      ShrinkSize(m, gone, old(store.slots), old(store.pos), store.slots, store.pos);
      RecordsSwept(history, m, gone);
      ClockRemove(m, order, issued, gone);
      history, order := history + [Swept(gone)], Without(order, gone);
    }
  }

  /** Exactly the entries whose expiry lies within the grace period, or ahead, are left, each as it was. */
  ghost predicate SweptAfterGrace(m: map<Key, Entry>, m': map<Key, Entry>, grace: nat, now: nat) {
    && (forall k :: k in m' ==> k in m && m'[k] == m[k])
    && (forall k :: k in m ==> (k in m' <==> m[k].expiresAt + grace > now))
  }

  lemma SweepNothing(m: map<Key, Entry>, grace: nat, now: nat)
    requires now < grace
    ensures SweptAfterGrace(m, m, grace, now)
  {
  }

  lemma PurgedIff(m: map<Key, Entry>, m': map<Key, Entry>, history: seq<Event>, history': seq<Event>,
                  order: seq<Key>, order': seq<Key>, purged: nat, grace: nat, now: nat)
    requires now >= grace && Purged(m, m', history, history', order, order', purged, now - grace)
    ensures SweptAfterGrace(m, m', grace, now)
  {
    hide Without;
  }

  ghost function ExpiredBy(m: map<Key, Entry>, cutoff: nat): set<Key> {
    set k | k in m && m[k].expiresAt <= cutoff
  }

  lemma SweptView(m: map<Key, Entry>, cutoff: nat)
    ensures Kept(m, (e: Entry) => e.expiresAt > cutoff) == m - ExpiredBy(m, cutoff)
  {
  }

  lemma ShrinkSize(m: map<Key, Entry>, gone: set<Key>, slots: seq<Slot>, pos: map<Key, nat>, slots': seq<Slot>, pos': map<Key, nat>)
    requires Placed(slots, pos) && m == View(slots, pos) && Placed(slots', pos') && m - gone == View(slots', pos')
    ensures |slots'| <= |slots|
  {
    ViewSize(slots, pos);
    ViewSize(slots', pos');
    hide View;
    assert (m - gone).Keys <= m.Keys;
    SubsetSize((m - gone).Keys, m.Keys);
  }

  lemma {:induction false} SubsetSize(a: set<Key>, b: set<Key>)
    requires a <= b
    ensures |a| <= |b|
  {
    assert b == a + (b - a);
  }

  /** One slot is removed, and it is a victim of the window. */
  ghost predicate Evicts(before: seq<Slot>, after: seq<Slot>, start: nat, now: nat, v: nat) {
    v < |before| && IsVictim(before, start, now, v) && after == SwapRemove(before, v)
  }

  lemma EvictsShrinks(before: seq<Slot>, after: seq<Slot>, start: nat, now: nat, v: nat)
    requires Evicts(before, after, start, now, v)
    ensures v < |before| == |after| + 1
  {
  }

  /** The slots right after a new key was appended. */
  function Pushed(slots: seq<Slot>, hashOf: Key -> nat, key: Key, addrs: Addrs, expiresAt: nat, issued: nat): seq<Slot> {
    slots + [Slot(hashOf(key), key, Entry(addrs, expiresAt, issued % U64_SPACE))]
  }

  lemma VictimInRange(slots: seq<Slot>, start: nat, now: nat, v: nat)
    requires IsVictim(slots, start, now, v)
    ensures v < |slots|
  {
  }

  lemma TicksOfSlots(slots: seq<Slot>, pos: map<Key, nat>, order: seq<Key>, issued: nat)
    requires Placed(slots, pos) && Clock(View(slots, pos), order, issued)
    ensures forall i :: 0 <= i < |slots| ==> slots[i].entry.lastAccess < U64_SPACE
    ensures issued <= U64_SPACE ==> forall i :: 0 <= i < |slots| ==> slots[i].entry.lastAccess < issued
  {
    forall i | 0 <= i < |slots|
      ensures slots[i].key in View(slots, pos) && View(slots, pos)[slots[i].key] == slots[i].entry
    {
    }
  }

  /** With the key present or room left, the LRU list only touches the key. */
  lemma LruRoom(m: map<Key, Entry>, order: seq<Key>, issued: nat, k: Key, capacity: Option<nat>)
    requires Clock(m, order, issued)
    ensures issued < U64_SPACE && capacity.Some? && (k in m || |m| < capacity.value)
            ==> LruInsert(order, k, capacity.value) == MoveToBack(order, k)
  {
    if issued < U64_SPACE { AscendingSize(m, order); }
  }

  /** What the eviction after an append takes, given the ticks of the entries before it. */
  lemma EvictionOutcome(slots: seq<Slot>, pos: map<Key, nat>, order: seq<Key>, issued: nat, s: Slot,
                        after: seq<Slot>, pos': map<Key, nat>, start: nat, evictAt: nat, v: nat)
    requires Placed(slots, pos) && Clock(View(slots, pos), order, issued) && slots != []
    requires s.key !in View(slots, pos) && s.entry.lastAccess == issued % U64_SPACE
    requires Evicts(slots + [s], after, start, evictAt, v) && Placed(after, pos')
    ensures v <= |slots|
    ensures issued < U64_SPACE && !Expired(s, evictAt) ==> s.key in View(after, pos')
    ensures issued < U64_SPACE && !Expired(s, evictAt) && |slots| <= 7 && NoneExpired(slots, 0, |slots|, evictAt)
            ==> Without(MoveToBack(order, s.key), {(slots + [s])[v].key}) == LruInsert(order, s.key, |slots|)
  {
    if issued < U64_SPACE && !Expired(s, evictAt) {
      TicksOfSlots(slots, pos, order, issued);
      NewestSurvives(slots, s, start, evictAt, v);
      assert after[v] == (slots + [s])[|slots|];
      if |slots| <= 7 && NoneExpired(slots, 0, |slots|, evictAt) {
        LeastOfPushed(slots, pos, s, start, evictAt, v);
        ViewSize(slots, pos);
        EvictLeastIsLru(View(slots, pos), order, s.key, s.entry, (slots + [s])[v].key);
      }
    }
  }

  lemma LeastOfPushed(slots: seq<Slot>, pos: map<Key, nat>, s: Slot, start: nat, now: nat, v: nat)
    requires Placed(slots, pos) && s.key !in pos && |slots| <= 7
    requires NoneExpired(slots, 0, |slots|, now) && !Expired(s, now) && IsVictim(slots + [s], start, now, v)
    ensures IsLeast(View(slots, pos)[s.key := s.entry], (slots + [s])[v].key)
  {
    var all := slots + [s];
    assert start == 0 && NoneExpired(all, 0, |all|, now);
    PushView(slots, pos, s);
    var m := View(all, pos[s.key := |slots|]);
    forall x | x in m
      ensures m[all[v].key].lastAccess <= m[x].lastAccess
    {
    }
  }

  // ── Past capacity 7 the oldest entry may survive ───────────────────────────

  function Nth(i: nat): Key { Key(i, 0, "") }

  function FirstKeys(n: nat): (ks: seq<Key>)
    ensures |ks| == n && forall i :: 0 <= i < n ==> ks[i] == Nth(i)
  {
    seq(n, (i: nat) => Nth(i))
  }

  /** The slots after inserting the first keys in turn. */
  predicate InTurn(slots: seq<Slot>, n: nat, ttl: nat) {
    |slots| == n && forall i :: 0 <= i < n ==>
      slots[i].key == Nth(i) && slots[i].entry.lastAccess == i && slots[i].entry.expiresAt == ttl
  }

  lemma InTurnKeys(slots: seq<Slot>, pos: map<Key, nat>, n: nat, ttl: nat)
    requires Placed(slots, pos) && InTurn(slots, n, ttl)
    ensures Nth(n) !in View(slots, pos)
  {
  }

  lemma NextInTurn(slots: seq<Slot>, hashOf: Key -> nat, n: nat, ttl: nat)
    requires InTurn(slots, n, ttl) && n < U64_SPACE
    ensures InTurn(Pushed(slots, hashOf, Nth(n), [], ttl, n), n + 1, ttl)
  {
  }

  lemma KeysInTurn(n: nat)
    ensures MoveToBack(FirstKeys(n), Nth(n)) == FirstKeys(n + 1)
  {
    assert Nth(n) !in FirstKeys(n);
    WithoutAbsent(FirstKeys(n), Nth(n));
    assert FirstKeys(n) + [Nth(n)] == FirstKeys(n + 1);
  }

  /** In the window that leaves out the oldest slot the second oldest is the victim. */
  lemma SecondIsVictim(slots: seq<Slot>, n: nat, ttl: nat, v: nat)
    requires InTurn(slots, n, ttl) && n > EVICTION_SAMPLE && IsVictim(slots, 1, 0, v) && ttl > 0
    ensures v == 1
  {
    assert !Expired(slots[v], 0);
    assert slots[v].entry.lastAccess <= slots[1].entry.lastAccess;
  }

  lemma FirstStaysSecondGoes(slots: seq<Slot>, n: nat, ttl: nat, after: seq<Slot>, pos: map<Key, nat>)
    requires InTurn(slots, n, ttl) && n > 2 && after == SwapRemove(slots, 1) && Placed(after, pos)
    ensures Nth(0) in View(after, pos) && Nth(1) !in View(after, pos)
  {
    assert after[0] == slots[0];
  }

  lemma LruDropsTheFirst(n: nat)
    requires n > 0
    ensures Nth(0) !in LruInsert(FirstKeys(n), Nth(n), n)
  {
    hide Without, MoveToBack, FirstKeys;
    KeysInTurn(n);
    var ks := FirstKeys(n + 1);
    assert forall i :: 0 <= i < |ks[1..]| ==> ks[1..][i] == Nth(i + 1);
  }

  /**
   From capacity 8 on, whatever the hash function: a cache filled to capacity, each
   key once and in turn, evicts on the next insert the second oldest entry and keeps
   the oldest, when the window drawn leaves that one out.
   */
  method SamplingMissesTheOldest(hashOf: Key -> nat, ttl: nat, capacity: nat) returns (cache: Cache, ghost before: seq<Key>)
    requires 8 <= capacity < U64_SPACE && ttl > 0
    ensures cache.Valid() && cache.capacity == Some(capacity)
    ensures before == FirstKeys(capacity) && Nth(0) !in LruInsert(before, Nth(capacity), capacity)
    ensures Nth(0) in cache.store.Contents() && Nth(1) !in cache.store.Contents()
  {
    hide View, Placed, Indexed, Hashed, Records, Clock, MoveToBack, LruInsert, FirstKeys, InTurn, Pushed, Evicts, NoneExpired;
    cache := new Cache.WithCapacity(hashOf, ttl, capacity);
    StartInTurn(ttl);
    var i := 0;
    while i < capacity
      invariant 0 <= i <= capacity && cache.Valid() && cache.capacity == Some(capacity) && cache.ttl == ttl
      invariant fresh(cache) && fresh(cache.store)
      invariant cache.issued == i && cache.order == FirstKeys(i) && InTurn(cache.store.slots, i, ttl) && |cache.store.slots| == i
    {
      InTurnKeys(cache.store.slots, cache.store.pos, i, ttl);
      NextInTurn(cache.store.slots, cache.store.hashOf, i, ttl);
      KeysInTurn(i);
      ghost var v, w;
      v, w := cache.Insert(Nth(i), [], 0, 0, 0);
      i := i + 1;
      InTurnSize(cache.store.slots, i, ttl);
    }
    before := cache.order;
    InTurnKeys(cache.store.slots, cache.store.pos, capacity, ttl);
    NextInTurn(cache.store.slots, cache.store.hashOf, capacity, ttl);
    ghost var pushed := Pushed(cache.store.slots, cache.store.hashOf, Nth(capacity), [], ttl, capacity);
    InTurnSize(pushed, capacity + 1, ttl);
    LruDropsTheFirst(capacity);
    ghost var v, w;
    v, w := cache.Insert(Nth(capacity), [], 0, 0, 1);
    EvictedSecond(pushed, capacity + 1, ttl, cache.store.slots, v.value, cache.store.pos);
  }

  lemma EvictedSecond(pushed: seq<Slot>, n: nat, ttl: nat, after: seq<Slot>, v: nat, pos: map<Key, nat>)
    requires InTurn(pushed, n, ttl) && n > EVICTION_SAMPLE && ttl > 0
    requires Evicts(pushed, after, 1, 0, v) && Placed(after, pos)
    ensures Nth(0) in View(after, pos) && Nth(1) !in View(after, pos)
  {
    hide View, Placed, IsVictim;
    SecondIsVictim(pushed, n, ttl, v);
    FirstStaysSecondGoes(pushed, n, ttl, after, pos);
  }

  lemma StartInTurn(ttl: nat)
    ensures InTurn([], 0, ttl) && FirstKeys(0) == []
  {
  }

  lemma InTurnSize(slots: seq<Slot>, n: nat, ttl: nat)
    requires InTurn(slots, n, ttl)
    ensures |slots| == n
  {
  }
}
