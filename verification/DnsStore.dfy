/**
 The storage of the DNS cache: a dense slot vector under a hash index, and the
 eviction that samples a window of it.

 The hash is an arbitrary function of the key, so any two keys may collide, and
 the start of the eviction window is chosen freely.
 */
module DnsStore {
  import opened Bits
  import opened Wrappers

  datatype Key = Key(port: nat, pref: nat, host: string)

  type Addrs = seq<nat>

  datatype Entry = Entry(addrs: Addrs, expiresAt: nat, lastAccess: nat)

  datatype Slot = Slot(hash: nat, key: Key, entry: Entry)

  /** One element of the hash index: a slot number filed under a hash. */
  datatype Filed = Filed(hash: nat, slot: nat)

  const EVICTION_SAMPLE: nat := 8

  // ── The slots and what they mean ───────────────────────────────────────────

  /** `pos` gives each stored key its one slot: keys are distinct and nothing is missing. */
  ghost predicate Placed(slots: seq<Slot>, pos: map<Key, nat>) {
    && (forall i :: 0 <= i < |slots| ==> slots[i].key in pos && pos[slots[i].key] == i)
    && (forall k :: k in pos ==> pos[k] < |slots| && slots[pos[k]].key == k)
  }

  /** The plain map the slots stand for. */
  ghost function View(slots: seq<Slot>, pos: map<Key, nat>): map<Key, Entry>
    requires Placed(slots, pos)
  {
    map k | k in pos :: slots[pos[k]].entry
  }

  lemma {:induction false} ViewSize(slots: seq<Slot>, pos: map<Key, nat>)
    requires Placed(slots, pos)
    ensures |View(slots, pos)| == |slots|
  {
    assert View(slots, pos).Keys == pos.Keys;
    if slots == [] {
      assert pos == map[];
    } else {
      var n := |slots| - 1;
      var k := slots[n].key;
      assert Placed(slots[..n], pos - {k});
      ViewSize(slots[..n], pos - {k});
      assert View(slots[..n], pos - {k}).Keys == pos.Keys - {k};
    }
  }

  /** The last slot takes the place of the removed one. */
  function SwapRemove(slots: seq<Slot>, idx: nat): (out: seq<Slot>)
    requires idx < |slots|
    ensures |out| == |slots| - 1
    ensures forall i :: 0 <= i < |out| ==> out[i] == if i == idx then slots[|slots| - 1] else slots[i]
  {
    slots[idx := slots[|slots| - 1]][..|slots| - 1]
  }

  /** Positions after the swap: the removed key is gone and the last one sits in its place. */
  ghost function Replaced(slots: seq<Slot>, pos: map<Key, nat>, idx: nat): map<Key, nat>
    requires idx < |slots|
  {
    pos[slots[|slots| - 1].key := idx] - {slots[idx].key}
  }

  lemma SwapRemoveView(slots: seq<Slot>, pos: map<Key, nat>, idx: nat)
    requires idx < |slots| && Placed(slots, pos)
    ensures Placed(SwapRemove(slots, idx), Replaced(slots, pos, idx))
    ensures View(SwapRemove(slots, idx), Replaced(slots, pos, idx)) == View(slots, pos) - {slots[idx].key}
  {
    var out, pos' := SwapRemove(slots, idx), Replaced(slots, pos, idx);
    assert Placed(out, pos');
    assert View(out, pos').Keys == View(slots, pos).Keys - {slots[idx].key};
  }

  lemma UpdateView(slots: seq<Slot>, pos: map<Key, nat>, idx: nat, e: Entry)
    requires idx < |slots| && Placed(slots, pos)
    ensures Placed(slots[idx := slots[idx].(entry := e)], pos)
    ensures View(slots[idx := slots[idx].(entry := e)], pos) == View(slots, pos)[slots[idx].key := e]
  {
  }

  lemma PushView(slots: seq<Slot>, pos: map<Key, nat>, s: Slot)
    requires Placed(slots, pos) && s.key !in pos
    ensures Placed(slots + [s], pos[s.key := |slots|])
    ensures View(slots + [s], pos[s.key := |slots|]) == View(slots, pos)[s.key := s.entry]
  {
  }

  // ── The index ──────────────────────────────────────────────────────────────

  /** Every live slot is filed exactly once, under its cached hash, and nothing else is filed. */
  ghost predicate Indexed(slots: seq<Slot>, index: multiset<Filed>) {
    && (forall i :: 0 <= i < |slots| ==> index[Filed(slots[i].hash, i)] == 1)
    && (forall f :: f in index ==> f.slot < |slots| && f.hash == slots[f.slot].hash)
  }

  ghost predicate Hashed(slots: seq<Slot>, hashOf: Key -> nat) {
    forall i :: 0 <= i < |slots| ==> slots[i].hash == hashOf(slots[i].key)
  }

  /** The index after a removal: the victim is unfiled and the moved slot refiled. */
  ghost function Refiled(slots: seq<Slot>, index: multiset<Filed>, idx: nat): multiset<Filed>
    requires idx < |slots|
  {
    var last := |slots| - 1;
    var gone := index - multiset{Filed(slots[idx].hash, idx)};
    if idx == last then gone
    else gone - multiset{Filed(slots[last].hash, last)} + multiset{Filed(slots[last].hash, idx)}
  }

  lemma SwapRemoveIndexed(slots: seq<Slot>, index: multiset<Filed>, idx: nat)
    requires idx < |slots| && Indexed(slots, index)
    ensures Indexed(SwapRemove(slots, idx), Refiled(slots, index, idx))
  {
    var out, after := SwapRemove(slots, idx), Refiled(slots, index, idx);
    forall i | 0 <= i < |out|
      ensures after[Filed(out[i].hash, i)] == 1
    {
      if i != idx { assert index[Filed(slots[i].hash, i)] == 1; }
    }
    forall f | f in after
      ensures f.slot < |out| && f.hash == out[f.slot].hash
    {
      OnlyMovedIsNew(slots, index, idx, f);
    }
  }

  lemma OnlyMovedIsNew(slots: seq<Slot>, index: multiset<Filed>, idx: nat, f: Filed)
    requires idx < |slots| && Indexed(slots, index) && f in Refiled(slots, index, idx)
    ensures var last := |slots| - 1;
            if f.slot == idx then idx != last && f.hash == slots[last].hash
            else f.slot < last && f.hash == slots[f.slot].hash
  {
    var last := |slots| - 1;
    var v, m := Filed(slots[idx].hash, idx), Filed(slots[last].hash, last);
    if f != Filed(slots[last].hash, idx) || idx == last {
      assert f in index;
      assert index[f] == 1 && f != v && f != m;
    }
  }

  /** What the two probes of a removal find, and that acting on it refiles the index. */
  lemma SwapRemoveFiled(slots: seq<Slot>, index: multiset<Filed>, idx: nat)
    requires idx < |slots| && Indexed(slots, index)
    ensures var last := |slots| - 1;
            var v, m := Filed(slots[idx].hash, idx), Filed(slots[last].hash, last);
            && v in index && (forall f :: f in index && f.slot == idx ==> f == v)
            && (idx == last ==> Refiled(slots, index, idx) == index - multiset{v})
            && (idx != last ==>
                  && m in index - multiset{v}
                  && (forall f :: f in index - multiset{v} && f.slot == last ==> f == m)
                  && Refiled(slots, index, idx) == index - multiset{v} - multiset{m} + multiset{Filed(m.hash, idx)})
  {
  }

  lemma SwapRemoveHashed(slots: seq<Slot>, hashOf: Key -> nat, idx: nat)
    requires idx < |slots| && Hashed(slots, hashOf)
    ensures Hashed(SwapRemove(slots, idx), hashOf)
  {
  }

  lemma PushIndexed(slots: seq<Slot>, index: multiset<Filed>, s: Slot)
    requires Indexed(slots, index)
    ensures Indexed(slots + [s], index + multiset{Filed(s.hash, |slots|)})
  {
    assert Filed(s.hash, |slots|) !in index;
  }

  // ── The store ──────────────────────────────────────────────────────────────

  class Store {
    const hashOf: Key -> nat
    var slots: seq<Slot>
    var index: multiset<Filed>
    ghost var pos: map<Key, nat>

    ghost predicate Valid()
      reads this
    {
      Placed(slots, pos) && Hashed(slots, hashOf) && Indexed(slots, index)
    }

    ghost function Contents(): map<Key, Entry>
      requires Valid()
      reads this
    {
      View(slots, pos)
    }

    constructor (hashOf: Key -> nat)
      ensures Valid() && Contents() == map[] && slots == [] && this.hashOf == hashOf
    {
      this.hashOf := hashOf;
      slots := [];
      index := multiset{};
      pos := map[];
    }

    /** A probe visits every element filed under the hash, and may visit others. */
    method Probe(hash: nat) returns (probed: set<Filed>)
      ensures forall f :: f in probed ==> f in index
      ensures forall f :: f in index && f.hash == hash ==> f in probed
    {
      probed := set f | f in index;
    }

    method Find(hash: nat, key: Key) returns (r: Option<nat>)
      requires Valid() && hash == hashOf(key)
      ensures r.Some? ==> r.value < |slots| && slots[r.value].key == key
      ensures r.Some? <==> key in Contents()
    {
      ghost var filed := if key in pos then Filed(slots[pos[key]].hash, pos[key]) else Filed(0, 0);
      assert key in pos ==> filed in index;
      var probed := Probe(hash);
      if f :| f in probed && slots[f.slot].key == key {
        return Some(f.slot);
      }
      r := None;
    }

    method Push(hash: nat, key: Key, entry: Entry)
      requires Valid() && hash == hashOf(key) && key !in Contents()
      modifies this
      ensures Valid() && slots == old(slots) + [Slot(hash, key, entry)]
      ensures Contents() == old(Contents())[key := entry]
    {
      PushView(slots, pos, Slot(hash, key, entry));
      PushIndexed(slots, index, Slot(hash, key, entry));
      index := index + multiset{Filed(hash, |slots|)};
      pos := pos[key := |slots|];
      slots := slots + [Slot(hash, key, entry)];
    }

    method RemoveAt(idx: nat)
      requires Valid() && idx < |slots|
      modifies this
      ensures Valid() && slots == SwapRemove(old(slots), idx)
      ensures Contents() == old(Contents()) - {old(slots)[idx].key}
    {
      hide Placed, View, Replaced, Hashed, Indexed, Refiled;
      SwapRemoveView(slots, pos, idx);
      SwapRemoveIndexed(slots, index, idx);
      SwapRemoveHashed(slots, hashOf, idx);
      SwapRemoveFiled(slots, index, idx);
      ghost var pos', index' := Replaced(slots, pos, idx), Refiled(slots, index, idx);
      var last := |slots| - 1;
      var tail := slots[last];
      Unfile(slots[idx].hash, idx);
      pos := pos';
      slots := slots[idx := tail][..last];
      if idx != last { Refile(tail.hash, last, idx); }
      assert index == index';
    }

    /** Finds the element of a slot by its hash and drops it from the index. */
    method Unfile(hash: nat, slot: nat)
      requires Filed(hash, slot) in index && forall f :: f in index && f.slot == slot ==> f == Filed(hash, slot)
      modifies this`index
      ensures index == old(index) - multiset{Filed(hash, slot)}
    {
      var probed := Probe(hash);
      var victim :| victim in probed && victim.slot == slot;
      index := index - multiset{victim};
    }

    /** Finds the element of a slot by its hash and repoints it. */
    method Refile(hash: nat, slot: nat, to: nat)
      requires Filed(hash, slot) in index && forall f :: f in index && f.slot == slot ==> f == Filed(hash, slot)
      modifies this`index
      ensures index == old(index) - multiset{Filed(hash, slot)} + multiset{Filed(hash, to)}
    {
      var probed := Probe(hash);
      var moved :| moved in probed && moved.slot == slot;
      index := index - multiset{moved} + multiset{Filed(moved.hash, to)};
    }

    method SetEntry(idx: nat, e: Entry)
      requires Valid() && idx < |slots|
      modifies this
      ensures Valid() && slots == old(slots)[idx := old(slots)[idx].(entry := e)]
      ensures Contents() == old(Contents())[old(slots)[idx].key := e]
    {
      UpdateView(slots, pos, idx, e);
      slots := slots[idx := slots[idx].(entry := e)];
    }

    /** Drops exactly the entries that fail `keep`, back to front, and counts them. */
    method Retain(keep: Entry -> bool) returns (removed: nat)
      requires Valid()
      modifies this
      ensures Valid()
      ensures Contents() == Kept(old(Contents()), keep)
      ensures removed == |old(Contents())| - |Contents()|
    {
      ghost var before, pos0 := slots, pos;
      removed := 0;
      var idx := |slots|;
      while idx > 0
        invariant Valid() && 0 <= idx <= |slots| && |slots| + removed == |before|
        invariant Sifted(before, View(before, pos0), slots, Contents(), idx, keep)
      {
        idx := idx - 1;
        if !keep(slots[idx].entry) {
          SiftRemove(before, pos0, slots, pos, idx, keep);
          RemoveAt(idx);
          removed := removed + 1;
        } else {
          SiftKeep(before, pos0, slots, pos, idx, keep);
        }
      }
      ViewSize(before, pos0);
      ViewSize(slots, pos);
      SiftedAll(before, pos0, slots, pos, keep);
    }
  }

  ghost function Kept(m: map<Key, Entry>, keep: Entry -> bool): map<Key, Entry> {
    map k | k in m && keep(m[k]) :: m[k]
  }

  // ── The backward sieve ─────────────────────────────────────────────────────

  /** Slots below `idx` are untouched; above it exactly the kept ones remain, in some order. */
  ghost predicate Sifted(before: seq<Slot>, was: map<Key, Entry>, slots: seq<Slot>, now: map<Key, Entry>,
                         idx: nat, keep: Entry -> bool)
  {
    && idx <= |slots| && idx <= |before|
    && (forall i :: 0 <= i < idx ==> slots[i] == before[i])
    && (forall i :: idx <= i < |slots| ==> keep(slots[i].entry))
    && (forall k :: k in now ==> k in was && now[k] == was[k])
    && (forall i :: idx <= i < |before| && keep(before[i].entry) ==> before[i].key in now)
  }

  lemma SiftRemove(before: seq<Slot>, pos0: map<Key, nat>, slots: seq<Slot>, pos: map<Key, nat>, idx: nat, keep: Entry -> bool)
    requires Placed(before, pos0) && Placed(slots, pos) && idx < |slots|
    requires Sifted(before, View(before, pos0), slots, View(slots, pos), idx + 1, keep) && !keep(slots[idx].entry)
    ensures Sifted(before, View(before, pos0), SwapRemove(slots, idx), View(slots, pos) - {slots[idx].key}, idx, keep)
  {
  }

  lemma SiftKeep(before: seq<Slot>, pos0: map<Key, nat>, slots: seq<Slot>, pos: map<Key, nat>, idx: nat, keep: Entry -> bool)
    requires Placed(before, pos0) && Placed(slots, pos) && idx < |slots|
    requires Sifted(before, View(before, pos0), slots, View(slots, pos), idx + 1, keep) && keep(slots[idx].entry)
    ensures Sifted(before, View(before, pos0), slots, View(slots, pos), idx, keep)
  {
  }

  lemma SiftedAll(before: seq<Slot>, pos0: map<Key, nat>, slots: seq<Slot>, pos: map<Key, nat>, keep: Entry -> bool)
    requires Placed(before, pos0) && Placed(slots, pos)
    requires Sifted(before, View(before, pos0), slots, View(slots, pos), 0, keep)
    ensures View(slots, pos) == Kept(View(before, pos0), keep)
  {
    forall k | k in View(before, pos0) && keep(View(before, pos0)[k])
      ensures k in View(slots, pos)
    {
      assert before[pos0[k]].key == k;
    }
  }

  // ── Eviction ───────────────────────────────────────────────────────────────

  function SampleSize(len: nat): nat {
    if len < EVICTION_SAMPLE then len else EVICTION_SAMPLE
  }

  predicate Expired(s: Slot, now: nat) { s.entry.expiresAt <= now }

  predicate NoneExpired(slots: seq<Slot>, lo: nat, hi: nat, now: nat)
    requires hi <= |slots|
  {
    forall j :: lo <= j < hi ==> !Expired(slots[j], now)
  }

  /** The first expired slot of the window; without one, a least recently accessed one. */
  predicate IsVictim(slots: seq<Slot>, start: nat, now: nat, v: nat) {
    var end := start + SampleSize(|slots|);
    && end <= |slots| && start <= v < end
    && NoneExpired(slots, start, v, now)
    && (Expired(slots[v], now)
        || (NoneExpired(slots, start, end, now)
            && forall j :: start <= j < end ==> slots[v].entry.lastAccess <= slots[j].entry.lastAccess))
  }

  method PickVictim(slots: seq<Slot>, start: nat, now: nat) returns (victim: nat)
    requires |slots| > 0 && start + SampleSize(|slots|) <= |slots|
    requires forall i :: 0 <= i < |slots| ==> slots[i].entry.lastAccess < U64_SPACE
    ensures IsVictim(slots, start, now, victim)
    ensures start <= victim < start + 8 && victim < |slots|
    ensures slots[victim].entry.expiresAt <= now
            || forall j :: start <= j < start + 8 && j < |slots| ==> slots[j].entry.expiresAt > now
  {
    victim := start;
    var oldest := U64_SPACE - 1;
    var j := start;
    while j < start + SampleSize(|slots|)
      invariant start <= j <= start + SampleSize(|slots|)
      invariant start <= victim && (j == start ==> victim == start) && (j > start ==> victim < j)
      invariant NoneExpired(slots, start, j, now)
      invariant forall i :: start <= i < j ==> oldest <= slots[i].entry.lastAccess
      invariant oldest == U64_SPACE - 1 || (j > start && slots[victim].entry.lastAccess == oldest)
    {
      if slots[j].entry.expiresAt <= now {
        return j;
      }
      if slots[j].entry.lastAccess < oldest {
        oldest := slots[j].entry.lastAccess;
        victim := j;
      }
      j := j + 1;
    }
  }

  /** The newest entry is never picked while it is alive and anything older is stored. */
  lemma NewestSurvives(slots: seq<Slot>, s: Slot, start: nat, now: nat, v: nat)
    requires slots != [] && !Expired(s, now)
    requires forall i :: 0 <= i < |slots| ==> slots[i].entry.lastAccess < s.entry.lastAccess
    requires IsVictim(slots + [s], start, now, v)
    ensures v < |slots|
  {
    var all := slots + [s];
    assert all[|slots|] == s;
    assert start < |slots| && all[start] == slots[start];
  }

  predicate LeastRecent(slots: seq<Slot>, v: nat)
    requires v < |slots|
  {
    forall j :: 0 <= j < |slots| ==> slots[v].entry.lastAccess <= slots[j].entry.lastAccess
  }

  /** Sampling finds the least recently used of all entries, whatever the window, up to capacity 7 and no further. */
  lemma ExactIffWindowCoversAll(capacity: nat)
    ensures (forall slots: seq<Slot>, start: nat, now: nat, v: nat ::
               |slots| == capacity + 1 && NoneExpired(slots, 0, |slots|, now) && IsVictim(slots, start, now, v)
               ==> LeastRecent(slots, v))
            <==> capacity <= 7
  {
    if capacity >= 8 {
      var slots := seq(capacity + 1, (i: nat) => Slot(0, Key(i, 0, ""), Entry([], 1, i)));
      assert NoneExpired(slots, 0, |slots|, 0) && IsVictim(slots, 1, 0, 1);
      assert slots[0].entry.lastAccess < slots[1].entry.lastAccess;
      assert !LeastRecent(slots, 1);
    }
  }
}
