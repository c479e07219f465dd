/** The hash map itself: three parallel sequences, updated by probing, erasing and rehashing loops. */
module HashMap {
  import opened Bits
  import opened HashTable
  import opened Wrappers
  import Laws = HashMapLaws

  class HashMap<K(==), V> {
    const c: Traits<K, V>
    var hashes: seq<nat>
    var keys: seq<K>
    var values: seq<V>
    var size: int
    var tombstones: int

    ghost function Snapshot(): Table<K, V>
      reads this
    {
      Table(hashes, keys, values, size, tombstones)
    }

    /** The invariant that holds for every hasher; the loops below end because of it. */
    ghost predicate Valid()
      reads this
    {
      Counted(Snapshot(), c)
    }

    constructor (c: Traits<K, V>)
      ensures Valid() && Snapshot() == NewTable() && this.c == c
    {
      this.c := c;
      hashes, keys, values, size, tombstones := [], [], [], 0, 0;
      new;
      NewIsGood(c);
    }

    method FindIndex(key: K) returns (r: Option<nat>)
      requires Valid()
      ensures r == HashTable.FindIndex(Snapshot(), c, key)
      ensures r.Some? ==> Snapshot().Live(r.value)
    {
      hide Count, Clean, And;
      ghost var t := Snapshot();
      Laws.FoundIsLive(t, c, key);
      if |hashes| == 0 {
        return None;
      }
      var rawHash := c.hash(key);
      var index: nat := Slot(rawHash, |hashes|);
      var hashKey := ToHashKey(rawHash);
      ghost var n: nat := |hashes|;
      ghost var stop := StopExists(t, c, key, hashKey, index);
      while true
        invariant index < |hashes| && Stops(t, key, hashKey, index, stop) && Dist(index, stop, |hashes|) < n
        invariant Probe(t, key, hashKey, index, n) == HashTable.FindIndex(t, c, key)
        decreases Dist(index, stop, |hashes|)
      {
        var kh := hashes[index];
        if kh == HASH_EMPTY {
          return None;
        } else if kh == hashKey && keys[index] == key {
          return Some(index);
        }
        StopsNext(t, key, hashKey, index, stop);
        index := NextSlot(index, |hashes|);
        n := n - 1;
      }
    }

    /** The probe of `reserve_slot`: the slot of the key, or else the first tombstone on the way, or the EMPTY slot. */
    method FindPlace(key: K) returns (spot: Spot)
      requires Valid() && |hashes| > 0
      ensures spot == Place(Snapshot(), c, key)
    {
      hide Count, Clean, And;
      ghost var t := Snapshot();
      var rawHash := c.hash(key);
      var index: nat := Slot(rawHash, |hashes|);
      var insertI: Option<nat> := None;
      var hashKey := ToHashKey(rawHash);
      ghost var n: nat := |hashes|;
      ghost var stop := StopExists(t, c, key, hashKey, index);
      while true
        invariant index < |hashes| && (insertI.Some? ==> insertI.value < |hashes|)
        invariant Stops(t, key, hashKey, index, stop) && Dist(index, stop, |hashes|) < n
        invariant PlaceFrom(t, key, hashKey, index, insertI, n) == Place(t, c, key)
        decreases Dist(index, stop, |hashes|)
      {
        var kh := hashes[index];
        if kh == HASH_EMPTY {
          return if insertI.Some? then Vacant(insertI.value, true) else Vacant(index, false);
        } else if kh == HASH_KILLED {
          if insertI.None? { insertI := Some(index); }
        } else if kh == hashKey && keys[index] == key {
          return Found(index);
        }
        StopsNext(t, key, hashKey, index, stop);
        index := NextSlot(index, |hashes|);
        n := n - 1;
      }
    }

    /** The slot of the key, new or old; grows or rehashes first when needed. */
    method ReserveSlot(key: K) returns (index: nat, inserted: bool)
      requires Valid()
      modifies this
      ensures Valid()
      ensures Reserved(Snapshot(), index, inserted) == HashTable.ReserveSlot(old(Snapshot()), c, key)
      ensures Snapshot().Live(index) && keys[index] == key
    {
      hide Count, Clean, And, Place, Moved;
      PreparedCounted(Snapshot(), c);
      ReserveCounted(Snapshot(), c, key);
      if size >= |hashes| / 2 {
        Grow();
      } else if (|hashes| - size) / 2 < tombstones {
        RehashInto(|hashes|);
      }
      assert Snapshot() == Prepared(old(Snapshot()), c);
      var spot := FindPlace(key);
      if spot.Found? {
        return spot.index, false;
      }
      index := spot.index;
      if spot.reused {
        tombstones := tombstones - 1;
      }
      assert values[index := values[index]] == values;
      hashes := hashes[index := ToHashKey(c.hash(key))];
      keys := keys[index := key];
      size := size + 1;
      return index, true;
    }

    method EraseIndex(key: K) returns (erased: bool)
      requires Valid()
      modifies this
      ensures Valid()
      ensures (Snapshot(), erased) == EraseKey(old(Snapshot()), c, key)
    {
      var idx := FindIndex(key);
      if idx.None? {
        return false;
      }
      var next := EraseAt(idx.value);
      return true;
    }

    /** Erase the entry of an iterator; the result is the iterator to the next one. */
    method EraseAt(idx: nat) returns (next: nat)
      requires Valid() && Snapshot().Live(idx)
      modifies this
      ensures Valid()
      ensures Snapshot() == Kill(old(Snapshot()), c, idx)
      ensures next == Laws.NextLive(Snapshot(), idx + 1)
    {
      KillCounted(Snapshot(), c, idx);
      hashes := hashes[idx := HASH_KILLED];
      keys := keys[idx := c.noKey];
      values := values[idx := c.noValue];
      size := size - 1;
      tombstones := tombstones + 1;
      next := Advance(idx);
    }

    /** `++it`: the next live slot, or the end. */
    method Advance(i: nat) returns (index: nat)
      requires Valid() && i < |hashes|
      ensures index == Laws.NextLive(Snapshot(), i + 1)
    {
      index := i + 1;
      while index < |hashes| && hashes[index] <= HASH_KILLED
        invariant index <= |hashes| && Laws.NextLive(Snapshot(), index) == Laws.NextLive(Snapshot(), i + 1)
      {
        index := index + 1;
      }
    }

    /** `begin()`. */
    method FirstLiveIndex() returns (index: nat)
      requires Valid()
      ensures index == Laws.NextLive(Snapshot(), 0)
    {
      var cap := |hashes|;
      for i := 0 to cap
        invariant Laws.NextLive(Snapshot(), i) == Laws.NextLive(Snapshot(), 0)
      {
        if hashes[i] > HASH_KILLED {
          return i;
        }
      }
      return cap;
    }

    method Grow()
      requires Valid() && size >= |hashes| / 2
      modifies this
      ensures Valid()
      ensures Snapshot() == Rehash(old(Snapshot()), c, if |old(hashes)| == 0 then MIN_CAPACITY else 2 * |old(hashes)|)
    {
      SizedDivides(|hashes|);
      RehashInto(if |hashes| == 0 then MIN_CAPACITY else |hashes| * 2);
    }

    /** Move every live entry into new sequences; the tombstones are left behind. */
    method RehashInto(newCap: nat)
      requires Valid() && Sized(newCap) && newCap > 0 && 2 * size <= newCap
      modifies this
      ensures Valid()
      ensures Snapshot() == Rehash(old(Snapshot()), c, newCap)
    {
      hide Count, Clean, And;
      RehashCounted(Snapshot(), c, newCap);
      var newHashes: seq<nat> := seq(newCap, _ => HASH_EMPTY);
      var noKey, noValue := c.noKey, c.noValue;
      var newKeys := seq(newCap, _ => noKey);
      var newValues := seq(newCap, _ => noValue);
      ghost var t, n := Snapshot(), |hashes|;
      assert Table(newHashes, newKeys, newValues, 0, 0) == Blank(newCap, c);
      for i := 0 to |hashes|
        invariant Snapshot() == t
        invariant |newHashes| == newCap && |newKeys| == newCap && |newValues| == newCap
        invariant Table(newHashes, newKeys, newValues, 0, 0) == Moved(t, c, newCap, i)
      {
        var kh := hashes[i];
        if kh > HASH_KILLED {
          MovedCounts(t, c, newCap, i);
          ghost var e := TargetIs(t, c, newCap, i, kh);
          var j: nat := Slot(kh, newCap);
          while newHashes[j] != HASH_EMPTY
            invariant Snapshot() == t && j < newCap && NoGap(newHashes, j, e)
            decreases Dist(j, e, newCap)
          {
            GapNext(newHashes, j, e);
            j := NextSlot(j, newCap);
          }
          assert Dist(j, j, newCap) == 0;
          newHashes := newHashes[j := kh];
          newKeys := newKeys[j := keys[i]];
          newValues := newValues[j := values[i]];
        }
      }
      hashes, keys, values, tombstones := newHashes, newKeys, newValues, 0;
    }

    method Reserve(n: nat)
      requires Valid()
      modifies this
      ensures Valid()
      ensures Snapshot() == HashTable.Reserve(old(Snapshot()), c, n)
    {
      if n == 0 {
        return;
      }
      var needed := MIN_CAPACITY;
      SizedDivides(0);
      while needed < n * 2
        invariant Snapshot() == old(Snapshot()) && needed > 0 && Sized(needed) && Needed(n, needed) == Needed(n, MIN_CAPACITY)
        decreases 2 * n - needed
      {
        SizedDivides(needed);
        needed := needed * 2;
      }
      if needed > |hashes| {
        RehashInto(needed);
      }
    }

    method Clear()
      modifies this
      ensures Valid() && Snapshot() == NewTable()
    {
      hashes, keys, values, size, tombstones := [], [], [], 0, 0;
      NewIsGood(c);
    }

    /** `contains`, `count`, `find` and `at`: the value when the key is there. */
    method Lookup(key: K) returns (r: Laws.Answer<V>)
      requires Valid()
      ensures (Snapshot(), r) == Laws.Step(Snapshot(), c, Laws.Looking(key))
    {
      var idx := FindIndex(key);
      match idx
      case None => r := Laws.Absent;
      case Some(i) => r := Laws.Got(values[i]);
    }

    /** `insert`, `emplace` and `try_emplace`. */
    method Insert(key: K, value: V) returns (index: nat, inserted: bool)
      requires Valid()
      modifies this
      ensures Valid()
      ensures Reserved(Snapshot(), index, inserted) == HashTable.Insert(old(Snapshot()), c, key, value)
      ensures index < |hashes| == |keys| == |values| && hashes[index] > HASH_KILLED && keys[index] == key
      ensures inserted ==> values[index] == value
      ensures old(Good(Snapshot(), c) && PlainKeys(Snapshot(), c)) ==>
                && (inserted <==> key !in old(View(Snapshot())))
                && values[index] == if key in old(View(Snapshot())) then old(View(Snapshot()))[key] else value
    {
      ghost var before := Snapshot();
      Laws.InsertCounted(before, c, key, value);
      if Good(before, c) && PlainKeys(before, c) { Laws.AddingAgrees(before, c, key, value); }
      hide Good, PlainKeys, View;
      index, inserted := ReserveSlot(key);
      if inserted {
        SetCounted(Snapshot(), c, index, value);
        values := values[index := value];
      }
    }

    /** `operator[]`, read. */
    method Subscript(key: K) returns (value: V)
      requires Valid()
      modifies this
      ensures Valid()
      ensures (Snapshot(), Laws.Got(value)) == Laws.Step(old(Snapshot()), c, Laws.Indexing(key))
    {
      var index, inserted := ReserveSlot(key);
      value := values[index];
    }

    /** `operator[]`, assigned to. */
    method Assign(key: K, value: V)
      requires Valid()
      modifies this
      ensures Valid()
      ensures Snapshot() == Laws.Step(old(Snapshot()), c, Laws.Assigning(key, value)).0
    {
      var index, inserted := ReserveSlot(key);
      SetCounted(Snapshot(), c, index, value);
      values := values[index := value];
    }

    /** A loop that erases what `drop` selects and goes on from the iterator `erase` returns. */
    method EraseWhere(drop: (K, V) -> bool) returns (ghost seen: seq<(K, V)>)
      requires Valid()
      modifies this
      ensures Valid()
      ensures (Snapshot(), seen) == Laws.EraseWhere(old(Snapshot()), c, drop, Laws.NextLive(old(Snapshot()), 0))
    {
      hide Laws.EraseWhere, Count, Clean;
      var it := FirstLiveIndex();
      ghost var all := Laws.EraseWhere(Snapshot(), c, drop, it);
      seen := [];
      while it != |hashes|
        invariant Valid() && it <= |hashes| && (it < |hashes| ==> Snapshot().Live(it))
        invariant all.0 == Laws.EraseWhere(Snapshot(), c, drop, it).0
        invariant all.1 == seen + Laws.EraseWhere(Snapshot(), c, drop, it).1
        decreases |hashes| - it
      {
        ghost var entry := (keys[it], values[it]);
        Laws.EraseWhereStep(Snapshot(), c, drop, it);
        if drop(keys[it], values[it]) {
          it := EraseAt(it);
        } else {
          it := Advance(it);
        }
        seen := seen + [entry];
      }
      Laws.EraseWhereEnd(Snapshot(), c, drop);
      assert seen + [] == seen;
    }
  }
}
