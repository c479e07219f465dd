/** The open-addressing table with tombstones as values: probing, placing, erasing and rehashing. */
module HashTable {
  import opened Bits
  import opened Wrappers

  const HASH_EMPTY: nat := 0
  const HASH_KILLED: nat := 1
  const HASH_REMAP: nat := 1099511628211
  const MIN_CAPACITY: nat := 8

  /** The hasher, and the default key and value that fill unused slots. */
  datatype Traits<!K, V> = Traits(hash: K -> nat, noKey: K, noValue: V)

  datatype Table<K, V> = Table(hashes: seq<nat>, keys: seq<K>, values: seq<V>, size: int, tombstones: int) {
    predicate Shaped() {
      |keys| == |hashes| && |values| == |hashes|
    }

    predicate Live(i: int) {
      0 <= i < |hashes| && hashes[i] > HASH_KILLED
    }
  }

  function NewTable<K, V>(): Table<K, V> {
    Table([], [], [], 0, 0)
  }

  function ToHashKey(h: nat): (r: nat)
    ensures r > HASH_KILLED
  {
    if h <= HASH_KILLED then HASH_REMAP else h
  }

  // ---------- slots ----------

  /** Capacities: none, or eight doubled. */
  ghost predicate Sized(cap: nat) {
    cap == 0 || exists k: nat :: cap == Shl(MIN_CAPACITY, k)
  }

  /** `x & mask`. */
  function Slot(x: nat, cap: nat): (i: nat)
    requires cap > 0
    ensures i < cap
  {
    AndAtMost(x, cap - 1);
    And(x, cap - 1)
  }

  function NextSlot(i: nat, cap: nat): (j: nat)
    requires cap > 0
    ensures j < cap
  {
    Slot(i + 1, cap)
  }

  lemma {:induction false} AndAtMost(x: nat, y: nat)
    ensures And(x, y) <= y
  {
    if x > 0 && y > 0 { AndAtMost(x / 2, y / 2); }
  }

  /** With such a capacity the mask is the remainder, and probing goes around. */
  lemma {:induction false} SlotIsMod(x: nat, cap: nat)
    requires Sized(cap) && cap > 0
    ensures Slot(x, cap) == x % cap
  {
    hide And, Shl, Shr, LowBits, Pow;
    var k: nat :| cap == Shl(MIN_CAPACITY, k);
    EightIsShl();
    ShlShl(1, 3, k);
    ShlOne(k + 3);
    AndLowMask(x, k + 3);
    ShrIsDiv(x, k + 3);
  }

  lemma EightIsShl()
    ensures Shl(1, 3) == MIN_CAPACITY
  {}

  lemma {:induction false} NextSlotIs(i: nat, cap: nat)
    requires Sized(cap) && i < cap
    ensures NextSlot(i, cap) == if i + 1 == cap then 0 else i + 1
  {
    SlotIsMod(i + 1, cap);
    if i + 1 == cap { DivModUnique(cap, cap, 1, 0); } else { ModSmall(i + 1, cap); }
  }

  lemma {:induction false} SizedDivides(cap: nat)
    requires Sized(cap)
    ensures cap % 4 == 0
    ensures cap > 0 ==> cap >= MIN_CAPACITY
    ensures Sized(MIN_CAPACITY)
    ensures cap > 0 ==> Sized(2 * cap)
  {
    ShlNone(MIN_CAPACITY);
    if cap > 0 {
      var k: nat :| cap == Shl(MIN_CAPACITY, k);
      ShlDivides(k);
      assert 2 * cap == Shl(MIN_CAPACITY, k + 1);
    }
  }

  lemma {:induction false} ShlDivides(k: nat)
    ensures Shl(MIN_CAPACITY, k) % 4 == 0
  {
    if k > 0 { ShlDivides(k - 1); }
  }

  /** How many steps of probing lead from `a` to `b`. */
  function Dist(a: nat, b: nat, cap: nat): nat
    requires a < cap && b < cap
  {
    if a <= b then b - a else b + cap - a
  }

  // ---------- counting ----------

  /** 0 for EMPTY, 1 for KILLED, 2 for live. */
  function Kind(h: nat): nat {
    if h <= HASH_KILLED then h else 2
  }

  function Count(hs: seq<nat>, kind: nat): (n: nat)
    ensures n <= |hs|
  {
    if |hs| == 0 then 0
    else Count(hs[..|hs| - 1], kind) + if Kind(hs[|hs| - 1]) == kind then 1 else 0
  }

  lemma {:induction false} CountTotal(hs: seq<nat>)
    ensures Count(hs, 0) + Count(hs, 1) + Count(hs, 2) == |hs|
  {
    if |hs| > 0 { CountTotal(hs[..|hs| - 1]); }
  }

  lemma {:induction false} CountUpdate(hs: seq<nat>, i: nat, h: nat, kind: nat)
    requires i < |hs|
    ensures Count(hs[i := h], kind) + (if Kind(hs[i]) == kind then 1 else 0)
         == Count(hs, kind) + (if Kind(h) == kind then 1 else 0)
  {
    var n := |hs| - 1;
    if i == n {
      assert hs[i := h][..n] == hs[..n];
    } else {
      CountUpdate(hs[..n], i, h, kind);
      assert hs[i := h][..n] == hs[..n][i := h];
    }
  }

  lemma {:induction false} CountNone(hs: seq<nat>, kind: nat)
    requires forall i :: 0 <= i < |hs| ==> Kind(hs[i]) != kind
    ensures Count(hs, kind) == 0
  {
    if |hs| > 0 { CountNone(hs[..|hs| - 1], kind); }
  }

  lemma {:induction false} CountPrefix(hs: seq<nat>, n: nat, kind: nat)
    requires n <= |hs|
    ensures Count(hs[..n], kind) <= Count(hs, kind)
    ensures n < |hs| ==> Count(hs[..n + 1], kind) == Count(hs[..n], kind) + if Kind(hs[n]) == kind then 1 else 0
    decreases |hs| - n
  {
    if n < |hs| {
      assert hs[..n + 1][..n] == hs[..n];
      CountPrefix(hs, n + 1, kind);
    } else {
      assert hs[..n] == hs;
    }
  }

  // ---------- the invariants ----------

  /** What holds for every hasher: the counters are exact, at most half of the slots are live and at most
      three quarters used, and unused slots hold the defaults. */
  ghost predicate Counted<K, V>(t: Table<K, V>, c: Traits<K, V>) {
    && t.Shaped() && Sized(|t.hashes|)
    && t.size == Count(t.hashes, 2) && t.tombstones == Count(t.hashes, 1)
    && 2 * t.size <= |t.hashes| && 4 * (t.size + t.tombstones) <= 3 * |t.hashes|
    && Clean(t, c)
  }

  ghost predicate Clean<K, V>(t: Table<K, V>, c: Traits<K, V>)
    requires t.Shaped()
  {
    forall i :: 0 <= i < |t.hashes| && !t.Live(i) ==> t.keys[i] == c.noKey && t.values[i] == c.noValue
  }

  /** No probe that starts at `a` stops before `b`. */
  ghost predicate NoGap(hs: seq<nat>, a: nat, b: nat)
    requires a < |hs| && b < |hs|
  {
    forall j :: 0 <= j < |hs| && Dist(a, j, |hs|) < Dist(a, b, |hs|) ==> hs[j] != HASH_EMPTY
  }

  /** Every live slot carries its key's hash and is reached from the key's home slot. */
  ghost predicate Placed<K, V>(t: Table<K, V>, c: Traits<K, V>)
    requires t.Shaped()
  {
    forall i :: t.Live(i) ==> t.hashes[i] == ToHashKey(c.hash(t.keys[i]))
                              && NoGap(t.hashes, Slot(c.hash(t.keys[i]), |t.hashes|), i)
  }

  ghost predicate Unique<K, V>(t: Table<K, V>)
    requires t.Shaped()
  {
    forall i, j :: t.Live(i) && t.Live(j) && t.keys[i] == t.keys[j] ==> i == j
  }

  ghost predicate Good<K, V>(t: Table<K, V>, c: Traits<K, V>) {
    Counted(t, c) && Placed(t, c) && Unique(t)
  }

  lemma {:induction false} NewIsGood<K, V>(c: Traits<K, V>)
    ensures Good(NewTable<K, V>(), c)
  {}

  /** At least a quarter of the slots is EMPTY, so every probe ends. */
  lemma {:induction false} QuarterEmpty<K, V>(t: Table<K, V>, c: Traits<K, V>)
    requires Counted(t, c)
    ensures 4 * Count(t.hashes, 0) >= |t.hashes|
  {
    CountTotal(t.hashes);
  }

  /** The EMPTY slot nearest to `start`. */
  lemma {:induction false} NearestEmpty(hs: seq<nat>, start: nat) returns (e: nat)
    requires Count(hs, 0) > 0 && start < |hs|
    ensures e < |hs| && hs[e] == HASH_EMPTY && NoGap(hs, start, e)
  {
    var some :| 0 <= some < |hs| && hs[some] == HASH_EMPTY by {
      if forall i :: 0 <= i < |hs| ==> Kind(hs[i]) != 0 { CountNone(hs, 0); }
    }
    e := some;
    while !NoGap(hs, start, e)
      invariant e < |hs| && hs[e] == HASH_EMPTY
      decreases Dist(start, e, |hs|)
    {
      var j :| 0 <= j < |hs| && Dist(start, j, |hs|) < Dist(start, e, |hs|) && hs[j] == HASH_EMPTY;
      e := j;
    }
  }

  // ---------- find ----------

  /** Probe at most `n` slots from `i` on. */
  function Probe<K(==), V>(t: Table<K, V>, key: K, hashKey: nat, i: nat, n: nat): (r: Option<nat>)
    requires t.Shaped() && i < |t.hashes|
    ensures r.Some? ==> r.value < |t.hashes|
    decreases n
  {
    if n == 0 || t.hashes[i] == HASH_EMPTY then None
    else if t.hashes[i] == hashKey && t.keys[i] == key then Some(i)
    else Probe(t, key, hashKey, NextSlot(i, |t.hashes|), n - 1)
  }

  function FindIndex<K(==), V>(t: Table<K, V>, c: Traits<K, V>, key: K): (r: Option<nat>)
    requires t.Shaped()
    ensures r.Some? ==> r.value < |t.hashes|
  {
    if |t.hashes| == 0 then None
    else Probe(t, key, ToHashKey(c.hash(key)), Slot(c.hash(key), |t.hashes|), |t.hashes|)
  }

  predicate Matches<K(==), V>(t: Table<K, V>, key: K, hashKey: nat, i: nat)
    requires t.Shaped() && i < |t.hashes|
  {
    t.hashes[i] == hashKey && t.keys[i] == key
  }

  /** `stop` is where probing from `i` must end: a match or EMPTY, and neither before it. */
  ghost predicate Stops<K, V>(t: Table<K, V>, key: K, hashKey: nat, i: nat, stop: nat)
    requires t.Shaped() && i < |t.hashes|
  {
    && stop < |t.hashes| && NoGap(t.hashes, i, stop)
    && (t.hashes[stop] == HASH_EMPTY || Matches(t, key, hashKey, stop))
    && forall j :: 0 <= j < |t.hashes| && Dist(i, j, |t.hashes|) < Dist(i, stop, |t.hashes|) ==> !Matches(t, key, hashKey, j)
  }

  lemma {:induction false} StopsNext<K, V>(t: Table<K, V>, key: K, hashKey: nat, i: nat, stop: nat)
    requires t.Shaped() && Sized(|t.hashes|) && i < |t.hashes| && i != stop && Stops(t, key, hashKey, i, stop)
    ensures t.hashes[i] != HASH_EMPTY && !Matches(t, key, hashKey, i)
    ensures Stops(t, key, hashKey, NextSlot(i, |t.hashes|), stop)
    ensures Dist(NextSlot(i, |t.hashes|), stop, |t.hashes|) + 1 == Dist(i, stop, |t.hashes|)
  {
    var cap := |t.hashes|;
    NextSlotIs(i, cap);
    var i' := NextSlot(i, cap);
    forall j | 0 <= j < cap && Dist(i', j, cap) < Dist(i', stop, cap)
      ensures t.hashes[j] != HASH_EMPTY && !Matches(t, key, hashKey, j)
    {
      assert Dist(i, j, cap) < Dist(i, stop, cap);
    }
  }

  lemma {:induction false} ProbeStops<K, V>(t: Table<K, V>, key: K, hashKey: nat, i: nat, n: nat, stop: nat)
    requires t.Shaped() && Sized(|t.hashes|) && i < |t.hashes| && Stops(t, key, hashKey, i, stop)
    requires Dist(i, stop, |t.hashes|) < n && hashKey > HASH_KILLED
    ensures Probe(t, key, hashKey, i, n) == if t.hashes[stop] == HASH_EMPTY then None else Some(stop)
    decreases n
  {
    if i != stop {
      StopsNext(t, key, hashKey, i, stop);
      ProbeStops(t, key, hashKey, NextSlot(i, |t.hashes|), n - 1, stop);
    }
  }

  /** Where every probe for `key` must end, whatever the hasher: at the first match or EMPTY slot. */
  lemma {:induction false} StopExists<K, V>(t: Table<K, V>, c: Traits<K, V>, key: K, hashKey: nat, i: nat) returns (stop: nat)
    requires Counted(t, c) && i < |t.hashes|
    ensures Stops(t, key, hashKey, i, stop)
  {
    QuarterEmpty(t, c);
    stop := NearestEmpty(t.hashes, i);
    while !Stops(t, key, hashKey, i, stop)
      invariant stop < |t.hashes| && NoGap(t.hashes, i, stop)
      invariant t.hashes[stop] == HASH_EMPTY || Matches(t, key, hashKey, stop)
      decreases Dist(i, stop, |t.hashes|)
    {
      var j :| 0 <= j < |t.hashes| && Dist(i, j, |t.hashes|) < Dist(i, stop, |t.hashes|) && Matches(t, key, hashKey, j);
      stop := j;
    }
  }

  /** Finding a key finds exactly its live slot. */
  lemma {:induction false} FindCorrect<K, V>(t: Table<K, V>, c: Traits<K, V>, key: K)
    requires Good(t, c)
    ensures var r := FindIndex(t, c, key);
            && (r.Some? ==> t.Live(r.value) && t.keys[r.value] == key)
            && (r.None? ==> !Holds(t, key))
  {
    if |t.hashes| > 0 {
      var hashKey, start := ToHashKey(c.hash(key)), Slot(c.hash(key), |t.hashes|);
      var stop := StopExists(t, c, key, hashKey, start);
      ProbeStops(t, key, hashKey, start, |t.hashes|, stop);
      if t.hashes[stop] == HASH_EMPTY { NotBehindEmpty(t, c, key, stop); }
    }
  }

  /** A key that a probe does not find before an EMPTY slot is nowhere. */
  lemma {:induction false} NotBehindEmpty<K, V>(t: Table<K, V>, c: Traits<K, V>, key: K, stop: nat)
    requires Good(t, c) && |t.hashes| > 0
    requires Stops(t, key, ToHashKey(c.hash(key)), Slot(c.hash(key), |t.hashes|), stop) && t.hashes[stop] == HASH_EMPTY
    ensures !Holds(t, key)
  {
    if i :| t.Live(i) && t.keys[i] == key {
      var start := Slot(c.hash(key), |t.hashes|);
      assert NoGap(t.hashes, start, i);
      assert Dist(start, i, |t.hashes|) < Dist(start, stop, |t.hashes|);
      assert Matches(t, key, ToHashKey(c.hash(key)), i);
    }
  }

  // ---------- the map a table stands for ----------

  ghost predicate Holds<K, V>(t: Table<K, V>, k: K)
    requires t.Shaped()
  {
    exists i :: t.Live(i) && t.keys[i] == k
  }

  ghost predicate Represents<K, V>(t: Table<K, V>, m: map<K, V>)
    requires t.Shaped()
  {
    && (forall i :: t.Live(i) ==> t.keys[i] in m && m[t.keys[i]] == t.values[i])
    && (forall k :: k in m ==> Holds(t, k))
  }

  /** The entries in the first `n` slots. */
  ghost function Entries<K, V>(t: Table<K, V>, n: nat): map<K, V>
    requires t.Shaped() && n <= |t.hashes|
  {
    if n == 0 then map[]
    else if t.Live(n - 1) then Entries(t, n - 1)[t.keys[n - 1] := t.values[n - 1]]
    else Entries(t, n - 1)
  }

  ghost function View<K, V>(t: Table<K, V>): map<K, V>
    requires t.Shaped()
  {
    Entries(t, |t.hashes|)
  }

  lemma {:induction false} EntriesHave<K, V>(t: Table<K, V>, n: nat, i: nat)
    requires t.Shaped() && Unique(t) && i < n <= |t.hashes| && t.Live(i)
    ensures t.keys[i] in Entries(t, n) && Entries(t, n)[t.keys[i]] == t.values[i]
  {
    if i < n - 1 { EntriesHave(t, n - 1, i); }
  }

  lemma {:induction false} EntriesFrom<K, V>(t: Table<K, V>, n: nat, k: K) returns (i: nat)
    requires t.Shaped() && n <= |t.hashes| && k in Entries(t, n)
    ensures i < n && t.Live(i) && t.keys[i] == k
  {
    if t.Live(n - 1) && t.keys[n - 1] == k {
      i := n - 1;
    } else {
      i := EntriesFrom(t, n - 1, k);
    }
  }

  /** The key of a later slot is not among the earlier entries. */
  lemma {:induction false} NewEntry<K, V>(t: Table<K, V>, n: nat)
    requires t.Shaped() && Unique(t) && n < |t.hashes| && t.Live(n)
    ensures t.keys[n] !in Entries(t, n)
  {
    if t.keys[n] in Entries(t, n) {
      var i := EntriesFrom(t, n, t.keys[n]);
    }
  }

  lemma {:induction false} EntriesCount<K, V>(t: Table<K, V>, n: nat)
    requires t.Shaped() && Unique(t) && n <= |t.hashes|
    ensures |Entries(t, n)| == Count(t.hashes[..n], 2)
  {
    if n > 0 {
      EntriesCount(t, n - 1);
      CountPrefix(t.hashes, n - 1, 2);
      if t.Live(n - 1) {
        NewEntry(t, n - 1);
        assert Entries(t, n).Keys == Entries(t, n - 1).Keys + {t.keys[n - 1]};
      }
    }
  }

  lemma {:induction false} ViewSize<K, V>(t: Table<K, V>)
    requires t.Shaped() && Unique(t)
    ensures |View(t)| == Count(t.hashes, 2)
  {
    EntriesCount(t, |t.hashes|);
    assert t.hashes[..|t.hashes|] == t.hashes;
  }

  lemma {:induction false} ViewRepresents<K, V>(t: Table<K, V>)
    requires t.Shaped() && Unique(t)
    ensures Represents(t, View(t))
  {
    forall i | t.Live(i) ensures t.keys[i] in View(t) && View(t)[t.keys[i]] == t.values[i] {
      EntriesHave(t, |t.hashes|, i);
    }
    forall k | k in View(t) ensures Holds(t, k) {
      var i := EntriesFrom(t, |t.hashes|, k);
    }
  }

  /** A table with unique keys stands for one map only. */
  lemma {:induction false} ViewIs<K, V>(t: Table<K, V>, m: map<K, V>)
    requires t.Shaped() && Unique(t) && Represents(t, m)
    ensures View(t) == m
  {
    ViewRepresents(t);
    forall k | k in m ensures k in View(t) && View(t)[k] == m[k] {
      var i :| t.Live(i) && t.keys[i] == k;
    }
    forall k | k in View(t) ensures k in m {
      var i :| t.Live(i) && t.keys[i] == k;
    }
  }

  // ---------- writing and killing a slot ----------

  function Put<K, V>(t: Table<K, V>, j: nat, h: nat, k: K, v: V): Table<K, V>
    requires t.Shaped() && j < |t.hashes|
  {
    t.(hashes := t.hashes[j := h], keys := t.keys[j := k], values := t.values[j := v])
  }

  lemma {:induction false} PutAdds<K, V>(t: Table<K, V>, m: map<K, V>, j: nat, h: nat, k: K, v: V)
    requires t.Shaped() && Unique(t) && Represents(t, m)
    requires j < |t.hashes| && !t.Live(j) && h > HASH_KILLED && k !in m
    ensures Unique(Put(t, j, h, k, v)) && Represents(Put(t, j, h, k, v), m[k := v])
  {
    var t' := Put(t, j, h, k, v);
    forall x | x in m[k := v] ensures Holds(t', x) {
      if x == k {
        assert t'.Live(j) && t'.keys[j] == k;
      } else {
        var i :| t.Live(i) && t.keys[i] == x;
        assert t'.Live(i) && t'.keys[i] == x;
      }
    }
    forall i | t'.Live(i) ensures t'.keys[i] in m[k := v] && m[k := v][t'.keys[i]] == t'.values[i] {
      if i != j { assert t.Live(i); }
    }
    forall i, i' | t'.Live(i) && t'.Live(i') && t'.keys[i] == t'.keys[i'] ensures i == i' {
      if i != j { assert t.Live(i); }
      if i' != j { assert t.Live(i'); }
    }
  }

  /** Filling a slot opens no gap. */
  lemma {:induction false} PutPlaces<K, V>(t: Table<K, V>, c: Traits<K, V>, j: nat, k: K, v: V)
    requires t.Shaped() && Placed(t, c) && j < |t.hashes| && !t.Live(j)
    requires NoGap(t.hashes, Slot(c.hash(k), |t.hashes|), j)
    ensures Placed(Put(t, j, ToHashKey(c.hash(k)), k, v), c)
  {
    var t' := Put(t, j, ToHashKey(c.hash(k)), k, v);
    forall i | t'.Live(i)
      ensures t'.hashes[i] == ToHashKey(c.hash(t'.keys[i])) && NoGap(t'.hashes, Slot(c.hash(t'.keys[i]), |t'.hashes|), i)
    {
      if i != j { assert t.Live(i); }
      assert NoGap(t.hashes, Slot(c.hash(t'.keys[i]), |t.hashes|), i);
    }
  }

  /** Erasing marks the slot, so that probes go on behind it, and resets key and value. */
  function Kill<K, V>(t: Table<K, V>, c: Traits<K, V>, p: nat): Table<K, V>
    requires t.Shaped() && p < |t.hashes|
  {
    Put(t, p, HASH_KILLED, c.noKey, c.noValue).(size := t.size - 1, tombstones := t.tombstones + 1)
  }

  lemma {:induction false} KillCounted<K, V>(t: Table<K, V>, c: Traits<K, V>, p: nat)
    requires Counted(t, c) && t.Live(p)
    ensures Counted(Kill(t, c, p), c)
  {
    CountUpdate(t.hashes, p, HASH_KILLED, 2);
    CountUpdate(t.hashes, p, HASH_KILLED, 1);
    var t' := Kill(t, c, p);
    forall i | 0 <= i < |t'.hashes| && !t'.Live(i) ensures t'.keys[i] == c.noKey && t'.values[i] == c.noValue {
      if i != p { assert !t.Live(i); }
    }
  }

  lemma {:induction false} KillGood<K, V>(t: Table<K, V>, c: Traits<K, V>, p: nat)
    requires Good(t, c) && t.Live(p)
    ensures Good(Kill(t, c, p), c) && View(Kill(t, c, p)) == View(t) - {t.keys[p]}
  {
    hide Count, Entries, Slot, Dist;
    var t' := Kill(t, c, p);
    KillCounted(t, c, p);
    ViewRepresents(t);
    var m := View(t) - {t.keys[p]};
    forall i | t'.Live(i)
      ensures t.Live(i) && i != p && t.keys[i] != t.keys[p]
      ensures NoGap(t'.hashes, Slot(c.hash(t'.keys[i]), |t'.hashes|), i)
    {
      assert t.Live(i);
      assert NoGap(t.hashes, Slot(c.hash(t.keys[i]), |t.hashes|), i);
    }
    forall k | k in m ensures Holds(t', k) {
      var i :| t.Live(i) && t.keys[i] == k;
      assert t'.Live(i) && t'.keys[i] == k;
    }
    ViewIs(t', m);
  }

  // ---------- rehashing ----------

  function Blank<K, V>(cap: nat, c: Traits<K, V>): Table<K, V> {
    Table(seq(cap, _ => HASH_EMPTY), seq(cap, _ => c.noKey), seq(cap, _ => c.noValue), 0, 0)
  }

  function FirstEmpty(hs: seq<nat>, j: nat, n: nat): (e: nat)
    requires j < |hs|
    ensures e < |hs|
    decreases n
  {
    if n == 0 || hs[j] == HASH_EMPTY then j else FirstEmpty(hs, NextSlot(j, |hs|), n - 1)
  }

  lemma {:induction false} FirstEmptyIs(hs: seq<nat>, j: nat, n: nat, e: nat)
    requires Sized(|hs|) && j < |hs| && e < |hs| && hs[e] == HASH_EMPTY && NoGap(hs, j, e) && Dist(j, e, |hs|) < n
    ensures FirstEmpty(hs, j, n) == e
    decreases n
  {
    if j != e {
      assert Dist(j, j, |hs|) < Dist(j, e, |hs|);
      GapNext(hs, j, e);
      FirstEmptyIs(hs, NextSlot(j, |hs|), n - 1, e);
    }
  }

  lemma {:induction false} GapNext(hs: seq<nat>, j: nat, e: nat)
    requires Sized(|hs|) && j < |hs| && e < |hs| && j != e && NoGap(hs, j, e)
    ensures NoGap(hs, NextSlot(j, |hs|), e)
    ensures Dist(NextSlot(j, |hs|), e, |hs|) + 1 == Dist(j, e, |hs|)
  {
    NextSlotIs(j, |hs|);
    var j' := NextSlot(j, |hs|);
    forall x | 0 <= x < |hs| && Dist(j', x, |hs|) < Dist(j', e, |hs|) ensures hs[x] != HASH_EMPTY {
      assert Dist(j, x, |hs|) < Dist(j, e, |hs|);
    }
  }

  /** Where a live entry goes: from the slot of its stored hash on. */
  function Target<K, V>(to: Table<K, V>, h: nat): (j: nat)
    requires to.Shaped() && |to.hashes| > 0
    ensures j < |to.hashes|
  {
    FirstEmpty(to.hashes, Slot(h, |to.hashes|), |to.hashes|)
  }

  /** The new arrays after the first `n` old slots have been moved. */
  function Moved<K, V>(t: Table<K, V>, c: Traits<K, V>, cap: nat, n: nat): (r: Table<K, V>)
    requires t.Shaped() && cap > 0 && n <= |t.hashes|
    ensures r.Shaped() && |r.hashes| == cap
  {
    if n == 0 then Blank(cap, c)
    else
      var to := Moved(t, c, cap, n - 1);
      var h := t.hashes[n - 1];
      if h <= HASH_KILLED then to else Put(to, Target(to, h), h, t.keys[n - 1], t.values[n - 1])
  }

  function Rehash<K, V>(t: Table<K, V>, c: Traits<K, V>, cap: nat): (r: Table<K, V>)
    requires t.Shaped() && cap > 0
    ensures r.Shaped() && |r.hashes| == cap
  {
    Moved(t, c, cap, |t.hashes|).(size := t.size, tombstones := 0)
  }

  /** There is always a slot free for the next entry. */
  lemma {:induction false} TargetIs<K, V>(t: Table<K, V>, c: Traits<K, V>, cap: nat, n: nat, h: nat) returns (e: nat)
    requires Counted(t, c) && Sized(cap) && cap > 0 && 2 * t.size <= cap && n <= |t.hashes|
    requires Count(Moved(t, c, cap, n).hashes, 2) <= t.size && Count(Moved(t, c, cap, n).hashes, 1) == 0
    ensures var to := Moved(t, c, cap, n);
            e == Target(to, h) && to.hashes[e] == HASH_EMPTY && NoGap(to.hashes, Slot(h, cap), e)
  {
    var to := Moved(t, c, cap, n);
    CountTotal(to.hashes);
    e := NearestEmpty(to.hashes, Slot(h, cap));
    FirstEmptyIs(to.hashes, Slot(h, cap), cap, e);
  }

  lemma {:induction false} MovedCounts<K, V>(t: Table<K, V>, c: Traits<K, V>, cap: nat, n: nat)
    requires Counted(t, c) && Sized(cap) && cap > 0 && 2 * t.size <= cap && n <= |t.hashes|
    ensures var to := Moved(t, c, cap, n);
            Count(to.hashes, 2) == Count(t.hashes[..n], 2) <= t.size && Count(to.hashes, 1) == 0 && Clean(to, c)
  {
    hide Count, Slot, Dist, FirstEmpty, NoGap;
    CountPrefix(t.hashes, n, 2);
    if n == 0 {
      assert t.hashes[..0] == [];
      CountNone(t.hashes[..0], 2);
      var blank := Blank(cap, c);
      CountNone(blank.hashes, 1);
      CountNone(blank.hashes, 2);
    } else {
      MovedCounts(t, c, cap, n - 1);
      CountPrefix(t.hashes, n - 1, 2);
      var to := Moved(t, c, cap, n - 1);
      var h := t.hashes[n - 1];
      if h > HASH_KILLED {
        var e := TargetIs(t, c, cap, n - 1, h);
        CountUpdate(to.hashes, e, h, 2);
        CountUpdate(to.hashes, e, h, 1);
        PutClean(to, c, e, h, t.keys[n - 1], t.values[n - 1]);
      }
    }
  }

  lemma {:induction false} PutClean<K, V>(t: Table<K, V>, c: Traits<K, V>, j: nat, h: nat, k: K, v: V)
    requires t.Shaped() && Clean(t, c) && j < |t.hashes| && h > HASH_KILLED
    ensures Clean(Put(t, j, h, k, v), c)
  {
    var t' := Put(t, j, h, k, v);
    forall i | 0 <= i < |t'.hashes| && !t'.Live(i) ensures t'.keys[i] == c.noKey && t'.values[i] == c.noValue {
      assert i != j && !t.Live(i);
    }
  }

  lemma {:induction false} RehashCounted<K, V>(t: Table<K, V>, c: Traits<K, V>, cap: nat)
    requires Counted(t, c) && Sized(cap) && cap > 0 && 2 * t.size <= cap
    ensures Counted(Rehash(t, c, cap), c)
  {
    MovedCounts(t, c, cap, |t.hashes|);
    assert t.hashes[..|t.hashes|] == t.hashes;
  }

  /** No key in the table hashes to what marks unused slots. */
  ghost predicate PlainKeys<K, V>(t: Table<K, V>, c: Traits<K, V>)
    requires t.Shaped()
  {
    forall i :: t.Live(i) ==> c.hash(t.keys[i]) > HASH_KILLED
  }

  /** For such keys the stored hash is the hash, so rehashing places every entry where a probe will look. */
  lemma {:induction false} MovedGood<K, V>(t: Table<K, V>, c: Traits<K, V>, cap: nat, n: nat)
    requires Good(t, c) && PlainKeys(t, c) && Sized(cap) && cap > 0 && 2 * t.size <= cap && n <= |t.hashes|
    ensures var to := Moved(t, c, cap, n);
            Placed(to, c) && Unique(to) && Represents(to, Entries(t, n))
  {
    if n > 0 {
      MovedGood(t, c, cap, n - 1);
      MovedCounts(t, c, cap, n - 1);
      var to, h := Moved(t, c, cap, n - 1), t.hashes[n - 1];
      if h > HASH_KILLED {
        var k, v := t.keys[n - 1], t.values[n - 1];
        assert t.Live(n - 1) && h == c.hash(k) == ToHashKey(h);
        var e := TargetIs(t, c, cap, n - 1, h);
        NewEntry(t, n - 1);
        PutAdds(to, Entries(t, n - 1), e, h, k, v);
        PutPlaces(to, c, e, k, v);
      }
    }
  }

  lemma {:induction false} RehashGood<K, V>(t: Table<K, V>, c: Traits<K, V>, cap: nat)
    requires Good(t, c) && PlainKeys(t, c) && Sized(cap) && cap > 0 && 2 * t.size <= cap
    ensures Good(Rehash(t, c, cap), c) && View(Rehash(t, c, cap)) == View(t)
  {
    var to, r := Moved(t, c, cap, |t.hashes|), Rehash(t, c, cap);
    RehashCounted(t, c, cap);
    MovedGood(t, c, cap, |t.hashes|);
    SameSlots(to, r, c, View(t));
    ViewIs(r, View(t));
  }

  /** The counters have no part in what a table holds. */
  lemma {:induction false} SameSlots<K, V>(t: Table<K, V>, t': Table<K, V>, c: Traits<K, V>, m: map<K, V>)
    requires t.Shaped() && t'.Shaped() && t'.hashes == t.hashes && t'.keys == t.keys && t'.values == t.values
    ensures Unique(t) ==> Unique(t')
    ensures Placed(t, c) ==> Placed(t', c)
    ensures Represents(t, m) ==> Represents(t', m)
  {
    forall i ensures t.Live(i) == t'.Live(i) {}
    if Represents(t, m) {
      forall k | k in m ensures Holds(t', k) {
        var i :| t.Live(i) && t.keys[i] == k;
        assert t'.Live(i);
      }
    }
  }

  // ---------- reserving a slot ----------

  datatype Spot = Found(index: nat) | Vacant(index: nat, reused: bool)

  /** Probe for the key, remembering the first tombstone on the way. */
  function PlaceFrom<K(==), V>(t: Table<K, V>, key: K, hashKey: nat, i: nat, insertI: Option<nat>, n: nat): (r: Spot)
    requires t.Shaped() && i < |t.hashes| && (insertI.Some? ==> insertI.value < |t.hashes|)
    ensures r.index < |t.hashes|
    decreases n
  {
    if n == 0 then Vacant(i, false)
    else if t.hashes[i] == HASH_EMPTY then if insertI.Some? then Vacant(insertI.value, true) else Vacant(i, false)
    else if t.hashes[i] == HASH_KILLED then
      PlaceFrom(t, key, hashKey, NextSlot(i, |t.hashes|), if insertI.None? then Some(i) else insertI, n - 1)
    else if t.hashes[i] == hashKey && t.keys[i] == key then Found(i)
    else PlaceFrom(t, key, hashKey, NextSlot(i, |t.hashes|), insertI, n - 1)
  }

  function Place<K(==), V>(t: Table<K, V>, c: Traits<K, V>, key: K): (r: Spot)
    requires t.Shaped() && |t.hashes| > 0
    ensures r.index < |t.hashes|
  {
    PlaceFrom(t, key, ToHashKey(c.hash(key)), Slot(c.hash(key), |t.hashes|), None, |t.hashes|)
  }

  lemma {:induction false} PlaceStops<K, V>(t: Table<K, V>, key: K, hashKey: nat, start: nat, i: nat, insertI: Option<nat>,
    n: nat, stop: nat)
    requires t.Shaped() && Sized(|t.hashes|) && start < |t.hashes| && i < |t.hashes|
    requires Stops(t, key, hashKey, i, stop) && Dist(i, stop, |t.hashes|) < n && hashKey > HASH_KILLED
    requires Dist(start, i, |t.hashes|) + Dist(i, stop, |t.hashes|) == Dist(start, stop, |t.hashes|)
    requires insertI.Some? ==> insertI.value < |t.hashes| && t.hashes[insertI.value] == HASH_KILLED
                               && Dist(start, insertI.value, |t.hashes|) <= Dist(start, stop, |t.hashes|)
    ensures var r := PlaceFrom(t, key, hashKey, i, insertI, n);
            if t.hashes[stop] == HASH_EMPTY then
              && r.Vacant? && Dist(start, r.index, |t.hashes|) <= Dist(start, stop, |t.hashes|)
              && t.hashes[r.index] == if r.reused then HASH_KILLED else HASH_EMPTY
            else r == Found(stop)
    decreases n
  {
    if i != stop {
      StopsNext(t, key, hashKey, i, stop);
      NextSlotIs(i, |t.hashes|);
      var insertI' := if t.hashes[i] == HASH_KILLED && insertI.None? then Some(i) else insertI;
      PlaceStops(t, key, hashKey, start, NextSlot(i, |t.hashes|), insertI', n - 1, stop);
    }
  }

  /** The place is the key's own slot, or a tombstone or EMPTY slot that a probe for the key reaches. */
  lemma {:induction false} PlaceCorrect<K, V>(t: Table<K, V>, c: Traits<K, V>, key: K) returns (stop: nat)
    requires Counted(t, c) && |t.hashes| > 0
    ensures var r, start := Place(t, c, key), Slot(c.hash(key), |t.hashes|);
            && Stops(t, key, ToHashKey(c.hash(key)), start, stop)
            && (r.Found? ==> r.index == stop && t.Live(stop) && t.keys[stop] == key)
            && (r.Vacant? ==> t.hashes[stop] == HASH_EMPTY && NoGap(t.hashes, start, r.index)
                              && t.hashes[r.index] == if r.reused then HASH_KILLED else HASH_EMPTY)
  {
    var start := Slot(c.hash(key), |t.hashes|);
    stop := StopExists(t, c, key, ToHashKey(c.hash(key)), start);
    PlaceStops(t, key, ToHashKey(c.hash(key)), start, start, None, |t.hashes|, stop);
  }

  /** Grow when half full, and rehash in place when tombstones take half of the rest. */
  function Prepared<K, V>(t: Table<K, V>, c: Traits<K, V>): (r: Table<K, V>)
    requires t.Shaped() && t.size >= 0
    ensures r.Shaped() && |r.hashes| > 0 && r.size == t.size
  {
    if t.size >= |t.hashes| / 2 then
      Rehash(t, c, if |t.hashes| == 0 then MIN_CAPACITY else 2 * |t.hashes|)
    else if (|t.hashes| - t.size) / 2 < t.tombstones then
      Rehash(t, c, |t.hashes|)
    else t
  }

  datatype Reserved<K, V> = Reserved(table: Table<K, V>, index: nat, inserted: bool)

  function ReserveSlot<K(==), V>(t: Table<K, V>, c: Traits<K, V>, key: K): (r: Reserved<K, V>)
    requires t.Shaped() && t.size >= 0
    ensures r.table.Shaped() && r.index < |r.table.hashes| && r.table.size >= 0
  {
    var t1 := Prepared(t, c);
    match Place(t1, c, key)
    case Found(i) => Reserved(t1, i, false)
    case Vacant(i, reused) =>
      Reserved(Put(t1, i, ToHashKey(c.hash(key)), key, t1.values[i])
                 .(size := t1.size + 1, tombstones := t1.tombstones - if reused then 1 else 0), i, true)
  }

  /** After preparing there is room for one more entry, and tombstones have not taken it. */
  lemma {:induction false} PreparedCounted<K, V>(t: Table<K, V>, c: Traits<K, V>)
    requires Counted(t, c)
    ensures var r := Prepared(t, c);
            Counted(r, c) && 2 * (r.size + 1) <= |r.hashes| && 4 * (r.size + r.tombstones + 1) <= 3 * |r.hashes|
  {
    SizedDivides(|t.hashes|);
    if t.size >= |t.hashes| / 2 {
      RehashCounted(t, c, if |t.hashes| == 0 then MIN_CAPACITY else 2 * |t.hashes|);
    } else if (|t.hashes| - t.size) / 2 < t.tombstones {
      RehashCounted(t, c, |t.hashes|);
    }
  }

  lemma {:induction false} PreparedGood<K, V>(t: Table<K, V>, c: Traits<K, V>)
    requires Good(t, c) && PlainKeys(t, c)
    ensures Good(Prepared(t, c), c) && View(Prepared(t, c)) == View(t)
  {
    SizedDivides(|t.hashes|);
    if t.size >= |t.hashes| / 2 {
      RehashGood(t, c, if |t.hashes| == 0 then MIN_CAPACITY else 2 * |t.hashes|);
    } else if (|t.hashes| - t.size) / 2 < t.tombstones {
      RehashGood(t, c, |t.hashes|);
    }
  }

  /** A fresh slot holds the default value, whatever was there before. */
  lemma {:induction false} ReserveCounted<K, V>(t: Table<K, V>, c: Traits<K, V>, key: K)
    requires Counted(t, c)
    ensures var r := ReserveSlot(t, c, key);
            Counted(r.table, c) && r.table.Live(r.index) && r.table.keys[r.index] == key
            && (r.inserted ==> r.table.values[r.index] == c.noValue)
  {
    hide Count;
    var t1 := Prepared(t, c);
    PreparedCounted(t, c);
    var stop := PlaceCorrect(t1, c, key);
    var spot := Place(t1, c, key);
    if spot.Vacant? {
      var j, h := spot.index, ToHashKey(c.hash(key));
      CountUpdate(t1.hashes, j, h, 2);
      CountUpdate(t1.hashes, j, h, 1);
      assert !t1.Live(j);
      PutClean(t1, c, j, h, key, t1.values[j]);
    }
  }

  /** Reserving adds exactly the absent key, with the default value. */
  lemma {:induction false} ReserveGood<K, V>(t: Table<K, V>, c: Traits<K, V>, key: K)
    requires Good(t, c) && PlainKeys(t, c)
    ensures var r := ReserveSlot(t, c, key);
            && Good(r.table, c) && r.table.Live(r.index) && r.table.keys[r.index] == key
            && (r.inserted <==> key !in View(t))
            && View(r.table) == if key in View(t) then View(t) else View(t)[key := c.noValue]
  {
    hide Count;
    var t1, r := Prepared(t, c), ReserveSlot(t, c, key);
    PreparedCounted(t, c);
    PreparedGood(t, c);
    ReserveCounted(t, c, key);
    ViewRepresents(t1);
    var stop := PlaceCorrect(t1, c, key);
    var spot := Place(t1, c, key);
    if spot.Vacant? {
      var j, h := spot.index, ToHashKey(c.hash(key));
      NotBehindEmpty(t1, c, key, stop);
      assert !t1.Live(j);
      var t2 := Put(t1, j, h, key, t1.values[j]);
      PutAdds(t1, View(t1), j, h, key, c.noValue);
      PutPlaces(t1, c, j, key, c.noValue);
      SameSlots(t2, r.table, c, View(t1)[key := c.noValue]);
      ViewIs(r.table, View(t1)[key := c.noValue]);
    }
  }

  // ---------- the remaining operations ----------

  function SetValue<K, V>(t: Table<K, V>, i: nat, v: V): Table<K, V>
    requires t.Shaped() && i < |t.hashes|
  {
    t.(values := t.values[i := v])
  }

  lemma {:induction false} SetCounted<K, V>(t: Table<K, V>, c: Traits<K, V>, i: nat, v: V)
    requires Counted(t, c) && t.Live(i)
    ensures Counted(SetValue(t, i, v), c)
  {
    var t' := SetValue(t, i, v);
    forall j | 0 <= j < |t'.hashes| && !t'.Live(j) ensures t'.keys[j] == c.noKey && t'.values[j] == c.noValue {
      assert !t.Live(j);
    }
  }

  lemma {:induction false} SetGood<K, V>(t: Table<K, V>, c: Traits<K, V>, i: nat, v: V)
    requires Good(t, c) && t.Live(i)
    ensures Good(SetValue(t, i, v), c) && View(SetValue(t, i, v)) == View(t)[t.keys[i] := v]
  {
    var t', m := SetValue(t, i, v), View(t)[t.keys[i] := v];
    SetCounted(t, c, i, v);
    ViewRepresents(t);
    forall j ensures t.Live(j) == t'.Live(j) {}
    forall k | k in m ensures Holds(t', k) {
      if k == t.keys[i] {
        assert t'.Live(i);
      } else {
        var j :| t.Live(j) && t.keys[j] == k;
        assert t'.Live(j);
      }
    }
    ViewIs(t', m);
  }

  /** Insert, emplace and try_emplace: an existing entry is left alone. */
  function Insert<K(==), V>(t: Table<K, V>, c: Traits<K, V>, key: K, v: V): (r: Reserved<K, V>)
    requires t.Shaped() && t.size >= 0
    ensures r.table.Shaped() && r.index < |r.table.hashes| && r.table.size >= 0
  {
    var r := ReserveSlot(t, c, key);
    if r.inserted then r.(table := SetValue(r.table, r.index, v)) else r
  }

  function EraseKey<K(==), V>(t: Table<K, V>, c: Traits<K, V>, key: K): (Table<K, V>, bool)
    requires t.Shaped()
  {
    match FindIndex(t, c, key)
    case None => (t, false)
    case Some(p) => (Kill(t, c, p), true)
  }

  /** The capacity `reserve` asks for: eight doubled until `n` entries take at most half. */
  function Needed(n: nat, needed: nat): (r: nat)
    requires needed > 0
    ensures r >= 2 * n && r >= needed
    decreases 2 * n - needed
  {
    if needed < n * 2 then Needed(n, needed * 2) else needed
  }

  function Reserve<K, V>(t: Table<K, V>, c: Traits<K, V>, n: nat): Table<K, V>
    requires t.Shaped()
  {
    if n == 0 then t
    else
      var needed := Needed(n, MIN_CAPACITY);
      if needed > |t.hashes| then Rehash(t, c, needed) else t
  }

  lemma {:induction false} NeededSized(n: nat, needed: nat)
    requires needed > 0 && Sized(needed)
    ensures Sized(Needed(n, needed))
    decreases 2 * n - needed
  {
    if needed < n * 2 {
      SizedDivides(needed);
      NeededSized(n, needed * 2);
    }
  }

  lemma {:induction false} ReserveCapacity<K, V>(t: Table<K, V>, c: Traits<K, V>, n: nat)
    requires Counted(t, c)
    ensures Counted(Reserve(t, c, n), c) && |Reserve(t, c, n).hashes| >= 2 * n
  {
    SizedDivides(|t.hashes|);
    NeededSized(n, MIN_CAPACITY);
    if n > 0 && Needed(n, MIN_CAPACITY) > |t.hashes| {
      RehashCounted(t, c, Needed(n, MIN_CAPACITY));
    }
  }

  lemma {:induction false} ReserveKeeps<K, V>(t: Table<K, V>, c: Traits<K, V>, n: nat)
    requires Good(t, c) && PlainKeys(t, c)
    ensures Good(Reserve(t, c, n), c) && View(Reserve(t, c, n)) == View(t)
  {
    SizedDivides(|t.hashes|);
    NeededSized(n, MIN_CAPACITY);
    if n > 0 && Needed(n, MIN_CAPACITY) > |t.hashes| {
      RehashGood(t, c, Needed(n, MIN_CAPACITY));
    }
  }
}
