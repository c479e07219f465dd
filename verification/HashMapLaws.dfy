/** What a hash table means for its user: agreement with a mathematical map over every run, iteration, stability. */
module HashMapLaws {
  import opened Bits
  import opened HashTable
  import opened Wrappers

  datatype Op<!K, !V> =
    | Adding(key: K, value: V)      // insert, emplace, try_emplace
    | Indexing(key: K)              // operator[] read
    | Assigning(key: K, value: V)   // operator[] written
    | Erasing(key: K)               // erase(key)
    | ErasingFound(key: K)          // erase(find(key))
    | Looking(key: K)               // find, at, contains, count
    | Sizing                        // size
    | Reserving(n: nat)             // reserve
    | Clearing                      // clear
    | Filtering(drop: (K, V) -> bool)  // it = drop(*it) ? erase(it) : ++it, from begin to end

  datatype Answer<V> = Nothing | Flag(b: bool) | Absent | Got(value: V) | Number(n: int) | Entry(value: V, added: bool)

  /** One operation on the table. */
  function Step<K(==), V>(t: Table<K, V>, c: Traits<K, V>, op: Op<K, V>): (r: (Table<K, V>, Answer<V>))
    requires t.Shaped() && t.size >= 0
    ensures r.0.Shaped()
  {
    match op
    case Adding(k, v) => var r := Insert(t, c, k, v); (r.table, Entry(r.table.values[r.index], r.inserted))
    case Indexing(k) => var r := ReserveSlot(t, c, k); (r.table, Got(r.table.values[r.index]))
    case Assigning(k, v) => var r := ReserveSlot(t, c, k); (SetValue(r.table, r.index, v), Nothing)
    case Erasing(k) => var r := EraseKey(t, c, k); (r.0, Flag(r.1))
    case ErasingFound(k) =>
      (match FindIndex(t, c, k)
       case None => (t, Flag(false))
       case Some(p) => (Kill(t, c, p), Flag(true)))
    case Looking(k) =>
      (match FindIndex(t, c, k)
       case None => (t, Absent)
       case Some(p) => (t, Got(t.values[p])))
    case Sizing => (t, Number(t.size))
    case Reserving(n) => (Reserve(t, c, n), Nothing)
    case Clearing => (NewTable(), Nothing)
    case Filtering(drop) => (EraseWhere(t, c, drop, NextLive(t, 0)).0, Nothing)
  }

  /** The same operation on a mathematical map. */
  ghost function MapStep<K, V>(m: map<K, V>, c: Traits<K, V>, op: Op<K, V>): (map<K, V>, Answer<V>) {
    match op
    case Adding(k, v) => if k in m then (m, Entry(m[k], false)) else (m[k := v], Entry(v, true))
    case Indexing(k) => if k in m then (m, Got(m[k])) else (m[k := c.noValue], Got(c.noValue))
    case Assigning(k, v) => (m[k := v], Nothing)
    case Erasing(k) => (m - {k}, Flag(k in m))
    case ErasingFound(k) => (m - {k}, Flag(k in m))
    case Looking(k) => (m, if k in m then Got(m[k]) else Absent)
    case Sizing => (m, Number(|m|))
    case Reserving(n) => (m, Nothing)
    case Clearing => (map[], Nothing)
    case Filtering(drop) => (Kept(m, drop), Nothing)
  }

  ghost function Kept<K, V>(m: map<K, V>, drop: (K, V) -> bool): map<K, V> {
    map k | k in m && !drop(k, m[k]) :: m[k]
  }

  /** Whatever the hasher, every operation keeps the counters exact and leaves a quarter of the slots EMPTY. */
  lemma {:induction false} StepCounted<K, V>(t: Table<K, V>, c: Traits<K, V>, op: Op<K, V>)
    requires Counted(t, c)
    ensures Counted(Step(t, c, op).0, c)
  {
    hide Count, Clean, Slot;
    match op
    case Adding(k, v) =>
      ReserveCounted(t, c, k);
      var r := ReserveSlot(t, c, k);
      SetCounted(r.table, c, r.index, v);
    case Indexing(k) => ReserveCounted(t, c, k);
    case Assigning(k, v) =>
      ReserveCounted(t, c, k);
      var r := ReserveSlot(t, c, k);
      SetCounted(r.table, c, r.index, v);
    case Erasing(k) => FoundIsLive(t, c, k); EraseCounted(t, c, k);
    case ErasingFound(k) => FoundIsLive(t, c, k); EraseCounted(t, c, k);
    case Looking(k) =>
    case Sizing =>
    case Reserving(n) => ReserveCapacity(t, c, n);
    case Clearing => NewIsGood(c);
    case Filtering(drop) => EraseWhereCounted(t, c, drop, NextLive(t, 0));
  }

  /** Even for hashers that break the table, what find returns is a live slot of the key. */
  lemma {:induction false} FoundIsLive<K, V>(t: Table<K, V>, c: Traits<K, V>, key: K)
    requires Counted(t, c)
    ensures FindIndex(t, c, key).Some? ==> t.Live(FindIndex(t, c, key).value) && t.keys[FindIndex(t, c, key).value] == key
  {
    if |t.hashes| > 0 {
      var hashKey, start := ToHashKey(c.hash(key)), Slot(c.hash(key), |t.hashes|);
      var stop := StopExists(t, c, key, hashKey, start);
      ProbeStops(t, key, hashKey, start, |t.hashes|, stop);
    }
  }

  lemma {:induction false} EraseCounted<K, V>(t: Table<K, V>, c: Traits<K, V>, key: K)
    requires Counted(t, c)
    ensures FindIndex(t, c, key).Some? ==> Counted(Kill(t, c, FindIndex(t, c, key).value), c)
  {
    FoundIsLive(t, c, key);
    if FindIndex(t, c, key).Some? { KillCounted(t, c, FindIndex(t, c, key).value); }
  }

  /** The hasher never returns what marks unused slots. */
  ghost predicate Plain<K(!new), V>(c: Traits<K, V>) {
    forall k: K :: c.hash(k) > HASH_KILLED
  }

  ghost predicate PlainOp<K, V>(op: Op<K, V>, c: Traits<K, V>) {
    (op.Adding? || op.Indexing? || op.Assigning?) ==> c.hash(op.key) > HASH_KILLED
  }

  /** All keys but those added were there before. */
  lemma {:induction false} KeysStayPlain<K, V>(t: Table<K, V>, t': Table<K, V>, c: Traits<K, V>, op: Op<K, V>)
    requires Good(t, c) && Good(t', c) && PlainKeys(t, c) && PlainOp(op, c)
    requires View(t') == MapStep(View(t), c, op).0
    ensures PlainKeys(t', c)
  {
    hide Count, Clean, Slot, Entries, Placed;
    ViewRepresents(t);
    ViewRepresents(t');
    forall i | t'.Live(i) ensures c.hash(t'.keys[i]) > HASH_KILLED {
      var k := t'.keys[i];
      assert k in View(t');
      if k in View(t) {
        var j :| t.Live(j) && t.keys[j] == k;
      }
    }
  }

  /** With plain keys one operation on the table is that operation on the map it stands for. */
  lemma {:induction false} StepAgrees<K, V>(t: Table<K, V>, c: Traits<K, V>, op: Op<K, V>)
    requires Good(t, c) && PlainKeys(t, c) && PlainOp(op, c)
    ensures Good(Step(t, c, op).0, c) && PlainKeys(Step(t, c, op).0, c)
    ensures (View(Step(t, c, op).0), Step(t, c, op).1) == MapStep(View(t), c, op)
  {
    hide Count, Clean, Slot, Entries, Placed, Unique, ReserveSlot, Reserve, FindIndex, Kill;
    ViewRepresents(t);
    match op {
      case Adding(k, v) => AddingAgrees(t, c, k, v);
      case Indexing(k) => IndexingAgrees(t, c, k);
      case Assigning(k, v) =>
        ReserveGood(t, c, k);
        var r := ReserveSlot(t, c, k);
        SetGood(r.table, c, r.index, v);
        assert View(t)[k := c.noValue][k := v] == View(t)[k := v];
      case Erasing(k) => ErasingAgrees(t, c, k);
      case ErasingFound(k) => ErasingAgrees(t, c, k);
      case Looking(k) => LookingAgrees(t, c, k);
      case Sizing => ViewSize(t);
      case Reserving(n) => ReserveKeeps(t, c, n);
      case Clearing => NewIsGood(c); NewIsEmpty<K, V>();
      case Filtering(drop) => EraseWhereCorrect(t, c, drop);
    }
    KeysStayPlain(t, Step(t, c, op).0, c, op);
  }

  lemma NewIsEmpty<K, V>()
    ensures View(NewTable<K, V>()) == map[]
  {}

  lemma {:induction false} AddingAgrees<K, V>(t: Table<K, V>, c: Traits<K, V>, k: K, v: V)
    requires Good(t, c) && PlainKeys(t, c)
    ensures var r := Insert(t, c, k, v);
            && Good(r.table, c) && (r.inserted <==> k !in View(t))
            && View(r.table) == (if k in View(t) then View(t) else View(t)[k := v])
            && r.table.Live(r.index) && r.table.keys[r.index] == k
            && r.table.values[r.index] == if k in View(t) then View(t)[k] else v
  {
    hide Count, Clean, Slot, Entries, Placed, Unique, ReserveSlot;
    IndexingAgrees(t, c, k);
    ReserveGood(t, c, k);
    var r := ReserveSlot(t, c, k);
    SetGood(r.table, c, r.index, v);
  }

  /** Whatever the hasher, the iterator returned stands on the key's entry, and on the value when it is new. */
  lemma {:induction false} InsertCounted<K, V>(t: Table<K, V>, c: Traits<K, V>, k: K, v: V)
    requires Counted(t, c)
    ensures var r := Insert(t, c, k, v);
            && Counted(r.table, c) && r.table.Live(r.index) && r.table.keys[r.index] == k
            && (r.inserted ==> r.table.values[r.index] == v)
  {
    hide Count, Clean, Slot;
    ReserveCounted(t, c, k);
    var r := ReserveSlot(t, c, k);
    SetCounted(r.table, c, r.index, v);
  }

  /** operator[] on an absent key yields the default value: no unused slot ever holds anything else. */
  lemma {:induction false} IndexingAgrees<K, V>(t: Table<K, V>, c: Traits<K, V>, k: K)
    requires Good(t, c) && PlainKeys(t, c)
    ensures var r := ReserveSlot(t, c, k);
            && Good(r.table, c)
            && View(r.table) == (if k in View(t) then View(t) else View(t)[k := c.noValue])
            && r.table.values[r.index] == if k in View(t) then View(t)[k] else c.noValue
  {
    hide Count, Clean, Slot, Entries, Placed, ReserveSlot;
    ReserveGood(t, c, k);
    var r := ReserveSlot(t, c, k);
    ViewRepresents(r.table);
    assert r.table.Live(r.index);
  }

  lemma {:induction false} ErasingAgrees<K, V>(t: Table<K, V>, c: Traits<K, V>, k: K)
    requires Good(t, c)
    ensures var r := EraseKey(t, c, k);
            Good(r.0, c) && View(r.0) == View(t) - {k} && (r.1 <==> k in View(t))
  {
    hide Count, Clean, Slot, Entries, Placed, FindIndex, Kill;
    FindCorrect(t, c, k);
    ViewRepresents(t);
    if FindIndex(t, c, k).Some? { KillGood(t, c, FindIndex(t, c, k).value); }
  }

  lemma {:induction false} LookingAgrees<K, V>(t: Table<K, V>, c: Traits<K, V>, k: K)
    requires Good(t, c)
    ensures var r := FindIndex(t, c, k);
            && (r.Some? <==> k in View(t))
            && (r.Some? ==> View(t)[k] == t.values[r.value])
  {
    hide Count, Clean, Slot, Entries, Placed, FindIndex;
    FindCorrect(t, c, k);
    ViewRepresents(t);
  }

  // ---------- whole runs ----------

  ghost function Run<K, V>(t: Table<K, V>, c: Traits<K, V>, ops: seq<Op<K, V>>): seq<Answer<V>>
    requires Counted(t, c)
    decreases |ops|
  {
    if |ops| == 0 then [] else
      StepCounted(t, c, ops[0]);
      var (t', a) := Step(t, c, ops[0]);
      [a] + Run(t', c, ops[1..])
  }

  ghost function MapRun<K, V>(m: map<K, V>, c: Traits<K, V>, ops: seq<Op<K, V>>): seq<Answer<V>>
    decreases |ops|
  {
    if |ops| == 0 then [] else
      var (m', a) := MapStep(m, c, ops[0]);
      [a] + MapRun(m', c, ops[1..])
  }

  /** A run whose keys do not hash to a mark answers as a map does. */
  lemma {:induction false} RunAgrees<K, V>(t: Table<K, V>, c: Traits<K, V>, ops: seq<Op<K, V>>)
    requires Good(t, c) && PlainKeys(t, c) && forall op :: op in ops ==> PlainOp(op, c)
    ensures Run(t, c, ops) == MapRun(View(t), c, ops)
    decreases |ops|
  {
    if |ops| > 0 {
      hide Count, Clean, Placed, Entries, Step, MapStep;
      StepCounted(t, c, ops[0]);
      StepAgrees(t, c, ops[0]);
      RunAgrees(Step(t, c, ops[0]).0, c, ops[1..]);
    }
  }

  /** No sequence of operations can tell the table from a map. */
  ghost predicate LikeAMap<K(!new), V(!new)>(c: Traits<K, V>) {
    Counted(NewTable<K, V>(), c) && forall ops: seq<Op<K, V>> :: Run(NewTable<K, V>(), c, ops) == MapRun(map[], c, ops)
  }

  /** That is so exactly when the hasher never returns the two marks. */
  lemma {:induction false} LikeAMapIff<K(!new), V(!new)>(c: Traits<K, V>)
    ensures LikeAMap(c) <==> Plain(c)
  {
    hide Run, MapRun;
    NewIsGood(c);
    if Plain(c) {
      forall ops: seq<Op<K, V>> ensures Run(NewTable<K, V>(), c, ops) == MapRun(map[], c, ops) {
        RunAgrees(NewTable<K, V>(), c, ops);
      }
    } else {
      var key: K :| c.hash(key) <= HASH_KILLED;
      LostKey(c, key);
    }
  }

  // ---------- the default hashers ----------

  const WORD: nat := 0x1_0000_0000_0000_0000

  /** `size_t(x) + 2` for integers. */
  function IntegralHash(x: int): nat {
    (x + 2) % WORD
  }

  /** Shift and multiply for pointers. */
  function PointerHash(p: nat): nat {
    p / 16 * 0x9E3779B97F4A7C15 % WORD
  }

  /** Of all 64-bit integers just those that are -2 or -1 modulo 2^64 are lost. */
  lemma {:induction false} IntegralMarks(x: int)
    requires -(WORD / 2) <= x < WORD
    ensures IntegralHash(x) <= HASH_KILLED <==> x in {-2, -1, WORD - 2, WORD - 1}
  {
    DivModUnique(x + 2, WORD, if x + 2 < 0 then -1 else if x + 2 >= WORD then 1 else 0,
                 if x + 2 < 0 then x + 2 + WORD else if x + 2 >= WORD then x + 2 - WORD else x + 2);
  }

  const GOLDEN: nat := 0x9E3779B97F4A7C15

  /** Its inverse modulo 2^64: the multiplier is odd, so no two words are multiplied to the same word. */
  const INVERSE: nat := 0xF1DE83E19937733D

  lemma {:induction false} GoldenBack(q: nat)
    requires q < WORD
    ensures q * GOLDEN % WORD * INVERSE % WORD == q
  {
    var n, m := q * GOLDEN / WORD, 10771413168148108919;
    var h := q * GOLDEN % WORD;
    assert GOLDEN * INVERSE == 1 + m * WORD;
    assert q * GOLDEN == n * WORD + h;
    assert h * INVERSE == (q * m - n * INVERSE) * WORD + q;
    DivModUnique(h * INVERSE, WORD, q * m - n * INVERSE, q);
  }

  /** Of all 64-bit pointers just those to the first sixteen bytes, the null pointer among them, hash to a mark. */
  lemma {:induction false} PointerMarks(p: nat)
    requires p < WORD
    ensures PointerHash(p) <= HASH_KILLED <==> p < 16
  {
    GoldenBack(p / 16);
  }

  /** So neither the maps keyed by integers nor those keyed by pointers are maps for every key. */
  lemma {:induction false} DefaultHashers<V(!new)>(v: V)
    ensures !LikeAMap(Traits((x: int) => IntegralHash(x), 0, v))
    ensures !LikeAMap(Traits((p: nat) => PointerHash(p), 0, v))
  {
    hide LikeAMap;
    var byInteger, byPointer := Traits((x: int) => IntegralHash(x), 0, v), Traits((p: nat) => PointerHash(p), 0, v);
    LikeAMapIff(byInteger);
    LikeAMapIff(byPointer);
    IntegralMarks(-1);
    assert byInteger.hash(-1) <= HASH_KILLED;
    assert byPointer.hash(0) <= HASH_KILLED;
  }

  // ---------- a key that hashes to a mark ----------

  function Witness<K, V>(c: Traits<K, V>, key: K): seq<Op<K, V>> {
    [Adding(key, c.noValue), Reserving(8), Looking(key)]
  }

  /** A key with hash 0 or 1 is gone after the next rehash: it is moved to the slot of the stored hash,
      while find starts at the slot of the hash. */
  lemma {:induction false} LostKey<K, V>(c: Traits<K, V>, key: K)
    requires c.hash(key) <= HASH_KILLED
    ensures Counted(NewTable<K, V>(), c)
    ensures Run(NewTable<K, V>(), c, Witness(c, key)) == [Entry(c.noValue, true), Nothing, Absent]
    ensures MapRun(map[], c, Witness(c, key)) == [Entry(c.noValue, true), Nothing, Got(c.noValue)]
  {
    hide Count, Counted, Slot, Moved, Place, FindIndex, Step, MapStep;
    NewIsGood(c);
    GoodIsCounted(NewTable<K, V>(), c);
    var ops := Witness(c, key);
    var t0, t1, t2 := NewTable<K, V>(), Single(c, key, 8, c.hash(key)), Single(c, key, 16, 3);
    FirstStep(c, key);
    SecondStep(c, key);
    ThirdStep(c, key);
    StepCounted(t0, c, ops[0]);
    StepCounted(t1, c, ops[1]);
    StepCounted(t2, c, ops[2]);
    assert ops[1..][1..] == ops[2..] && ops[2..][1..] == [];
    RunStep(t0, c, ops);
    RunStep(t1, c, ops[1..]);
    RunStep(t2, c, ops[2..]);
    MapRunThree(c, key);
  }

  lemma GoodIsCounted<K, V>(t: Table<K, V>, c: Traits<K, V>)
    requires Good(t, c)
    ensures Counted(t, c)
  {}

  lemma RunStep<K, V>(t: Table<K, V>, c: Traits<K, V>, ops: seq<Op<K, V>>)
    requires Counted(t, c) && |ops| > 0
    ensures Counted(Step(t, c, ops[0]).0, c)
    ensures Run(t, c, ops) == [Step(t, c, ops[0]).1] + Run(Step(t, c, ops[0]).0, c, ops[1..])
    ensures |ops| == 1 ==> Run(t, c, ops) == [Step(t, c, ops[0]).1]
  {
    StepCounted(t, c, ops[0]);
  }

  lemma {:induction false} MapRunThree<K, V>(c: Traits<K, V>, key: K)
    ensures MapRun(map[], c, Witness(c, key)) == [Entry(c.noValue, true), Nothing, Got(c.noValue)]
  {
    var ops := Witness(c, key);
    var m: map<K, V> := map[][key := c.noValue];
    assert ops[1..] == [Reserving(8), Looking(key)] && ops[1..][1..] == [Looking(key)] && [ops[2]][1..] == [];
    assert MapRun(m, c, [Looking(key)]) == [Got(c.noValue)] + MapRun(m, c, []);
    assert MapRun(m, c, ops[1..]) == [Nothing] + MapRun(m, c, [Looking(key)]);
  }

  /** A table of one entry. */
  function Single<K, V>(c: Traits<K, V>, key: K, cap: nat, i: nat): Table<K, V>
    requires i < cap
  {
    Put(Blank(cap, c), i, HASH_REMAP, key, c.noValue).(size := 1)
  }

  lemma SmallSizes()
    ensures Sized(8) && Sized(16)
  {
    assert Shl(MIN_CAPACITY, 0) == 8;
    assert Shl(MIN_CAPACITY, 1) == 2 * Shl(MIN_CAPACITY, 0);
  }

  lemma {:induction false} FirstStep<K, V>(c: Traits<K, V>, key: K)
    requires c.hash(key) <= HASH_KILLED
    ensures Step(NewTable<K, V>(), c, Adding(key, c.noValue)) == (Single(c, key, 8, c.hash(key)), Entry(c.noValue, true))
  {
    hide Slot;
    var h := c.hash(key);
    SmallSizes();
    SlotIsMod(h, 8);
    var t1 := Prepared(NewTable<K, V>(), c);
    assert t1 == Blank(8, c);
    assert Place(t1, c, key) == Vacant(h, false);
    var r := ReserveSlot(NewTable<K, V>(), c, key);
    assert r.table.values == Blank<K, V>(8, c).values[h := c.noValue];
    assert SetValue(r.table, h, c.noValue).values == Blank<K, V>(8, c).values[h := c.noValue];
  }

  lemma {:induction false} SecondStep<K, V>(c: Traits<K, V>, key: K)
    requires c.hash(key) <= HASH_KILLED
    ensures Step(Single(c, key, 8, c.hash(key)), c, Reserving(8)) == (Single(c, key, 16, 3), Nothing)
  {
    hide Slot;
    var t := Single(c, key, 8, c.hash(key));
    SmallSizes();
    SlotIsMod(HASH_REMAP, 16);
    assert Needed(8, 16) == 16 && Needed(8, 8) == 16;
    OneMoved(c, key, c.hash(key), 8);
  }

  lemma {:induction false} OneMoved<K, V>(c: Traits<K, V>, key: K, i: nat, n: nat)
    requires i < 8 && n <= 8
    ensures Slot(HASH_REMAP, 16) == 3
    ensures Moved(Single(c, key, 8, i), c, 16, n) ==
            if n <= i then Blank(16, c) else Put(Blank(16, c), 3, HASH_REMAP, key, c.noValue)
  {
    hide Slot;
    SmallSizes();
    SlotIsMod(HASH_REMAP, 16);
    if n > 0 {
      OneMoved(c, key, i, n - 1);
    }
  }

  lemma {:induction false} ThirdStep<K, V>(c: Traits<K, V>, key: K)
    requires c.hash(key) <= HASH_KILLED
    ensures Step(Single(c, key, 16, 3), c, Looking(key)) == (Single(c, key, 16, 3), Absent)
  {
    hide Slot;
    SmallSizes();
    SlotIsMod(c.hash(key), 16);
  }

  // ---------- iteration ----------

  /** The first live slot from `i` on; `begin` is that from 0, `++` that behind the current one. */
  function NextLive<K, V>(t: Table<K, V>, i: nat): (j: nat)
    requires t.Shaped() && i <= |t.hashes|
    ensures i <= j <= |t.hashes|
    ensures j < |t.hashes| ==> t.Live(j)
    ensures forall x :: i <= x < j ==> !t.Live(x)
    decreases |t.hashes| - i
  {
    if i < |t.hashes| && !t.Live(i) then NextLive(t, i + 1) else i
  }

  /** The slots an iterator at `i` still visits. */
  function Walk<K, V>(t: Table<K, V>, i: nat): (s: seq<nat>)
    requires t.Shaped() && i <= |t.hashes|
    ensures forall j :: 0 <= j < |s| ==> s[j] < |t.hashes|
    decreases |t.hashes| - i
  {
    if i == |t.hashes| then [] else [i] + Walk(t, NextLive(t, i + 1))
  }

  /** Each live slot is visited, no other, in order and so only once. */
  lemma {:induction false} WalkAll<K, V>(t: Table<K, V>, i: nat)
    requires t.Shaped() && i <= |t.hashes| && (i < |t.hashes| ==> t.Live(i))
    ensures forall x :: x in Walk(t, i) <==> t.Live(x) && i <= x
    ensures forall a, b :: 0 <= a < b < |Walk(t, i)| ==> Walk(t, i)[a] < Walk(t, i)[b]
    decreases |t.hashes| - i
  {
    if i < |t.hashes| {
      var n := NextLive(t, i + 1);
      WalkAll(t, n);
      var s := Walk(t, n);
      assert Walk(t, i) == [i] + s;
      forall x ensures x in [i] + s <==> t.Live(x) && i <= x {
        assert x in s <==> t.Live(x) && n <= x;
      }
      forall a, b | 0 <= a < b < |s| + 1 ensures ([i] + s)[a] < ([i] + s)[b] {
        assert s[b - 1] in s;
      }
    } else {
      assert Walk(t, i) == [];
    }
  }

  /** Entries in the order of a walk. */
  function EntriesAt<K, V>(t: Table<K, V>, slots: seq<nat>): seq<(K, V)>
    requires t.Shaped() && forall j :: 0 <= j < |slots| ==> slots[j] < |t.hashes|
  {
    if |slots| == 0 then [] else [(t.keys[slots[0]], t.values[slots[0]])] + EntriesAt(t, slots[1..])
  }

  /** The loop `it = drop(*it) ? erase(it) : ++it`, with the entries it saw. */
  function EraseWhere<K, V>(t: Table<K, V>, c: Traits<K, V>, drop: (K, V) -> bool, i: nat): (r: (Table<K, V>, seq<(K, V)>))
    requires t.Shaped() && i <= |t.hashes|
    ensures r.0.Shaped()
    decreases |t.hashes| - i
  {
    if i == |t.hashes| then (t, [])
    else
      var seen := (t.keys[i], t.values[i]);
      var t' := if drop(t.keys[i], t.values[i]) then Kill(t, c, i) else t;
      var r := EraseWhere(t', c, drop, NextLive(t', i + 1));
      (r.0, [seen] + r.1)
  }

  lemma EraseWhereStep<K, V>(t: Table<K, V>, c: Traits<K, V>, drop: (K, V) -> bool, i: nat)
    requires t.Shaped() && i < |t.hashes|
    ensures var t' := if drop(t.keys[i], t.values[i]) then Kill(t, c, i) else t;
            var r := EraseWhere(t', c, drop, NextLive(t', i + 1));
            EraseWhere(t, c, drop, i) == (r.0, [(t.keys[i], t.values[i])] + r.1)
  {}

  lemma EraseWhereEnd<K, V>(t: Table<K, V>, c: Traits<K, V>, drop: (K, V) -> bool)
    requires t.Shaped()
    ensures EraseWhere(t, c, drop, |t.hashes|) == (t, [])
  {}

  ghost function Doomed<K, V>(t: Table<K, V>, drop: (K, V) -> bool, i: nat): set<K>
    requires t.Shaped()
  {
    set x | 0 <= x < |t.hashes| && i <= x && t.Live(x) && drop(t.keys[x], t.values[x]) :: t.keys[x]
  }

  /** Two tables that agree from `i` on look the same to an iterator there. */
  ghost predicate SameFrom<K, V>(t: Table<K, V>, t': Table<K, V>, i: nat)
    requires t.Shaped() && t'.Shaped()
  {
    |t.hashes| == |t'.hashes| && i <= |t.hashes|
    && t.hashes[i..] == t'.hashes[i..] && t.keys[i..] == t'.keys[i..] && t.values[i..] == t'.values[i..]
  }

  lemma {:induction false} SameLater<K, V>(t: Table<K, V>, t': Table<K, V>, i: nat, j: nat)
    requires t.Shaped() && t'.Shaped() && SameFrom(t, t', i) && i <= j <= |t.hashes|
    ensures SameFrom(t, t', j)
    ensures j < |t.hashes| ==> t.hashes[j] == t'.hashes[j] && t.keys[j] == t'.keys[j] && t.values[j] == t'.values[j]
    ensures forall x :: j <= x < |t.hashes| ==>
              t.hashes[x] == t'.hashes[x] && t.keys[x] == t'.keys[x] && t.values[x] == t'.values[x]
  {
    forall x | i <= x < |t.hashes|
      ensures t.hashes[x] == t'.hashes[x] && t.keys[x] == t'.keys[x] && t.values[x] == t'.values[x]
    {
      assert t.hashes[i..][x - i] == t'.hashes[i..][x - i];
      assert t.keys[i..][x - i] == t'.keys[i..][x - i];
      assert t.values[i..][x - i] == t'.values[i..][x - i];
    }
    assert t.hashes[j..] == t'.hashes[j..];
  }

  lemma {:induction false} SameWalk<K, V>(t: Table<K, V>, t': Table<K, V>, i: nat)
    requires t.Shaped() && t'.Shaped() && SameFrom(t, t', i)
    ensures NextLive(t, i) == NextLive(t', i)
    ensures Walk(t, i) == Walk(t', i)
    ensures EntriesAt(t, Walk(t, i)) == EntriesAt(t', Walk(t', i))
    decreases |t.hashes| - i
  {
    SameLater(t, t', i, i);
    if i < |t.hashes| {
      SameLater(t, t', i, i + 1);
      SameWalk(t, t', i + 1);
      var n := NextLive(t, i + 1);
      SameLater(t, t', i, n);
      SameWalk(t, t', n);
      assert ([i] + Walk(t, n))[1..] == Walk(t, n);
    }
  }

  /** Erasing while iterating sees every original entry once, in order, and removes those it is told to. */
  lemma {:induction false} EraseWhereFrom<K, V>(t: Table<K, V>, c: Traits<K, V>, drop: (K, V) -> bool, i: nat)
    requires Good(t, c) && i <= |t.hashes| && (i < |t.hashes| ==> t.Live(i))
    ensures var r := EraseWhere(t, c, drop, i);
            && Good(r.0, c) && View(r.0) == View(t) - Doomed(t, drop, i)
            && r.1 == EntriesAt(t, Walk(t, i))
    decreases |t.hashes| - i
  {
    hide Good, View, Doomed, EntriesAt;
    GoodShape(t, c);
    if i < |t.hashes| {
      var t' := if drop(t.keys[i], t.values[i]) then Kill(t, c, i) else t;
      var n := EraseOne(t, c, drop, i, t');
      EraseWhereFrom(t', c, drop, n);
    } else {
      NothingDoomed(t, drop, i);
    }
  }

  lemma {:induction false} EraseWhereCounted<K, V>(t: Table<K, V>, c: Traits<K, V>, drop: (K, V) -> bool, i: nat)
    requires Counted(t, c) && i <= |t.hashes| && (i < |t.hashes| ==> t.Live(i))
    ensures Counted(EraseWhere(t, c, drop, i).0, c)
    decreases |t.hashes| - i
  {
    hide Count;
    if i < |t.hashes| {
      var t' := if drop(t.keys[i], t.values[i]) then Kill(t, c, i) else t;
      if drop(t.keys[i], t.values[i]) { KillCounted(t, c, i); }
      EraseWhereStep(t, c, drop, i);
      EraseWhereCounted(t', c, drop, NextLive(t', i + 1));
    }
  }

  lemma NothingDoomed<K, V>(t: Table<K, V>, drop: (K, V) -> bool, i: nat)
    requires t.Shaped() && i == |t.hashes|
    ensures Doomed(t, drop, i) == {} && EntriesAt(t, Walk(t, i)) == []
  {}

  lemma {:induction false} EraseOne<K, V>(t: Table<K, V>, c: Traits<K, V>, drop: (K, V) -> bool, i: nat, t': Table<K, V>)
    returns (n: nat)
    requires Good(t, c) && t.Live(i)
    requires t' == if drop(t.keys[i], t.values[i]) then Kill(t, c, i) else t
    ensures Good(t', c) && |t'.hashes| == |t.hashes| && i < n == NextLive(t', i + 1) <= |t.hashes|
    ensures View(t') - Doomed(t', drop, n) == View(t) - Doomed(t, drop, i)
    ensures EntriesAt(t, Walk(t, i)) == [(t.keys[i], t.values[i])] + EntriesAt(t', Walk(t', n))
  {
    hide Counted, Placed, Entries, Unique, Walk;
    GoodShape(t, c);
    if drop(t.keys[i], t.values[i]) { KillGood(t, c, i); }
    GoodShape(t', c);
    assert SameFrom(t, t', i + 1);
    SameWalk(t, t', i + 1);
    n := NextLive(t', i + 1);
    SameLater(t, t', i + 1, n);
    SameWalk(t, t', n);
    DoomedStep(t, t', drop, i, n);
    WalkStep(t, i);
  }

  lemma WalkStep<K, V>(t: Table<K, V>, i: nat)
    requires t.Shaped() && i < |t.hashes|
    ensures EntriesAt(t, Walk(t, i)) == [(t.keys[i], t.values[i])] + EntriesAt(t, Walk(t, NextLive(t, i + 1)))
  {
    assert ([i] + Walk(t, NextLive(t, i + 1)))[1..] == Walk(t, NextLive(t, i + 1));
  }

  lemma GoodShape<K, V>(t: Table<K, V>, c: Traits<K, V>)
    requires Good(t, c)
    ensures t.Shaped()
  {}

  lemma {:induction false} DoomedStep<K, V>(t: Table<K, V>, t': Table<K, V>, drop: (K, V) -> bool, i: nat, n: nat)
    requires t.Shaped() && t'.Shaped() && i < n <= |t.hashes| && t.Live(i) && SameFrom(t, t', i + 1)
    requires forall x :: i < x < n ==> !t'.Live(x)
    ensures Doomed(t, drop, i) == Doomed(t', drop, n) + if drop(t.keys[i], t.values[i]) then {t.keys[i]} else {}
  {
    SameLater(t, t', i + 1, i + 1);
    forall x ensures i + 1 <= x ==> t.Live(x) == t'.Live(x) {}
  }

  lemma {:induction false} EraseWhereCorrect<K, V>(t: Table<K, V>, c: Traits<K, V>, drop: (K, V) -> bool)
    requires Good(t, c)
    ensures var r := EraseWhere(t, c, drop, NextLive(t, 0));
            && Good(r.0, c)
            && View(r.0) == Kept(View(t), drop)
            && r.1 == EntriesAt(t, Walk(t, NextLive(t, 0)))
  {
    hide Counted, Placed, Entries;
    GoodShape(t, c);
    ViewRepresents(t);
    var i := NextLive(t, 0);
    EraseWhereFrom(t, c, drop, i);
    forall k | k in View(t) ensures k in Doomed(t, drop, i) <==> drop(k, View(t)[k]) {
      var x :| t.Live(x) && t.keys[x] == k;
    }
  }

  // ---------- slots that stay ----------

  function InsertAll<K(==), V>(t: Table<K, V>, c: Traits<K, V>, kvs: seq<(K, V)>): (r: Table<K, V>)
    requires t.Shaped() && t.size >= 0
    ensures r.Shaped()
    decreases |kvs|
  {
    if |kvs| == 0 then t else InsertAll(Insert(t, c, kvs[0].0, kvs[0].1).table, c, kvs[1..])
  }

  /** Every entry is still in its slot. */
  ghost predicate Stable<K, V>(t: Table<K, V>, t': Table<K, V>)
    requires t.Shaped() && t'.Shaped()
  {
    && |t'.hashes| == |t.hashes|
    && forall i :: t.Live(i) ==> t'.Live(i) && t'.keys[i] == t.keys[i] && t'.values[i] == t.values[i]
  }

  lemma {:induction false} ReserveInPlace<K, V>(t: Table<K, V>, c: Traits<K, V>, k: K)
    requires Counted(t, c) && 2 * t.size < |t.hashes| && 2 * t.tombstones <= |t.hashes| - t.size
    ensures var r := ReserveSlot(t, c, k);
            && Stable(t, r.table) && r.table.size <= t.size + 1 && r.table.tombstones <= t.tombstones
            && (r.inserted ==> !t.Live(r.index))
  {
    hide Count, Slot, Clean, Counted, PlaceFrom;
    InPlace(t, c);
    var stop := PlaceCorrect(t, c, k);
  }

  lemma InPlace<K, V>(t: Table<K, V>, c: Traits<K, V>)
    requires Counted(t, c) && 2 * t.size < |t.hashes| && 2 * t.tombstones <= |t.hashes| - t.size
    ensures t.Shaped() && t.size >= 0 && Prepared(t, c) == t
  {
    hide Count;
    SizedDivides(|t.hashes|);
  }

  /** Below half load, and with tombstones in at most half of the rest, inserting moves no entry. */
  lemma {:induction false} InsertKeepsSlots<K, V>(t: Table<K, V>, c: Traits<K, V>, k: K, v: V)
    requires Counted(t, c) && 2 * t.size < |t.hashes| && 2 * t.tombstones <= |t.hashes| - t.size
    ensures var t' := Insert(t, c, k, v).table;
            Counted(t', c) && t'.size <= t.size + 1 && t'.tombstones <= t.tombstones && Stable(t, t')
  {
    hide Counted, ReserveSlot;
    ReserveInPlace(t, c, k);
    InsertCounted(t, c, k, v);
  }

  lemma {:induction false} InsertStays<K, V>(t: Table<K, V>, c: Traits<K, V>, k: K, v: V)
    requires Counted(t, c) && t.tombstones == 0 && 2 * (t.size + 1) <= |t.hashes|
    ensures var t' := Insert(t, c, k, v).table;
            Counted(t', c) && t'.tombstones == 0 && t'.size <= t.size + 1 && Stable(t, t')
  {
    hide Insert, Stable, Clean, Count;
    InsertKeepsSlots(t, c, k, v);
  }

  /** After reserve(n), a table without tombstones takes up to `n` entries without moving any. */
  lemma {:induction false} ReservedStays<K, V>(t: Table<K, V>, c: Traits<K, V>, n: nat, kvs: seq<(K, V)>)
    requires Counted(t, c) && t.tombstones == 0 && t.size + |kvs| <= n
    ensures Stable(Reserve(t, c, n), InsertAll(Reserve(t, c, n), c, kvs))
  {
    ReserveCapacity(t, c, n);
    InsertAllStays(Reserve(t, c, n), c, n, kvs);
  }

  lemma {:induction false} InsertAllStays<K, V>(t: Table<K, V>, c: Traits<K, V>, n: nat, kvs: seq<(K, V)>)
    requires Counted(t, c) && t.tombstones == 0 && t.size + |kvs| <= n && 2 * n <= |t.hashes|
    ensures Stable(t, InsertAll(t, c, kvs))
    decreases |kvs|
  {
    if |kvs| > 0 {
      InsertStays(t, c, kvs[0].0, kvs[0].1);
      InsertAllStays(Insert(t, c, kvs[0].0, kvs[0].1).table, c, n, kvs[1..]);
    }
  }

  /** The limit is sharp: in a half full table even inserting a key that is there already, which changes
      nothing in the map, moves all entries to a table of twice the capacity. */
  lemma {:induction false} HalfFullRehashes<K, V>(t: Table<K, V>, c: Traits<K, V>, k: K, v: V)
    requires Good(t, c) && PlainKeys(t, c) && |t.hashes| > 0 && 2 * t.size == |t.hashes| && k in View(t)
    ensures var r := Insert(t, c, k, v);
            !r.inserted && View(r.table) == View(t)
            && |r.table.hashes| == 2 * |t.hashes| && r.table.hashes == Rehash(t, c, 2 * |t.hashes|).hashes
  {
    hide Count, Clean, Entries, Placed, Unique, View, PlainKeys, Place, Rehash, Counted;
    AddingAgrees(t, c, k, v);
  }
}
