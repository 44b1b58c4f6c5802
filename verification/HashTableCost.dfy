/** Runs of operations on the hash table: agreement with a finite map, bounds on size and load, and the
    amortised cost of resizing. */
module HashTableCost {
  import opened Sequences
  import opened HashTableSpec
  import opened HashTableRefinement

  datatype Op<V> = InsertOp(key: nat, data: V) | GetOp(key: nat) | DelOp(key: nat)

  datatype Out<V> = Did(done: bool) | Found(data: Option<V>)

  function Step<V>(t: Table<V>, op: Op<V>): (r: (Table<V>, Out<V>))
    requires t.chains != [] && t.minSize > 0
    ensures r.0.chains != [] && r.0.minSize == t.minSize && r.0.ignoreResize == t.ignoreResize
  {
    match op
    case InsertOp(key, data) => var r := Insert(t, key, data); (r.0, Did(r.1))
    case GetOp(key) => (t, Found(Get(t, key)))
    case DelOp(key) => var r := Del(t, key); (r.0, Did(r.1))
  }

  function MapStep<V>(m: map<nat, V>, op: Op<V>): (map<nat, V>, Out<V>) {
    match op
    case InsertOp(key, data) => if key in m then (m, Did(false)) else (m[key := data], Did(true))
    case GetOp(key) => (m, Found(if key in m then Some(m[key]) else None))
    case DelOp(key) => (m - {key}, Did(key in m))
  }

  /** The guard of a run: no key 0, and no deletion of a heap bucket with a successor. */
  predicate Safe<V>(t: Table<V>, op: Op<V>)
    requires t.chains != []
  {
    match op
    case InsertOp(key, _) => key != 0
    case GetOp(key) => true
    case DelOp(key) => key != 0 && DelFits(t, key)
  }

  predicate AllSafe<V>(t: Table<V>, ops: seq<Op<V>>)
    requires t.chains != [] && t.minSize > 0
    decreases ops
  {
    ops == [] || (Safe(t, ops[0]) && AllSafe(Step(t, ops[0]).0, ops[1..]))
  }

  function Run<V>(t: Table<V>, ops: seq<Op<V>>): (r: (Table<V>, seq<Out<V>>))
    requires t.chains != [] && t.minSize > 0
    ensures r.0.chains != [] && r.0.minSize == t.minSize && r.0.ignoreResize == t.ignoreResize
    decreases ops
  {
    if ops == [] then (t, [])
    else
      var s := Step(t, ops[0]);
      var r := Run(s.0, ops[1..]);
      (r.0, [s.1] + r.1)
  }

  function MapRun<V>(m: map<nat, V>, ops: seq<Op<V>>): (map<nat, V>, seq<Out<V>>)
    decreases ops
  {
    if ops == [] then (m, [])
    else
      var s := MapStep(m, ops[0]);
      var r := MapRun(s.0, ops[1..]);
      (r.0, [s.1] + r.1)
  }

  ghost predicate Good<V>(t: Table<V>) {
    Sound(t) && 0 !in Contents(t)
  }

  lemma {:induction false} NoZeroSurvives<V>(es: Chain<V>, size: nat)
    requires size > 0 && !Has(es, 0)
    ensures ZeroSurvives(es, size)
  {
    if es != [] {
      NoZeroSurvives(es[1..], size);
    }
  }

  lemma GoodLoadFits<V>(t: Table<V>)
    requires Good(t)
    ensures LoadFits(t)
  {
    GetIsLookup(t, 0);
    GetFlatten(t, 0);
    NoZeroSurvives(Flatten(t.chains), Clamp(|t.chains| * 2, t.minSize));
    NoZeroSurvives(Flatten(t.chains), Clamp(|t.chains| / 2, t.minSize));
  }

  lemma StepAgrees<V>(t: Table<V>, op: Op<V>)
    requires Good(t) && Safe(t, op)
    ensures var r := Step(t, op); var m := MapStep(Contents(t), op);
      Good(r.0) && Contents(r.0) == m.0 && r.1 == m.1
  {
    match op
    case InsertOp(key, data) =>
      InsertRawIff(t, key, data);
      if InsertRaw(t, key, data).1 {
        GoodLoadFits(InsertRaw(t, key, data).0);
      }
      InsertIff(t, key, data);
    case GetOp(key) =>
      GetIsLookup(t, key);
    case DelOp(key) =>
      DelRawIff(t, key);
      if DelRaw(t, key).1 {
        GoodLoadFits(DelRaw(t, key).0);
      }
      DelIff(t, key);
  }

  /** Along every safe run the table holds what a finite map would hold, and answers what it would answer. */
  lemma {:induction false} AgreesWithMap<V>(t: Table<V>, ops: seq<Op<V>>)
    requires Good(t) && AllSafe(t, ops)
    ensures var r := Run(t, ops); var m := MapRun(Contents(t), ops);
      Good(r.0) && Contents(r.0) == m.0 && r.1 == m.1
    decreases ops
  {
    if ops != [] {
      StepAgrees(t, ops[0]);
      AgreesWithMap(Step(t, ops[0]).0, ops[1..]);
    }
  }

  // ---- Size and load ----

  function Power2(k: nat): nat {
    if k == 0 then 1 else 2 * Power2(k - 1)
  }

  /** The size is the minimum times a power of two. */
  ghost predicate Scaled(size: nat, minSize: nat) {
    exists k: nat :: size == minSize * Power2(k)
  }

  /** The size that the load check chooses. */
  function NextSize(count: nat, size: nat, minSize: nat): nat {
    if Overloaded(count, size) then Clamp(size * 2, minSize)
    else if Underloaded(count, size) then Clamp(size / 2, minSize)
    else size
  }

  lemma CheckLoadSize<V>(t: Table<V>)
    requires t.chains != [] && t.minSize > 0
    ensures |CheckLoad(t).chains| == if t.ignoreResize then |t.chains| else NextSize(t.count, |t.chains|, t.minSize)
  {
  }

  lemma ScaledHalf(size: nat, minSize: nat)
    requires minSize > 0 && Scaled(size, minSize) && size > minSize
    ensures size % 2 == 0 && Scaled(size / 2, minSize) && size / 2 >= minSize
  {
    var k: nat :| size == minSize * Power2(k);
    assert minSize * Power2(0) == minSize;
    assert size == 2 * (minSize * Power2(k - 1));
    assert size / 2 == minSize * Power2(k - 1);
    PowerPositive(k - 1);
    assert minSize * Power2(k - 1) >= minSize;
  }

  lemma {:induction false} PowerPositive(k: nat)
    ensures Power2(k) >= 1
  {
    if k > 0 {
      PowerPositive(k - 1);
    }
  }

  lemma ScaledNext(count: nat, size: nat, minSize: nat)
    requires minSize > 0 && Scaled(size, minSize) && size >= minSize
    ensures Scaled(NextSize(count, size, minSize), minSize) && NextSize(count, size, minSize) >= minSize
  {
    var k: nat :| size == minSize * Power2(k);
    if Overloaded(count, size) {
      assert size * 2 == minSize * Power2(k + 1);
    } else if Underloaded(count, size) {
      if size > minSize {
        ScaledHalf(size, minSize);
      } else {
        assert minSize == minSize * Power2(0);
      }
    }
  }

  /** Load at most 0.7, and at least 0.2 unless the size is the minimum (or the minimum is 1). */
  ghost predicate Balanced(count: nat, size: nat, minSize: nat) {
    && minSize > 0 && size >= minSize && Scaled(size, minSize)
    && 10 * count <= 7 * size
    && (minSize >= 2 && size > minSize ==> 10 * count >= 2 * size)
  }

  /** Four slots or more on the way down: the smallest size above twice the minimum. */
  lemma ScaledGap(size: nat, minSize: nat)
    requires minSize > 0 && Scaled(size, minSize) && size > minSize
    ensures size == 2 * minSize || size >= 4 * minSize
  {
    ScaledHalf(size, minSize);
    if size / 2 > minSize {
      ScaledHalf(size / 2, minSize);
    }
  }

  lemma BalancedAfterInsert(count: nat, size: nat, minSize: nat)
    requires Balanced(count, size, minSize)
    ensures Balanced(count + 1, NextSize(count + 1, size, minSize), minSize)
  {
    ScaledNext(count + 1, size, minSize);
    if !Overloaded(count + 1, size) && Underloaded(count + 1, size) && size > minSize {
      ScaledHalf(size, minSize);
    }
  }

  lemma BalancedAfterDelete(count: nat, size: nat, minSize: nat)
    requires Balanced(count, size, minSize) && count > 0
    ensures Balanced(count - 1, NextSize(count - 1, size, minSize), minSize)
  {
    ScaledNext(count - 1, size, minSize);
    if Underloaded(count - 1, size) && size > minSize {
      ScaledGap(size, minSize);
      ScaledHalf(size, minSize);
    }
  }

  // ---- Amortised cost ----

  /** The entries that the load check reinserts into a new array. */
  function Moved<V>(t: Table<V>): nat
    requires t.chains != [] && t.minSize > 0
  {
    if |CheckLoad(t).chains| == |t.chains| then 0 else |Flatten(t.chains)|
  }

  function OpCost<V>(t: Table<V>, op: Op<V>): nat
    requires t.chains != [] && t.minSize > 0
  {
    match op
    case InsertOp(key, data) => var raw := InsertRaw(t, key, data); if raw.1 then Moved(raw.0) else 0
    case GetOp(_) => 0
    case DelOp(key) => var raw := DelRaw(t, key); if raw.1 then Moved(raw.0) else 0
  }

  function RunCost<V>(t: Table<V>, ops: seq<Op<V>>): nat
    requires t.chains != [] && t.minSize > 0
    decreases ops
  {
    if ops == [] then 0 else OpCost(t, ops[0]) + RunCost(Step(t, ops[0]).0, ops[1..])
  }

  function Updates<V>(ops: seq<Op<V>>): nat {
    if ops == [] then 0 else (if ops[0].GetOp? then 0 else 1) + Updates(ops[1..])
  }

  function Max(a: int, b: int): int {
    if a > b then a else b
  }

  /** Twenty times the work saved up: three moves for each entry above load 0.4 or missing below 0.35. */
  function Potential(count: nat, size: nat, minSize: nat): nat {
    Max(0, Max(60 * count - 24 * size, if size > minSize then 21 * size - 60 * count else 0))
  }

  lemma {:induction false} DistinctKeys<V>(es: Chain<V>)
    requires NoDup(es)
    ensures |set e | e in es :: e.key| == |es|
  {
    if es != [] {
      DistinctKeys(es[1..]);
      HeadOnce(es);
      var rest := set e | e in es[1..] :: e.key;
      forall e | e in es[1..]
        ensures e.key != es[0].key
      {
        var j :| 0 <= j < |es[1..]| && es[1..][j] == e;
        assert es[j + 1] == e;
      }
      assert es == [es[0]] + es[1..];
      assert (set e | e in es :: e.key) == rest + {es[0].key};
    }
  }

  /** A sound table has as many entries in its chains as it counts. */
  lemma EntriesCounted<V>(t: Table<V>)
    requires Sound(t)
    ensures |Flatten(t.chains)| == t.count
  {
    var es := Flatten(t.chains);
    NoDupFlatten(t.chains, |t.chains|, 0);
    DistinctKeys(es);
    var keys := set e | e in es :: e.key;
    forall k: nat
      ensures k in keys <==> k in Contents(t)
    {
      GetFlatten(t, k);
      GetIsLookup(t, k);
      if Has(es, k) {
        assert es[IndexOf(es, k)] in es;
      }
    }
    KeysOfContents(t);
    assert keys == Contents(t).Keys;
  }

  /** In numbers: where the load check takes a table, and what that costs. */
  lemma CheckLoadCost<V>(t: Table<V>)
    requires Good(t) && !t.ignoreResize
    ensures var size' := NextSize(t.count, |t.chains|, t.minSize);
      && |CheckLoad(t).chains| == size' && CheckLoad(t).count == t.count
      && Moved(t) == if size' == |t.chains| then 0 else t.count
  {
    EntriesCounted(t);
    CheckLoadSize(t);
    GoodLoadFits(t);
    CheckLoadIff(t);
    KeysOfContents(t);
    KeysOfContents(CheckLoad(t));
  }

  /** What a step does, in numbers: the new count, the new size and the entries moved. */
  ghost predicate Numbers<V>(t: Table<V>, t': Table<V>, cost: nat, count: nat)
    requires t.chains != []
  {
    var size' := NextSize(count, |t.chains|, t.minSize);
    && t'.count == count && |t'.chains| == size' && t'.minSize == t.minSize
    && cost == if size' == |t.chains| then 0 else count
  }

  lemma InsertNumbers<V>(t: Table<V>, key: nat, data: V)
    requires Good(t) && !t.ignoreResize && key != 0
    ensures var op := InsertOp(key, data);
      if key in Contents(t) then Step(t, op).0 == t && OpCost(t, op) == 0
      else Numbers(t, Step(t, op).0, OpCost(t, op), t.count + 1)
  {
    InsertRawIff(t, key, data);
    var raw := InsertRaw(t, key, data);
    if raw.1 {
      CheckLoadCost(raw.0);
    }
  }

  lemma DeleteNumbers<V>(t: Table<V>, key: nat)
    requires Good(t) && !t.ignoreResize && Safe(t, Op<V>.DelOp(key))
    ensures var op := Op<V>.DelOp(key);
      if key in Contents(t) then t.count > 0 && Numbers(t, Step(t, op).0, OpCost(t, op), t.count - 1)
      else Step(t, op).0 == t && OpCost(t, op) == 0
  {
    DelRawIff(t, key);
    KeyPlace(t, key);
    MapMinus(Contents(t), key);
    var raw := DelRaw(t, key);
    if raw.1 {
      CheckLoadCost(raw.0);
    }
  }

  lemma StepBalanced<V>(t: Table<V>, op: Op<V>)
    requires Good(t) && Safe(t, op) && !t.ignoreResize && Balanced(t.count, |t.chains|, t.minSize)
    ensures var t' := Step(t, op).0;
      Balanced(t'.count, |t'.chains|, t'.minSize)
  {
    match op
    case InsertOp(key, data) =>
      InsertNumbers(t, key, data);
      BalancedAfterInsert(t.count, |t.chains|, t.minSize);
    case GetOp(key) =>
    case DelOp(key) =>
      DeleteNumbers(t, key);
      if key in Contents(t) {
        BalancedAfterDelete(t.count, |t.chains|, t.minSize);
      }
  }

  /** Along every safe run the size is the minimum times a power of two and the load stays in bounds. */
  lemma {:induction false} StaysBalanced<V>(t: Table<V>, ops: seq<Op<V>>)
    requires Good(t) && AllSafe(t, ops) && !t.ignoreResize && Balanced(t.count, |t.chains|, t.minSize)
    ensures var t' := Run(t, ops).0;
      Balanced(t'.count, |t'.chains|, t'.minSize)
    decreases ops
  {
    if ops != [] {
      StepAgrees(t, ops[0]);
      StepBalanced(t, ops[0]);
      StaysBalanced(Step(t, ops[0]).0, ops[1..]);
    }
  }

  /** The entries moved by the load check at this count, size and minimum. */
  function MoveCost(count: nat, size: nat, minSize: nat): nat {
    if NextSize(count, size, minSize) == size then 0 else count
  }

  /** An update to `count` entries is paid for by three units and what was saved. */
  ghost predicate Pays(from: nat, size: nat, minSize: nat, count: nat, size': nat, cost: nat) {
    20 * cost + Potential(count, size', minSize) <= Potential(from, size, minSize) + 60
  }

  lemma UpdateAmortised(from: nat, size: nat, minSize: nat, count: nat)
    requires minSize > 0 && size >= minSize && 10 * from <= 7 * size && (count == from + 1 || count == from - 1)
    requires size > minSize ==> size % 2 == 0 && size / 2 >= minSize
    ensures Pays(from, size, minSize, count, NextSize(count, size, minSize), MoveCost(count, size, minSize))
  {
  }

  lemma NumbersAmortised<V>(t: Table<V>, t': Table<V>, cost: nat, count: nat)
    requires t.chains != [] && Balanced(t.count, |t.chains|, t.minSize)
    requires Numbers(t, t', cost, count) && (count == t.count + 1 || count == t.count - 1)
    ensures Pays(t.count, |t.chains|, t.minSize, t'.count, |t'.chains|, cost)
  {
    if |t.chains| > t.minSize {
      ScaledHalf(|t.chains|, t.minSize);
    }
    UpdateAmortised(t.count, |t.chains|, t.minSize, count);
    assert cost == MoveCost(count, |t.chains|, t.minSize);
  }

  lemma StepAmortised<V>(t: Table<V>, op: Op<V>)
    requires Good(t) && Safe(t, op) && !t.ignoreResize && Balanced(t.count, |t.chains|, t.minSize)
    ensures if op.GetOp? then Step(t, op).0 == t && OpCost(t, op) == 0 
      else var t' := Step(t, op).0; Pays(t.count, |t.chains|, t.minSize, t'.count, |t'.chains|, OpCost(t, op))
  {
    var t', cost := Step(t, op).0, OpCost(t, op);
    match op
    case InsertOp(key, data) =>
      InsertNumbers(t, key, data);
      if key !in Contents(t) {
        NumbersAmortised(t, t', cost, t.count + 1);
      }
    case GetOp(key) =>
    case DelOp(key) =>
      DeleteNumbers(t, key);
      if key in Contents(t) {
        NumbersAmortised(t, t', cost, t.count - 1);
      }
  }

  lemma {:induction false} RunAmortised<V>(t: Table<V>, ops: seq<Op<V>>)
    requires Good(t) && AllSafe(t, ops) && !t.ignoreResize && Balanced(t.count, |t.chains|, t.minSize)
    ensures 20 * RunCost(t, ops) <= Potential(t.count, |t.chains|, t.minSize) + 60 * Updates(ops)
    decreases ops
  {
    if ops != [] {
      StepAgrees(t, ops[0]);
      StepBalanced(t, ops[0]);
      StepAmortised(t, ops[0]);
      RunAmortised(Step(t, ops[0]).0, ops[1..]);
    }
  }

  /** From an empty table, whatever its minimum size, all resizes of a run together move at most three entries
      for each insert or delete. */
  lemma ResizesCostThreePerUpdate<V>(minSize: nat, ops: seq<Op<V>>)
    requires minSize > 0 && AllSafe(NewTable<V>(minSize, minSize, false), ops)
    ensures RunCost(NewTable<V>(minSize, minSize, false), ops) <= 3 * Updates(ops)
  {
    var t := NewTable<V>(minSize, minSize, false);
    NewTableSound<V>(minSize, minSize, false);
    assert minSize == minSize * Power2(0);
    RunAmortised(t, ops);
  }

  // ---- The lower load bound needs a minimum size of 2 ----

  lemma {:induction false} ChainWithin<T>(ss: seq<seq<T>>, i: nat)
    requires i < |ss|
    ensures |ss[i]| <= |Flatten(ss)|
  {
    if i > 0 {
      ChainWithin(ss[1..], i - 1);
    }
  }

  /** With at most two entries every deletion hits a first or a last bucket. */
  lemma FewEntriesAreSafe<V>(t: Table<V>, key: nat)
    requires Good(t) && t.count <= 2 && key != 0
    ensures Safe(t, Op<V>.DelOp(key))
  {
    EntriesCounted(t);
    ChainWithin(t.chains, key % |t.chains|);
  }

  /** A sound resizable table of minimum size 1 with this size and content. */
  ghost predicate At<V>(t: Table<V>, size: nat, m: map<nat, V>) {
    Good(t) && !t.ignoreResize && t.minSize == 1 && |t.chains| == size && Contents(t) == m
  }

  lemma InsertAt<V>(t: Table<V>, size: nat, m: map<nat, V>, key: nat, data: V)
    requires At(t, size, m) && key != 0 && key !in m
    ensures At(Step(t, InsertOp(key, data)).0, NextSize(|m| + 1, size, 1), m[key := data])
  {
    KeysOfContents(t);
    InsertNumbers(t, key, data);
    StepAgrees(t, InsertOp(key, data));
  }

  lemma DeleteAt<V>(t: Table<V>, size: nat, m: map<nat, V>, key: nat)
    requires At(t, size, m) && key in m && |m| <= 2
    ensures Safe(t, Op<V>.DelOp(key))
    ensures At(Step(t, Op<V>.DelOp(key)).0, NextSize(|m| - 1, size, 1), m - {key})
  {
    KeysOfContents(t);
    FewEntriesAreSafe(t, key);
    DeleteNumbers(t, key);
    StepAgrees(t, Op<V>.DelOp(key));
  }

  lemma TwoInsertsReachFour<V>(a: V, b: V)
    ensures var t := NewTable<V>(1, 1, false);
      At(Step(Step(t, InsertOp(1, a)).0, InsertOp(2, b)).0, 4, map[1 := a][2 := b])
  {
    var t := NewTable<V>(1, 1, false);
    NewTableSound<V>(1, 1, false);
    InsertAt(t, 1, map[], 1, a);
    InsertAt(Step(t, InsertOp(1, a)).0, 2, map[1 := a], 2, b);
  }

  /** With a minimum size of 1 the lower bound fails: from the four slots that two inserts lead to, two
      deletes reach an empty table of two slots. */
  lemma LowerBoundNeedsMinTwo<V>(t: Table<V>, m: map<nat, V>, j: nat, k: nat)
    requires At(t, 4, m) && m.Keys == {j, k} && j != k
    ensures var t1 := Step(t, Op<V>.DelOp(j)).0; var t2 := Step(t1, Op<V>.DelOp(k)).0;
      && Safe(t, Op<V>.DelOp(j)) && Safe(t1, Op<V>.DelOp(k))
      && |t2.chains| == 2 > t2.minSize && t2.count == 0
  {
    assert |m| == |m.Keys| == 2;
    DeleteAt(t, 4, m, j);
    MapMinus(m, j);
    var m1 := m - {j};
    DeleteAt(Step(t, Op<V>.DelOp(j)).0, 4, m1, k);
    MapMinus(m1, k);
    KeysOfContents(Step(Step(t, Op<V>.DelOp(j)).0, Op<V>.DelOp(k)).0);
  }
}
