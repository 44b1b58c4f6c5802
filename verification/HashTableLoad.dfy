/** The hash table in numbers: when it grows and shrinks, what that costs, and which keys a deletion loses. */
module HashTableLoad {
  import opened Sequences
  import opened HashTableSpec
  import opened HashTableRefinement
  import opened HashTableCost

  // ---- Size ----

  /** An accepted insertion doubles the size exactly if the load would be above 0.7. A table that is nearly empty
      shrinks at an insertion too. */
  lemma InsertDoublesIff<V>(t: Table<V>, key: nat, data: V)
    requires Good(t) && !t.ignoreResize && |t.chains| >= t.minSize && key != 0 && key !in Contents(t)
    ensures var size, size' := |t.chains|, |Insert(t, key, data).0.chains|;
      && (size' == 2 * size <==> 10 * (t.count + 1) > 7 * size)
      && (2 * size <= 10 * (t.count + 1) <= 7 * size ==> size' == size)
      && (10 * (t.count + 1) < 2 * size ==> size' == if size / 2 < t.minSize then t.minSize else size / 2)
  {
    InsertNumbers(t, key, data);
  }

  /** A deletion that hits halves the size, down to the minimum, exactly if the load would be below 0.2. */
  lemma DeleteHalvesIff<V>(t: Table<V>, key: nat)
    requires Good(t) && !t.ignoreResize && |t.chains| >= t.minSize && 10 * t.count <= 7 * |t.chains|
    requires key in Contents(t) && DelFits(t, key)
    ensures t.count > 0
    ensures var size, size' := |t.chains|, |Del(t, key).0.chains|;
      size' == if 10 * (t.count - 1) >= 2 * size then size else if size / 2 < t.minSize then t.minSize else size / 2
  {
    DeleteNumbers(t, key);
  }

  /** A table that may not be resized, and one that refuses an operation, keeps its size. */
  lemma OtherwiseSameSize<V>(t: Table<V>, op: Op<V>)
    requires Good(t) && Safe(t, op)
    ensures t.ignoreResize ==> |Step(t, op).0.chains| == |t.chains|
    ensures op.InsertOp? && op.key in Contents(t) ==> Step(t, op).0 == t
    ensures op.GetOp? || (op.DelOp? && op.key !in Contents(t)) ==> Step(t, op).0 == t
  {
    match op
    case InsertOp(key, data) => KeyPlace(t, key);
    case GetOp(_) =>
    case DelOp(key) => KeyPlace(t, key);
  }

  /** From an empty table on, along every safe run, the load is at most 0.7, and at least 0.2 unless the table has its
      minimum size; the size is never below that. */
  lemma LoadAlongRuns<V>(minSize: nat, ops: seq<Op<V>>)
    requires minSize >= 2 && AllSafe(NewTable<V>(minSize, minSize, false), ops)
    ensures var t := Run(NewTable<V>(minSize, minSize, false), ops).0;
      && |t.chains| >= minSize && t.count == |Contents(t)|
      && 10 * t.count <= 7 * |t.chains|
      && (|t.chains| > minSize ==> 10 * t.count >= 2 * |t.chains|)
  {
    var t := NewTable<V>(minSize, minSize, false);
    NewTableSound<V>(minSize, minSize, false);
    assert minSize == minSize * Power2(0);
    StaysBalanced(t, ops);
    AgreesWithMap(t, ops);
    KeysOfContents(Run(t, ops).0);
  }

  // ---- Cost ----

  /** What an operation costs: every entry there is afterwards if the size changes, and nothing otherwise. */
  lemma CostSays<V>(t: Table<V>, op: Op<V>)
    requires Good(t) && Safe(t, op) && !t.ignoreResize
    ensures var t' := Step(t, op).0;
      OpCost(t, op) == if |t'.chains| == |t.chains| then 0 else |Contents(t')|
  {
    StepAgrees(t, op);
    KeysOfContents(Step(t, op).0);
    match op
    case InsertOp(key, data) => InsertNumbers(t, key, data);
    case GetOp(_) =>
    case DelOp(key) => DeleteNumbers(t, key);
  }

  // ---- Runs, one operation at a time ----

  lemma FirstOfMore<T>(a: seq<T>, x: T)
    requires a != []
    ensures (a + [x])[0] == a[0] && (a + [x])[1..] == a[1..] + [x]
  {
  }

  /** One more operation at the end of a run, and its answer. */
  lemma {:induction false} RunSnoc<V>(t: Table<V>, ops: seq<Op<V>>, op: Op<V>)
    requires t.chains != [] && t.minSize > 0
    ensures var before := Run(t, ops); var s := Step(before.0, op); Run(t, ops + [op]) == (s.0, before.1 + [s.1])
    decreases |ops|
  {
    if ops == [] {
      assert [] + [op] == [op] && [op][1..] == [];
      var s := Step(t, op);
      assert [s.1] + [] == [s.1] == [] + [s.1];
    } else {
      FirstOfMore(ops, op);
      var next := Step(t, ops[0]);
      RunSnoc(next.0, ops[1..], op);
      var before := Run(next.0, ops[1..]);
      assert [next.1] + (before.1 + [Step(before.0, op).1]) == [next.1] + before.1 + [Step(before.0, op).1];
    }
  }

  /** What it costs, whether it counts as an update, and that it has to be safe where the run has led. */
  lemma {:induction false} CostSnoc<V>(t: Table<V>, ops: seq<Op<V>>, op: Op<V>)
    requires t.chains != [] && t.minSize > 0
    ensures var t' := Run(t, ops).0;
      && RunCost(t, ops + [op]) == RunCost(t, ops) + OpCost(t', op)
      && Updates(ops + [op]) == Updates(ops) + (if op.GetOp? then 0 else 1)
      && (AllSafe(t, ops + [op]) <==> AllSafe(t, ops) && Safe(t', op))
    decreases |ops|
  {
    if ops == [] {
      assert [] + [op] == [op] && [op][1..] == [];
    } else {
      FirstOfMore(ops, op);
      CostSnoc(Step(t, ops[0]).0, ops[1..], op);
    }
  }

  /** A lookup is always safe, an insertion and a deletion are for every key but 0, and a deletion only if no bucket
      between the first and the last of its chain has the key. */
  lemma SafeIff<V>(t: Table<V>, op: Op<V>)
    requires Placed(t)
    ensures Safe(t, op) <==>
      op.GetOp? || (op.key != 0 && (op.DelOp? ==>
                      var c := t.chains[op.key % |t.chains|];
                      forall p | 0 < p < |c| - 1 :: c[p].key != op.key))
  {
    if op.DelOp? {
      var c := t.chains[op.key % |t.chains|];
      if p :| 0 < p < |c| - 1 && c[p].key == op.key {
        IndexOfUnique(c, p);
      }
    }
  }

  // ---- One key at a time ----

  /** A bucket for a new key stands behind the others of its chain. */
  lemma InsertedLast<V>(t: Table<V>, key: nat, data: V)
    requires Good(t) && key != 0
    ensures var r := InsertRaw(t, key, data); var i := key % |t.chains|;
      && (r.1 <==> key !in Contents(t))
      && (r.1 ==> r.0.count == t.count + 1 && r.0.chains[i] == t.chains[i] + [Entry(key, data)])
      && (forall j | 0 <= j < |t.chains| && (j != i || !r.1) :: r.0.chains[j] == t.chains[j])
  {
    InsertRawIff(t, key, data);
  }

  lemma {:induction false} IndexOfPrefix<V>(c: Chain<V>, p: nat, key: nat)
    requires p <= |c|
    ensures IndexOf(c[..p], key) == if IndexOf(c, key) < p then IndexOf(c, key) else p
  {
    if p > 0 && c[0].key != key {
      assert c[..p][1..] == c[1..][..p - 1];
      IndexOfPrefix(c[1..], p - 1, key);
    }
  }

  lemma LookupInPrefix<V>(c: Chain<V>, p: nat, k: nat)
    requires NoDup(c) && p <= |c|
    ensures Lookup(c[..p], k) == if exists j :: p <= j < |c| && c[j].key == k then None else Lookup(c, k)
  {
    IndexOfPrefix(c, p, k);
    if j :| p <= j < |c| && c[j].key == k {
      IndexOfUnique(c, j);
    }
  }

  lemma DeletionCuts<V>(t: Table<V>, key: nat, p: nat, c: Chain<V>)
    requires Placed(t) && c == t.chains[key % |t.chains|] && 0 < p < |c| && c[p].key == key
    ensures DelRaw(t, key).0.chains == t.chains[key % |t.chains| := c[..p]]
  {
    IndexOfUnique(c, p);
  }

  lemma GetAfterChange<V>(t: Table<V>, t': Table<V>, i: nat, c: Chain<V>, k: nat)
    requires i < |t.chains| && t'.chains == t.chains[i := c]
    ensures Get(t', k) == if k % |t.chains| == i then Lookup(c, k) else Get(t, k)
  {
  }

  /** A deletion behind the array bucket loses every key of the chain from the one deleted on, and no other. */
  lemma DeletionLoses<V>(t: Table<V>, key: nat, p: nat, k: nat)
    requires Placed(t)
    requires var c := t.chains[key % |t.chains|];
      0 < p < |c| && c[p].key == key
    ensures var c := t.chains[key % |t.chains|];
      Get(DelRaw(t, key).0, k) == if exists j :: p <= j < |c| && c[j].key == k then None else Get(t, k)
  {
    var i := key % |t.chains|;
    var c := t.chains[i];
    DeletionCuts(t, key, p, c);
    GetAfterChange(t, DelRaw(t, key).0, i, c[..p], k);
    if k % |t.chains| == i {
      LookupInPrefix(c, p, k);
    } else {
      assert forall j | 0 <= j < |c| :: c[j].key % |t.chains| == i;
    }
  }

  /** The deletion of the array bucket loses no other key. */
  lemma HeadDeletionLoses<V>(t: Table<V>, key: nat, k: nat)
    requires Placed(t)
    requires var c := t.chains[key % |t.chains|];
      c != [] && c[0].key == key
    ensures Get(DelRaw(t, key).0, k) == if k == key then None else Get(t, k)
  {
    DelRawGet(t, key, k);
  }

  /** Deleting key 0 where its array bucket is empty counts as a hit; from 0 the count wraps to the largest 64-bit
      number. */
  lemma CountWraps<V>(t: Table<V>)
    requires t.chains != [] && t.chains[0] == []
    ensures DelRaw(t, 0).1 && DelRaw(t, 0).0.chains == t.chains
    ensures DelRaw(t, 0).0.count == if t.count == 0 then 18446744073709551615 else t.count - 1
  {
    ZeroChain(|t.chains|);
  }

  /** After clearing the first key of each chain is still found, and no other; the count is 0. */
  lemma ClearKeepsHeads<V>(t: Table<V>, k: nat)
    requires Placed(t)
    ensures var c := t.chains[k % |t.chains|];
      Get(Clear(t), k) == if c != [] && c[0].key == k then Some(c[0].data) else None
    ensures Clear(t).count == 0
  {
    var c := t.chains[k % |t.chains|];
    if c != [] {
      assert Clear(t).chains[k % |t.chains|] == [c[0]];
    }
  }
}
