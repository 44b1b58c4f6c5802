/** The hash table as it is laid out: an array of buckets, each the head of a linked chain. */
module HashTable {
  import opened Sequences
  import opened HashTableSpec
  import opened HashTableRefinement

  /** `row` and `rank` record the chain of a bucket and its order in it. */
  class Bucket<V> {
    var key: nat
    var data: Option<V>
    var inheap: bool
    var next: Bucket?<V>
    ghost const row: nat
    ghost const rank: nat

    constructor (inheap: bool, ghost row: nat, ghost rank: nat)
      ensures key == 0 && data == None && next == null
      ensures this.inheap == inheap && this.row == row && this.rank == rank
    {
      key, data, next, this.inheap := 0, None, null, inheap;
      this.row, this.rank := row, rank;
    }
  }

  function NextOf<T>(nodes: seq<T>, j: nat): Option<T>
    requires j < |nodes|
  {
    if j + 1 < |nodes| then Some(nodes[j + 1]) else None
  }

  /** A bucket linked to the next one of its chain, the first in the array and the rest on the heap. */
  ghost predicate LinkedTo<V>(b: Bucket<V>, first: bool, next: Option<Bucket<V>>)
    reads b
  {
    && (b.inheap <==> !first)
    && b.next == match next case None => null case Some(n) => n
  }

  /** Bucket `j` of a chain is where it should be. */
  ghost predicate InPlace<V>(nodes: seq<Bucket<V>>, row: nat, j: nat)
    requires j < |nodes|
    reads nodes[j]
  {
    nodes[j].row == row && LinkedTo(nodes[j], j == 0, NextOf(nodes, j))
  }

  /** These buckets are chain `row` and hold the entries `c`. */
  ghost predicate Holds<V>(nodes: seq<Bucket<V>>, row: nat, c: Chain<V>)
    reads nodes
  {
    && nodes != []
    && (forall j | 0 <= j < |nodes| :: InPlace(nodes, row, j))
    && (forall j, k | 0 <= j < k < |nodes| :: nodes[j].rank < nodes[k].rank)
    && (if c == [] then |nodes| == 1 && nodes[0].data == None && nodes[0].key == 0
        else && |c| == |nodes|
             && forall j | 0 <= j < |nodes| :: nodes[j].key == c[j].key && nodes[j].data == Some(c[j].data))
  }

  /** A bucket of one chain is in no other. */
  lemma NotInOther<V>(nodes: seq<Bucket<V>>, row: nat, j: nat, others: seq<Bucket<V>>, row': nat)
    requires j < |nodes| && InPlace(nodes, row, j) && row != row'
    requires forall k | 0 <= k < |others| :: InPlace(others, row', k)
    ensures nodes[j] !in others
  {
    forall k | 0 <= k < |others|
      ensures others[k] != nodes[j]
    {
      assert InPlace(others, row', k);
    }
  }

  /** Links a new bucket behind the last one of a chain. */
  method LinkNew<V>(last: Bucket<V>, key: nat, data: V, ghost nodes: seq<Bucket<V>>, ghost row: nat, ghost c: Chain<V>)
    returns (node: Bucket<V>)
    requires Holds(nodes, row, c) && c != [] && last == nodes[|nodes| - 1]
    modifies last
    ensures fresh(node) && Holds(nodes + [node], row, c + [Entry(key, data)])
  {
    node := new Bucket(true, row, last.rank + 1);
    node.key, node.data := key, Some(data);
    assert forall j | 0 <= j < |nodes| - 1 :: nodes[j].rank < last.rank;
    last.next := node;
    forall j | 0 <= j < |nodes + [node]|
      ensures InPlace(nodes + [node], row, j)
    {
      if j < |nodes| {
        assert old(InPlace(nodes, row, j));
      }
    }
  }

  /** Puts an entry into an empty array bucket. */
  method FillHead<V>(bucket: Bucket<V>, key: nat, data: V, ghost row: nat)
    requires Holds([bucket], row, [])
    modifies bucket
    ensures Holds([bucket], row, [Entry(key, data)])
  {
    assert InPlace([bucket], row, 0);
    bucket.key, bucket.data := key, Some(data);
  }

  ghost function Successor<V>(bucket: Bucket<V>): set<Bucket<V>>
    reads bucket
  {
    if bucket.next != null then {bucket.next} else {}
  }

  /** Removes the entry of a bucket: its successor is copied over it, or it is freed or zeroed. */
  method DelBucket<V>(bucket: Bucket<V>) returns (ghost gone: set<Bucket<V>>)
    requires bucket.next != bucket
    modifies bucket, Successor(bucket)
    ensures old(bucket.next) != null ==>
      && gone == {old(bucket.next)}
      && bucket.key == old(bucket.next.key) && bucket.data == old(bucket.next.data)
      && bucket.next == old(bucket.next.next)
      && bucket.inheap == if old(bucket.inheap) then old(bucket.next.inheap) else false
    ensures old(bucket.next) == null && old(bucket.inheap) ==>
      gone == {bucket} && bucket.key == old(bucket.key) && bucket.data == old(bucket.data)
    ensures old(bucket.next) == null && !old(bucket.inheap) ==>
      gone == {} && bucket.key == 0 && bucket.data == None && bucket.next == null && !bucket.inheap
  {
    var next := bucket.next;
    if next != null {
      if !bucket.inheap {
        next.inheap := false;
      }
      bucket.key, bucket.data, bucket.inheap, bucket.next := next.key, next.data, next.inheap, next.next;
      gone := {next};
    } else if bucket.inheap {
      gone := {bucket};
    } else {
      bucket.key, bucket.data, bucket.inheap, bucket.next := 0, None, false, null;
      gone := {};
    }
  }

  ghost function WithoutHead<V>(nodes: seq<Bucket<V>>): seq<Bucket<V>>
    requires nodes != []
  {
    if |nodes| == 1 then nodes else [nodes[0]] + nodes[2..]
  }

  /** Deleting the array bucket of a chain leaves the rest of the chain. */
  method DelHead<V>(bucket: Bucket<V>, ghost nodes: seq<Bucket<V>>, ghost row: nat, ghost c: Chain<V>)
    returns (ghost gone: set<Bucket<V>>)
    requires Holds(nodes, row, c) && bucket == nodes[0]
    modifies bucket, Successor(bucket)
    ensures Holds(WithoutHead(nodes), row, if c == [] then [] else c[1..])
    ensures gone == (if |nodes| > 1 then {nodes[1]} else {})
  {
    DistinctBuckets(nodes, row, c);
    assert InPlace(nodes, row, 0);
    ghost var rest := WithoutHead(nodes);
    if bucket.next == null {
      gone := DelBucket(bucket);
      assert rest == [bucket] && InPlace(rest, row, 0);
      return;
    }
    assert InPlace(nodes, row, 1);
    gone := DelBucket(bucket);
    forall j | 0 <= j < |rest|
      ensures InPlace(rest, row, j)
    {
      if j > 0 {
        assert old(InPlace(nodes, row, j + 1)) && rest[j] == nodes[j + 1];
      }
    }
    HeadReplaced(nodes, rest, row, c);
  }

  lemma DistinctBuckets<V>(nodes: seq<Bucket<V>>, row: nat, c: Chain<V>)
    requires Holds(nodes, row, c)
    ensures forall j, k | 0 <= j < k < |nodes| :: nodes[j] != nodes[k]
  {
    forall j, k | 0 <= j < k < |nodes|
      ensures nodes[j] != nodes[k]
    {
      assert nodes[j].rank < nodes[k].rank;
    }
  }

  lemma HeadReplaced<V>(nodes: seq<Bucket<V>>, rest: seq<Bucket<V>>, row: nat, c: Chain<V>)
    requires |nodes| > 1 && rest == WithoutHead(nodes) && |c| == |nodes|
    requires forall j | 0 <= j < |rest| :: InPlace(rest, row, j)
    requires nodes[0].key == c[1].key && nodes[0].data == Some(c[1].data)
    requires forall j | 2 <= j < |nodes| :: nodes[j].key == c[j].key && nodes[j].data == Some(c[j].data)
    requires forall j | 2 <= j < |nodes| :: nodes[0].rank < nodes[j].rank
    requires forall j, k | 2 <= j < k < |nodes| :: nodes[j].rank < nodes[k].rank
    ensures Holds(rest, row, c[1..])
  {
    assert forall j | 1 <= j < |rest| :: rest[j] == nodes[j + 1];
  }

  /** Cuts a chain before bucket `p` and deletes that bucket; what was behind it is no longer linked. */
  method CutAndDel<V>(prev: Bucket<V>, bucket: Bucket<V>, ghost nodes: seq<Bucket<V>>, ghost row: nat,
                      ghost c: Chain<V>, ghost p: nat)
    returns (ghost gone: set<Bucket<V>>)
    requires Holds(nodes, row, c) && 0 < p < |nodes| && prev == nodes[p - 1] && bucket == nodes[p]
    modifies prev, bucket, Successor(bucket)
    ensures Holds(nodes[..p], row, c[..p])
    ensures gone == {if p == |nodes| - 1 then nodes[p] else nodes[p + 1]}
  {
    assert InPlace(nodes, row, p);
    assert forall j | 0 <= j < p :: nodes[j].rank < nodes[p].rank;
    assert p + 1 < |nodes| ==> forall j | 0 <= j <= p :: nodes[j].rank < nodes[p + 1].rank;
    assert forall j | 0 <= j < p - 1 :: nodes[j].rank < nodes[p - 1].rank;
    prev.next := null;
    gone := DelBucket(bucket);
    forall j | 0 <= j < p
      ensures InPlace(nodes[..p], row, j)
    {
      assert old(InPlace(nodes, row, j));
    }
  }

  /** An array of zeroed buckets. */
  method ZeroedBuckets<V>(size: nat) returns (table: array<Bucket<V>>, ghost nodes: seq<Bucket<V>>)
    ensures fresh(table) && table.Length == size == |nodes| && forall i | 0 <= i < size :: fresh(nodes[i])
    ensures forall i | 0 <= i < size :: table[i] == nodes[i] && Holds([nodes[i]], i, [])
  {
    var blank := new Bucket<V>(false, 0, 0);
    table := new Bucket<V>[size](_ => blank);
    nodes := [];
    for i := 0 to size
      invariant |nodes| == i && forall k | 0 <= k < i :: fresh(nodes[k])
      invariant forall k | 0 <= k < i :: table[k] == nodes[k] && Holds([nodes[k]], k, [])
      modifies table
    {
      var bucket := new Bucket<V>(false, i, 0);
      table[i] := bucket;
      assert InPlace([bucket], i, 0);
      nodes := nodes + [bucket];
    }
  }

  /** The heap buckets among the first `j` of a chain. */
  ghost function HeapOf<V>(nodes: seq<Bucket<V>>, j: nat): set<Bucket<V>> {
    set k | 0 < k < j && k < |nodes| :: nodes[k]
  }

  /** The heap buckets of all chains. */
  ghost function HeapBuckets<V>(spine: seq<seq<Bucket<V>>>): set<Bucket<V>> {
    set i, k | 0 <= i < |spine| && 0 < k < |spine[i]| :: spine[i][k]
  }

  lemma HeapOfNext<V>(nodes: seq<Bucket<V>>, j: nat)
    requires j < |nodes|
    ensures HeapOf(nodes, j + 1) == HeapOf(nodes, j) + if j > 0 then {nodes[j]} else {}
  {
  }

  lemma HeapBucketsNext<V>(spine: seq<seq<Bucket<V>>>, i: nat)
    requires i < |spine|
    ensures HeapBuckets(spine[..i + 1]) == HeapBuckets(spine[..i]) + HeapOf(spine[i], |spine[i]|)
  {
    var next := HeapBuckets(spine[..i]) + HeapOf(spine[i], |spine[i]|);
    forall b
      ensures b in HeapBuckets(spine[..i + 1]) <==> b in next
    {
      if b in HeapBuckets(spine[..i + 1]) {
        var j, k :| 0 <= j < i + 1 && 0 < k < |spine[..i + 1][j]| && b == spine[..i + 1][j][k];
        assert j < i ==> spine[..i][j] == spine[..i + 1][j];
      }
      if b in HeapBuckets(spine[..i]) {
        var j, k :| 0 <= j < i && 0 < k < |spine[..i][j]| && b == spine[..i][j][k];
        assert spine[..i + 1][j] == spine[..i][j];
      }
      if b in HeapOf(spine[i], |spine[i]|) {
        assert spine[..i + 1][i] == spine[i];
      }
    }
  }

  class ServerGht<V> {
    var table: array<Bucket<V>>
    var minSize: nat
    var count: nat
    var ignoreResize: bool
    ghost var spine: seq<seq<Bucket<V>>>
    ghost var repr: set<Bucket<V>>
    ghost var freed: set<Bucket<V>>
    ghost var model: Table<V>

    /** The chains are linked lists of live buckets that hold the entries of the model. */
    ghost predicate Valid()
      reads this, table, repr
    {
      && |spine| == table.Length == |model.chains| > 0 && minSize > 0
      && model.count == count && model.minSize == minSize && model.ignoreResize == ignoreResize
      && repr !! freed
      && (forall i | 0 <= i < |spine| :: (forall n | n in spine[i] :: n in repr))
      && (forall i | 0 <= i < |spine| :: Holds(spine[i], i, model.chains[i]))
      && (forall i | 0 <= i < |spine| :: spine[i][0] == table[i])
    }

    /** A table still without an array. */
    constructor ()
      ensures table.Length == 0 && repr == {}
    {
      table := new Bucket<V>[0];
      minSize, count, ignoreResize := 0, 0, false;
      spine, repr, freed := [], {}, {};
      model := Table([], 0, 0, false);
    }

    method Init(initialSize: nat) returns (ok: bool)
      modifies this
      ensures ok <==> initialSize != 0
      ensures ok ==> Valid() && fresh(repr) && fresh(table) && model == NewTable(initialSize, initialSize, false)
    {
      if initialSize == 0 {
        return false;
      }
      minSize, ignoreResize := initialSize, false;
      Allocate(initialSize);
      return true;
    }

    /** Follows a chain to its end, or stops at the key. */
    method Scan(idx: nat, key: nat) returns (found: bool, last: Bucket<V>)
      requires Valid() && idx < table.Length && table[idx].data.Some?
      ensures found <==> Has(model.chains[idx], key)
      ensures !found ==> last == spine[idx][|spine[idx]| - 1]
    {
      last := table[idx];
      ghost var nodes := spine[idx];
      ghost var c := model.chains[idx];
      ghost var j := 0;
      assert c != [];
      found := last.key == key;
      while !found && last.next != null
        invariant j < |nodes| && last == nodes[j]
        invariant forall l | 0 <= l < j :: c[l].key != key
        invariant found <==> c[j].key == key
        decreases |nodes| - j
      {
        assert InPlace(nodes, idx, j);
        last := last.next;
        j := j + 1;
        found := last.key == key;
      }
      assert InPlace(nodes, idx, j);
    }

    /** Hangs a new heap bucket on the last one of a chain. */
    method Append(idx: nat, last: Bucket<V>, key: nat, data: V)
      requires Valid() && idx < table.Length && table[idx].data.Some?
      requires last == spine[idx][|spine[idx]| - 1]
      modifies this, last
      ensures Valid() && fresh(repr - old(repr)) && freed == old(freed) && table == old(table)
      ensures model == old(model).(chains := old(model).chains[idx := old(model).chains[idx] + [Entry(key, data)]])
    {
      ghost var nodes := spine[idx];
      ghost var c := model.chains[idx];
      assert forall i | 0 <= i < |spine| && i != idx :: last !in spine[i] by {
        OutsideOthers(idx, |nodes| - 1);
      }
      var node := LinkNew(last, key, data, nodes, idx, c);
      spine := spine[idx := nodes + [node]];
      repr := repr + {node};
      model := model.(chains := model.chains[idx := c + [Entry(key, data)]]);
    }

    /** What the array bucket of a chain shows of it. */
    lemma HeadOf(idx: nat)
      requires Valid() && idx < |spine|
      ensures table[idx].key == HeadKey(model.chains[idx])
      ensures table[idx].data.Some? <==> model.chains[idx] != []
    {
    }

    /** Inserts into one chain unless the key is there or seems to be. */
    method InsertAt(idx: nat, key: nat, data: V) returns (done: bool)
      requires Valid() && idx < table.Length
      modifies this, repr
      ensures Valid() && fresh(repr - old(repr)) && freed == old(freed) && table == old(table)
      ensures var c := old(model).chains[idx];
        if HeadKey(c) == key || Has(c, key) then !done && model == old(model)
        else && done
             && model == old(model).(chains := old(model).chains[idx := c + [Entry(key, data)]],
                                     count := old(model).count + 1)
    {
      HeadOf(idx);
      ghost var c := model.chains[idx];
      if table[idx].key == key {
        return false;
      }
      if table[idx].data.Some? {
        var found, last := Scan(idx, key);
        if found {
          return false;
        }
        Append(idx, last, key, data);
      } else {
        assert c + [Entry(key, data)] == [Entry(key, data)];
        FillEmpty(idx, key, data);
      }
      Increment();
      return true;
    }

    /** Bucket insertion without a look at the load. */
    method InsertRaw(key: nat, data: V) returns (done: bool)
      requires Valid()
      modifies this, repr
      ensures Valid() && fresh(repr - old(repr)) && freed == old(freed) && table == old(table)
      ensures (model, done) == HashTableSpec.InsertRaw(old(model), key, data)
    {
      var idx := key % table.Length;
      done := InsertAt(idx, key, data);
    }

    method Increment()
      requires Valid()
      modifies this`count, this`model
      ensures Valid() && model == old(model).(count := old(model).count + 1)
    {
      count := count + 1;
      model := model.(count := count);
    }

    /** Puts an entry into an array bucket without data. */
    method FillEmpty(idx: nat, key: nat, data: V)
      requires Valid() && idx < table.Length && table[idx].data.None?
      modifies this, table[idx]
      ensures Valid() && repr == old(repr) && freed == old(freed) && table == old(table) && old(model).chains[idx] == []
      ensures model == old(model).(chains := old(model).chains[idx := [Entry(key, data)]])
    {
      ghost var nodes := spine[idx];
      OutsideOthers(idx, 0);
      assert nodes == [table[idx]];
      FillHead(table[idx], key, data, idx);
      model := model.(chains := model.chains[idx := [Entry(key, data)]]);
    }

    method Get(key: nat) returns (data: Option<V>)
      requires Valid()
      ensures data == HashTableSpec.Get(model, key)
    {
      var idx := key % table.Length;
      var bucket: Bucket?<V> := table[idx];
      if bucket.data == None {
        return None;
      }
      ghost var nodes := spine[idx];
      ghost var c := model.chains[idx];
      if bucket.key == key {
        return bucket.data;
      }
      ghost var j := 0;
      while bucket != null && bucket.key != key
        invariant j <= |nodes| && bucket == (if j < |nodes| then nodes[j] else null)
        invariant forall l | 0 <= l < j :: c[l].key != key
        decreases |nodes| - j
      {
        assert InPlace(nodes, idx, j);
        bucket := bucket.next;
        j := j + 1;
      }
      if bucket != null {
        assert c[j].key == key;
        IndexOfIs(c, key, j);
        return bucket.data;
      }
      return None;
    }

    /** A bucket is in no chain but its own. */
    lemma OutsideOthers(idx: nat, j: nat)
      requires Valid() && idx < |spine| && j < |spine[idx]|
      ensures forall i | 0 <= i < |spine| && i != idx :: spine[idx][j] !in spine[i]
    {
      forall i | 0 <= i < |spine| && i != idx
        ensures spine[idx][j] !in spine[i]
      {
        NotInOther(spine[idx], idx, j, spine[i], i);
      }
    }

    /** What a change to the buckets of chain `idx` has to leave behind. */
    ghost predicate Replaced(idx: nat, nodes: seq<Bucket<V>>, c: Chain<V>, gone: set<Bucket<V>>)
      reads this, table, repr, nodes
    {
      && |spine| == table.Length == |model.chains| > 0 && minSize > 0 && idx < |spine|
      && model.count == count && model.minSize == minSize && model.ignoreResize == ignoreResize
      && repr !! freed
      && (forall i | 0 <= i < |spine| && i != idx :: (forall n | n in spine[i] :: n in repr && n !in gone))
      && (forall n | n in nodes :: n in repr && n !in gone)
      && (forall i | 0 <= i < |spine| && i != idx :: Holds(spine[i], i, model.chains[i]))
      && Holds(nodes, idx, c)
      && (forall i | 0 <= i < |spine| && i != idx :: spine[i][0] == table[i])
      && nodes[0] == table[idx]
    }

    /** Deletes the array bucket of a chain. */
    method DelFirst(idx: nat)
      requires Valid() && idx < table.Length
      modifies this, repr
      ensures Valid() && repr <= old(repr) && table == old(table)
      ensures var c := old(model).chains[idx];
        model == old(model).(chains := old(model).chains[idx := if c == [] then [] else c[1..]])
    {
      ghost var nodes := spine[idx];
      ghost var c := model.chains[idx];
      assert InPlace(nodes, idx, 0);
      DistinctBuckets(nodes, idx, c);
      OutsideOthers(idx, 0);
      if |nodes| > 1 {
        OutsideOthers(idx, 1);
      }
      ghost var rest, c' := WithoutHead(nodes), if c == [] then [] else c[1..];
      ghost var gone := DelHead(table[idx], nodes, idx, c);
      assert Replaced(idx, rest, c', gone);
      Settle(idx, rest, c', gone);
    }

    /** Deletes a later bucket of a chain; the buckets behind it are lost with it. */
    method DelLater(idx: nat, prev: Bucket<V>, bucket: Bucket<V>, ghost p: nat)
      requires Valid() && idx < table.Length && 0 < p < |spine[idx]|
      requires prev == spine[idx][p - 1] && bucket == spine[idx][p]
      modifies this, repr
      ensures Valid() && repr <= old(repr) && table == old(table)
      ensures p < |old(model).chains[idx]|
      ensures model == old(model).(chains := old(model).chains[idx := old(model).chains[idx][..p]])
    {
      ghost var nodes := spine[idx];
      ghost var c := model.chains[idx];
      assert InPlace(nodes, idx, p);
      DistinctBuckets(nodes, idx, c);
      OutsideOthers(idx, p - 1);
      OutsideOthers(idx, p);
      if p + 1 < |nodes| {
        OutsideOthers(idx, p + 1);
      }
      ghost var gone := CutAndDel(prev, bucket, nodes, idx, c, p);
      assert Replaced(idx, nodes[..p], c[..p], gone);
      Settle(idx, nodes[..p], c[..p], gone);
    }

    /** Deletes from one chain: the first bucket, or a later one with all that follows it. */
    method DelAt(idx: nat, key: nat) returns (hit: bool)
      requires Valid() && idx < table.Length
      modifies this, repr
      ensures Valid() && repr <= old(repr) && table == old(table)
      ensures var c := old(model).chains[idx];
        if c == [] && key == 0 then hit && model == old(model)
        else if Has(c, key) then
          hit && model == old(model).(chains := old(model).chains[idx := Without(c, IndexOf(c, key))])
        else !hit && model == old(model)
    {
      HeadOf(idx);
      ghost var c := model.chains[idx];
      if table[idx].key == key {
        if c != [] {
          IndexOfIs(c, key, 0);
        }
        DelFirst(idx);
        assert c == [] ==> model.chains == old(model).chains;
        return true;
      }
      var prev, later := FindLater(idx, key);
      if later == null {
        return false;
      }
      DelLater(idx, prev, later, IndexOf(c, key));
      return true;
    }

    /** Looks for a key behind the array bucket of its chain, remembering the bucket before. */
    method FindLater(idx: nat, key: nat) returns (prev: Bucket<V>, later: Bucket?<V>)
      requires Valid() && idx < table.Length && table[idx].key != key
      ensures var c := model.chains[idx]; var p := IndexOf(c, key);
        if later == null then !Has(c, key)
        else Has(c, key) && 0 < p < |spine[idx]| && prev == spine[idx][p - 1] && later == spine[idx][p]
    {
      ghost var nodes := spine[idx];
      ghost var c := model.chains[idx];
      ghost var j := 0;
      prev := table[idx];
      later := prev;
      while later.next != null
        invariant j < |nodes| && later == nodes[j] && prev == nodes[j]
        invariant forall l | 0 <= l <= j && l < |c| :: c[l].key != key
        decreases |nodes| - j
      {
        NodeOf(nodes, idx, c, j);
        later := later.next;
        j := j + 1;
        if later.key == key {
          IndexOfIs(c, key, j);
          return;
        }
        prev := later;
      }
      NodeOf(nodes, idx, c, j);
      later := null;
    }

    /** Bucket deletion without a look at the load. */
    method DelRaw(key: nat) returns (hit: bool)
      requires Valid()
      modifies this, repr
      ensures Valid() && repr <= old(repr) && table == old(table)
      ensures (model, hit) == HashTableSpec.DelRaw(old(model), key)
    {
      var idx := key % table.Length;
      hit := DelAt(idx, key);
      if hit {
        Decrement();
      }
    }

    /** Records an array of zeroed buckets. */
    ghost method StartEmpty(nodes: seq<Bucket<V>>)
      requires |nodes| == table.Length > 0 && minSize > 0 && count == 0 && forall n | n in nodes :: n !in freed
      requires forall i | 0 <= i < |nodes| :: table[i] == nodes[i] && Holds([nodes[i]], i, [])
      modifies this`spine, this`repr, this`model
      ensures Valid() && model == NewTable(table.Length, minSize, ignoreResize) && repr == set n | n in nodes
    {
      spine, repr := seq(|nodes|, i requires 0 <= i < |nodes| => [nodes[i]]), set n | n in nodes;
      model := NewTable(table.Length, minSize, ignoreResize);
    }

    /** Replaces the array by a zeroed one. */
    method Allocate(size: nat)
      requires size > 0 && minSize > 0
      modifies this`table, this`count, this`spine, this`repr, this`model
      ensures Valid() && fresh(table) && fresh(repr)
      ensures model == NewTable(size, minSize, ignoreResize)
    {
      ghost var nodes: seq<Bucket<V>>;
      table, nodes := ZeroedBuckets(size);
      count := 0;
      StartEmpty(nodes);
    }

    /** One entry less; the counter wraps below zero. */
    method Decrement()
      requires Valid()
      modifies this`count, this`model
      ensures Valid()
      ensures model == old(model).(count := if old(model).count == 0 then SIZE_MAX else old(model).count - 1)
    {
      count := if count == 0 then SIZE_MAX else count - 1;
      model := model.(count := count);
    }

    /** Records the new buckets and entries of a chain and the buckets that were freed. */
    ghost method Settle(idx: nat, nodes: seq<Bucket<V>>, c: Chain<V>, gone: set<Bucket<V>>)
      requires Replaced(idx, nodes, c, gone)
      modifies this`spine, this`repr, this`freed, this`model
      ensures Valid() && repr == old(repr) - gone && freed == old(freed) + gone
      ensures model == old(model).(chains := old(model).chains[idx := c])
      ensures spine == old(spine)[idx := nodes]
    {
      freed := freed + gone;
      repr := repr - gone;
      spine := spine[idx := nodes];
      model := model.(chains := model.chains[idx := c]);
    }

    /** Where the move of an old chain stands: `j` of its buckets are done and `bucket` is the next. */
    ghost predicate Moving(nodes: seq<Bucket<V>>, row: nat, c: Chain<V>, pool: set<Bucket<V>>, start: Table<V>,
                           j: nat, bucket: Bucket?<V>)
      reads this, table, repr, nodes
    {
      && Valid() && Holds(nodes, row, c)
      && pool !! repr && (forall n | n in nodes :: n in pool)
      && start.chains != [] && model == Replay(start, c, j)
      && j <= |nodes| && bucket == (if j < |nodes| then nodes[j] else null)
    }

    /** Inserts the entry of an old bucket, if it has one, and frees the bucket if it is on the heap. */
    method InsertOld(bucket: Bucket<V>)
      requires Valid() && bucket !in repr
      modifies this, repr
      ensures Valid() && fresh(repr - old(repr)) && table == old(table)
      ensures freed == old(freed) + if bucket.inheap then {bucket} else {}
      ensures model ==
        if bucket.data.None? then old(model)
        else HashTableSpec.InsertRaw(old(model), bucket.key, bucket.data.value).0
    {
      if bucket.data.Some? {
        var _ := InsertRaw(bucket.key, bucket.data.value);
      }
      if bucket.inheap {
        freed := freed + {bucket};
      }
    }

    /** One bucket of the move of a chain. */
    method ReinsertOne(bucket: Bucket<V>, ghost nodes: seq<Bucket<V>>, ghost row: nat, ghost c: Chain<V>,
                       ghost pool: set<Bucket<V>>, ghost start: Table<V>, ghost j: nat)
      returns (next: Bucket?<V>)
      requires Moving(nodes, row, c, pool, start, j, bucket)
      modifies this, repr
      ensures Moving(nodes, row, c, pool, start, j + 1, next)
      ensures j < |nodes| && fresh(repr - old(repr)) && table == old(table)
      ensures freed == old(freed) + if j > 0 then {nodes[j]} else {}
    {
      NodeOf(nodes, row, c, j);
      assert InPlace(nodes, row, j);
      next := bucket.next;
      InsertOld(bucket);
    }

    /** Inserts the entries of an old chain into the new array and frees its heap buckets. */
    method Reinsert(head: Bucket<V>, ghost nodes: seq<Bucket<V>>, ghost row: nat, ghost c: Chain<V>,
                    ghost pool: set<Bucket<V>>)
      requires Valid() && Holds(nodes, row, c) && head == nodes[0]
      requires pool !! repr && forall n | n in nodes :: n in pool
      modifies this, repr
      ensures Valid() && pool !! repr && fresh(repr - old(repr)) && table == old(table)
      ensures model == Replay(old(model), c, |nodes|)
      ensures freed == old(freed) + HeapOf(nodes, |nodes|)
    {
      var bucket: Bucket?<V> := head;
      ghost var j, start := 0, model;
      while bucket != null
        invariant Moving(nodes, row, c, pool, start, j, bucket)
        invariant fresh(repr - old(repr)) && table == old(table) && freed == old(freed) + HeapOf(nodes, j)
        decreases |nodes| - j
      {
        HeapOfNext(nodes, j);
        bucket := ReinsertOne(bucket, nodes, row, c, pool, start, j);
        j := j + 1;
      }
    }

    /** Moves all old chains into the new array. */
    method ReinsertAll(oldTable: array<Bucket<V>>, ghost nodes: seq<seq<Bucket<V>>>, ghost chains: seq<Chain<V>>,
                       ghost pool: set<Bucket<V>>)
      requires Valid() && |nodes| == |chains| == oldTable.Length && oldTable != table
      requires pool !! repr && forall k | 0 <= k < |nodes| :: (forall n | n in nodes[k] :: n in pool)
      requires forall k | 0 <= k < |nodes| :: Holds(nodes[k], k, chains[k]) && nodes[k][0] == oldTable[k]
      modifies this, repr
      ensures Valid() && fresh(repr - old(repr)) && table == old(table)
      ensures model == Rehash(old(model), Flatten(chains))
      ensures freed == old(freed) + HeapBuckets(nodes)
    {
      for i := 0 to oldTable.Length
        invariant Valid() && fresh(repr - old(repr)) && table == old(table)
        invariant pool !! repr && forall k | 0 <= k < |nodes| :: Holds(nodes[k], k, chains[k])
        invariant model == Rehash(old(model), Flatten(chains[..i])) && freed == old(freed) + HeapBuckets(nodes[..i])
        modifies this, repr
      {
        NextChain(old(model), chains, i, |nodes[i]|);
        HeapBucketsNext(nodes, i);
        Reinsert(oldTable[i], nodes[i], i, chains[i], pool);
      }
      assert chains[..oldTable.Length] == chains && nodes[..oldTable.Length] == nodes;
    }

    /** Moves every entry to an array of another size and frees the old heap buckets. */
    method Resize(newSize: nat)
      requires Valid()
      modifies this, repr
      ensures Valid() && fresh(repr - old(repr))
      ensures model == HashTableSpec.Resize(old(model), newSize)
      ensures table == old(table) <==> Clamp(newSize, old(minSize)) == old(table.Length) || old(ignoreResize)
      ensures freed == old(freed) + if table == old(table) then {} else HeapBuckets(old(spine))
      ensures table != old(table) ==>
        forall i, k | 0 <= i < |old(spine)| && 0 < k < |old(spine)[i]| :: old(spine)[i][k] in freed
    {
      var size := if newSize < minSize then minSize else newSize;
      if size == table.Length || ignoreResize {
        return;
      }
      var oldTable := table;
      ghost var oldSpine, oldChains, oldRepr := spine, model.chains, repr;
      Allocate(size);
      ReinsertAll(oldTable, oldSpine, oldChains, oldRepr);
    }

    /** Frees the heap buckets of a chain. */
    method FreeChain(head: Bucket<V>, ghost nodes: seq<Bucket<V>>, ghost row: nat, ghost c: Chain<V>)
      requires Holds(nodes, row, c) && head == nodes[0]
      modifies this`freed
      ensures freed >= old(freed) && forall j | 0 < j < |nodes| :: nodes[j] in freed
      ensures |nodes| == 1 ==> freed == old(freed)
    {
      var bucket: Bucket?<V> := head;
      ghost var j := 0;
      while bucket != null && bucket.data.Some?
        invariant j <= |nodes| && bucket == (if j < |nodes| then nodes[j] else null)
        invariant freed >= old(freed) && forall k | 0 < k < j :: nodes[k] in freed
        invariant |nodes| == 1 ==> freed == old(freed)
        decreases |nodes| - j
      {
        NodeOf(nodes, row, c, j);
        assert InPlace(nodes, row, j);
        var next := bucket.next;
        if bucket.inheap {
          freed := freed + {bucket};
        }
        bucket := next;
        j := j + 1;
      }
    }

    /** Frees the heap buckets and forgets the count; the array keeps its buckets and their links. */
    method Clear()
      requires Valid()
      modifies this`count, this`freed, this`model
      ensures count == 0 && model == HashTableSpec.Clear(old(model))
      ensures forall i, j | 0 <= i < |spine| && 0 < j < |spine[i]| :: spine[i][j] in freed
      ensures Valid() <==> forall i | 0 <= i < |spine| :: |spine[i]| == 1
    {
      ghost var before := freed;
      for i := 0 to table.Length
        invariant freed >= before
        invariant forall k, j | 0 <= k < i && 0 < j < |spine[k]| :: spine[k][j] in freed
        invariant (forall k | 0 <= k < i :: |spine[k]| == 1) ==> freed == before
        modifies this`freed
      {
        FreeChain(table[i], spine[i], i, model.chains[i]);
      }
      count := 0;
      model := HashTableSpec.Clear(model);
      if i :| 0 <= i < |spine| && |spine[i]| != 1 {
        assert spine[i][1] in freed;
      } else {
        assert forall i | 0 <= i < |spine| :: model.chains[i] == old(model).chains[i];
      }
    }

    method CheckLoad()
      requires Valid()
      modifies this, repr
      ensures Valid() && fresh(repr - old(repr))
      ensures model == HashTableSpec.CheckLoad(old(model))
      ensures freed == old(freed) + if table == old(table) then {} else HeapBuckets(old(spine))
      ensures table != old(table) ==>
        forall i, k | 0 <= i < |old(spine)| && 0 < k < |old(spine)[i]| :: old(spine)[i][k] in freed
      ensures old(table.Length) >= old(model).minSize ==>
        table.Length ==
        if old(model).ignoreResize then old(table.Length)
        else if 10 * old(count) > 7 * old(table.Length) then 2 * old(table.Length)
        else if 10 * old(count) >= 2 * old(table.Length) then old(table.Length)
        else if old(table.Length) / 2 >= old(model).minSize then old(table.Length) / 2
        else old(model).minSize
    {
      if 10 * count > 7 * table.Length {
        Resize(table.Length * 2);
      } else if 10 * count < 2 * table.Length {
        Resize(table.Length / 2);
      }
    }

    /** Inserts an entry unless its data is null or its key is there. */
    method Insert(key: nat, data: Option<V>) returns (done: bool)
      requires Valid()
      modifies this, repr
      ensures Valid() && fresh(repr - old(repr))
      ensures data == None ==> !done && model == old(model)
      ensures data.Some? ==> (model, done) == HashTableSpec.Insert(old(model), key, data.value)
    {
      if data == None {
        return false;
      }
      done := InsertRaw(key, data.value);
      if done {
        CheckLoad();
      }
    }

    method Del(key: nat) returns (hit: bool)
      requires Valid()
      modifies this, repr
      ensures Valid() && fresh(repr - old(repr))
      ensures (model, hit) == HashTableSpec.Del(old(model), key)
    {
      hit := DelRaw(key);
      if hit {
        CheckLoad();
      }
    }
  }

  /** Insertion of the first `j` entries of a chain, one after the other. */
  function Replay<V>(t: Table<V>, c: Chain<V>, j: nat): (t': Table<V>)
    requires t.chains != []
    ensures t'.chains != []
  {
    if j == 0 then t
    else
      var before := Replay(t, c, j - 1);
      if j <= |c| then HashTableSpec.InsertRaw(before, c[j - 1].key, c[j - 1].data).0 else before
  }

  lemma {:induction false} ReplayIsRehash<V>(t: Table<V>, c: Chain<V>, j: nat)
    requires t.chains != []
    ensures Replay(t, c, j) == Rehash(t, if j <= |c| then c[..j] else c)
  {
    if j > 0 {
      ReplayIsRehash(t, c, j - 1);
      if j <= |c| {
        RehashSnoc(t, c[..j - 1], c[j - 1]);
        assert c[..j] == c[..j - 1] + [c[j - 1]];
      } else {
        assert c[..|c|] == c;
      }
    }
  }

  lemma NodeOf<V>(nodes: seq<Bucket<V>>, row: nat, c: Chain<V>, j: nat)
    requires Holds(nodes, row, c) && j < |nodes|
    ensures nodes[j].next == if j + 1 < |nodes| then nodes[j + 1] else null
    ensures if j < |c| then nodes[j].key == c[j].key && nodes[j].data == Some(c[j].data)
            else c == [] && nodes[j].data == None
  {
    assert InPlace(nodes, row, j);
  }

  lemma NextChain<V>(t: Table<V>, chains: seq<Chain<V>>, i: nat, n: nat)
    requires t.chains != [] && i < |chains| && |chains[i]| <= n
    ensures Rehash(t, Flatten(chains[..i + 1])) == Replay(Rehash(t, Flatten(chains[..i])), chains[i], n)
  {
    ReplayIsRehash(Rehash(t, Flatten(chains[..i])), chains[i], n);
    assert chains[i][..|chains[i]|] == chains[i];
    assert chains[..i + 1] == chains[..i] + [chains[i]];
    FlattenSnoc(chains[..i], chains[i]);
    RehashAppend(t, Flatten(chains[..i]), chains[i]);
  }

  lemma RehashSnoc<V>(t: Table<V>, es: Chain<V>, e: Entry<V>)
    requires t.chains != []
    ensures Rehash(t, es + [e]) == HashTableSpec.InsertRaw(Rehash(t, es), e.key, e.data).0
  {
    RehashAppend(t, es, [e]);
    assert [e][1..] == [];
  }

  lemma {:induction false} RehashAppend<V>(t: Table<V>, a: Chain<V>, b: Chain<V>)
    requires t.chains != []
    ensures Rehash(t, a + b) == Rehash(Rehash(t, a), b)
    decreases a
  {
    if a == [] {
      assert a + b == b;
    } else {
      assert (a + b)[0] == a[0] && (a + b)[1..] == a[1..] + b;
      RehashAppend(HashTableSpec.InsertRaw(t, a[0].key, a[0].data).0, a[1..], b);
    }
  }

  lemma {:induction false} IndexOfIs<V>(c: Chain<V>, key: nat, p: nat)
    requires p < |c| && c[p].key == key && forall j | 0 <= j < p :: c[j].key != key
    ensures IndexOf(c, key) == p
  {
    if p > 0 {
      IndexOfIs(c[1..], key, p - 1);
    }
  }
}
