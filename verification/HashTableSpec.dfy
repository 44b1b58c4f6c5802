/** The generic hash table on values: what each operation does to the chains, and when that is what a finite
    map would do. */
module HashTableSpec {
  import opened Sequences

  datatype Entry<V> = Entry(key: nat, data: V)

  type Chain<V> = seq<Entry<V>>

  /** An array bucket without data is the empty chain; its zeroed key still reads 0. */
  datatype Table<V> = Table(chains: seq<Chain<V>>, count: nat, minSize: nat, ignoreResize: bool)

  const SIZE_MAX: nat := 0xFFFF_FFFF_FFFF_FFFF

  function HeadKey<V>(c: Chain<V>): nat {
    if c == [] then 0 else c[0].key
  }

  /** The position of a key in a chain, or the chain's length. */
  function IndexOf<V>(c: Chain<V>, key: nat): (p: nat)
    ensures p <= |c|
    ensures p < |c| ==> c[p].key == key
    ensures forall j | 0 <= j < p :: c[j].key != key
  {
    if c == [] || c[0].key == key then 0 else 1 + IndexOf(c[1..], key)
  }

  predicate Has<V>(c: Chain<V>, key: nat) {
    IndexOf(c, key) < |c|
  }

  // ---- The operations ----

  function NewTable<V>(size: nat, minSize: nat, ignoreResize: bool): Table<V> {
    Table(seq(size, _ => []), 0, minSize, ignoreResize)
  }

  /** Bucket insertion without a look at the load. An empty array bucket passes for one with key 0. */
  function InsertRaw<V>(t: Table<V>, key: nat, data: V): (r: (Table<V>, bool))
    requires t.chains != []
    ensures |r.0.chains| == |t.chains|
  {
    var i := key % |t.chains|;
    var c := t.chains[i];
    if HeadKey(c) == key || Has(c, key) then (t, false)
    else (t.(chains := t.chains[i := c + [Entry(key, data)]], count := t.count + 1), true)
  }

  function Rehash<V>(t: Table<V>, es: Chain<V>): (t': Table<V>)
    requires t.chains != []
    ensures |t'.chains| == |t.chains|
    decreases es
  {
    if es == [] then t else Rehash(InsertRaw(t, es[0].key, es[0].data).0, es[1..])
  }

  function Clamp(size: nat, minSize: nat): nat {
    if size < minSize then minSize else size
  }

  function Resize<V>(t: Table<V>, newSize: nat): (t': Table<V>)
    requires t.chains != [] && t.minSize > 0
    ensures t'.chains != [] && t'.minSize == t.minSize && t'.ignoreResize == t.ignoreResize
  {
    var size := Clamp(newSize, t.minSize);
    if size == |t.chains| || t.ignoreResize then t
    else RehashKeepsSettings(NewTable<V>(size, t.minSize, t.ignoreResize), Flatten(t.chains));
         Rehash(NewTable(size, t.minSize, t.ignoreResize), Flatten(t.chains))
  }

  lemma {:induction false} RehashKeepsSettings<V>(t: Table<V>, es: Chain<V>)
    requires t.chains != []
    ensures Rehash(t, es).minSize == t.minSize && Rehash(t, es).ignoreResize == t.ignoreResize
    decreases es
  {
    if es != [] {
      RehashKeepsSettings(InsertRaw(t, es[0].key, es[0].data).0, es[1..]);
    }
  }

  /** Load above 0.7. */
  predicate Overloaded(count: nat, size: nat) {
    10 * count > 7 * size
  }

  /** Load below 0.2. */
  predicate Underloaded(count: nat, size: nat) {
    10 * count < 2 * size
  }

  function CheckLoad<V>(t: Table<V>): (t': Table<V>)
    requires t.chains != [] && t.minSize > 0
    ensures t'.chains != [] && t'.minSize == t.minSize && t'.ignoreResize == t.ignoreResize
  {
    if Overloaded(t.count, |t.chains|) then Resize(t, |t.chains| * 2)
    else if Underloaded(t.count, |t.chains|) then Resize(t, |t.chains| / 2)
    else t
  }

  function Insert<V>(t: Table<V>, key: nat, data: V): (r: (Table<V>, bool))
    requires t.chains != [] && t.minSize > 0
    ensures r.0.chains != [] && r.0.minSize == t.minSize && r.0.ignoreResize == t.ignoreResize
  {
    var r := InsertRaw(t, key, data);
    if r.1 then (CheckLoad(r.0), true) else r
  }

  function Get<V>(t: Table<V>, key: nat): Option<V>
    requires t.chains != []
  {
    var c := t.chains[key % |t.chains|];
    if Has(c, key) then Some(c[IndexOf(c, key)].data) else None
  }

  /** What deletion leaves of a chain: the first bucket is overwritten by its successor, but a later bucket is
      cut off together with everything behind it. */
  function Without<V>(c: Chain<V>, p: nat): Chain<V>
    requires p < |c|
  {
    if p == 0 then c[1..] else c[..p]
  }

  /** Bucket deletion without a look at the load; the second component says whether a bucket was hit. */
  function DelRaw<V>(t: Table<V>, key: nat): (r: (Table<V>, bool))
    requires t.chains != []
    ensures |r.0.chains| == |t.chains| && r.0.minSize == t.minSize && r.0.ignoreResize == t.ignoreResize
  {
    var i := key % |t.chains|;
    var c := t.chains[i];
    var count := if t.count == 0 then SIZE_MAX else t.count - 1;
    if c == [] && key == 0 then (t.(count := count), true)
    else if Has(c, key) then (t.(chains := t.chains[i := Without(c, IndexOf(c, key))], count := count), true)
    else (t, false)
  }

  function Del<V>(t: Table<V>, key: nat): (r: (Table<V>, bool))
    requires t.chains != [] && t.minSize > 0
    ensures r.0.chains != [] && r.0.minSize == t.minSize && r.0.ignoreResize == t.ignoreResize
  {
    var r := DelRaw(t, key);
    if r.1 then (CheckLoad(r.0), true) else r
  }

  /** Clearing forgets the count but leaves the array buckets as they are; the buckets on the heap are gone. */
  function Clear<V>(t: Table<V>): Table<V> {
    t.(chains := seq(|t.chains|, i requires 0 <= i < |t.chains| => if t.chains[i] == [] then [] else t.chains[i][..1]),
       count := 0)
  }

  // ---- The finite map a table stands for ----

  ghost function Keys<V>(t: Table<V>): set<nat> {
    set i, j | 0 <= i < |t.chains| && 0 <= j < |t.chains[i]| :: t.chains[i][j].key
  }

  /** Every key sits in its own chain, once. */
  ghost predicate Placed<V>(t: Table<V>) {
    && t.chains != []
    && (forall i, j | 0 <= i < |t.chains| && 0 <= j < |t.chains[i]| :: t.chains[i][j].key % |t.chains| == i)
    && (forall i, j, k | 0 <= i < |t.chains| && 0 <= j < k < |t.chains[i]| :: t.chains[i][j].key != t.chains[i][k].key)
  }

  /** The map of a list of entries; of two with the same key the first counts. */
  function MapOf<V>(es: Chain<V>): map<nat, V> {
    if es == [] then map[] else MapOf(es[1..])[es[0].key := es[0].data]
  }

  /** The map that the entries of all chains make up. */
  function Contents<V>(t: Table<V>): map<nat, V> {
    MapOf(Flatten(t.chains))
  }

  /** A sound table: keys are in place and the count is the number of entries. */
  ghost predicate Sound<V>(t: Table<V>) {
    && Placed(t) && t.minSize > 0
    && t.count == |Keys(t)|
  }

  // ---- Looking up ----

  function Lookup<V>(c: Chain<V>, key: nat): Option<V> {
    if Has(c, key) then Some(c[IndexOf(c, key)].data) else None
  }

  lemma {:induction false} MapOfLookup<V>(es: Chain<V>, k: nat)
    ensures Lookup(es, k) == if k in MapOf(es) then Some(MapOf(es)[k]) else None
  {
    if es != [] {
      MapOfLookup(es[1..], k);
    }
  }

  lemma {:induction false} LookupAppend<V>(a: Chain<V>, b: Chain<V>, k: nat)
    ensures Lookup(a + b, k) == if Lookup(a, k).Some? then Lookup(a, k) else Lookup(b, k)
  {
    if a == [] {
      assert a + b == b;
    } else {
      assert (a + b)[0] == a[0] && (a + b)[1..] == a[1..] + b;
      LookupAppend(a[1..], b, k);
    }
  }

  /** Among all chains, a key is found in the one chain that can have it. */
  lemma {:induction false} LookupFlatten<V>(cs: seq<Chain<V>>, k: nat, i: nat)
    requires i < |cs| && forall j | 0 <= j < |cs| && j != i :: !Has(cs[j], k)
    ensures Lookup(Flatten(cs), k) == Lookup(cs[i], k)
  {
    LookupAppend(cs[0], Flatten(cs[1..]), k);
    if i > 0 {
      LookupFlatten(cs[1..], k, i - 1);
    } else {
      NotInFlatten(cs[1..], k);
    }
  }

  lemma {:induction false} NotInFlatten<V>(cs: seq<Chain<V>>, k: nat)
    requires forall j | 0 <= j < |cs| :: !Has(cs[j], k)
    ensures !Has(Flatten(cs), k)
  {
    if cs != [] {
      LookupAppend(cs[0], Flatten(cs[1..]), k);
      NotInFlatten(cs[1..], k);
    }
  }

  /** The walk along one chain finds what a search of all chains would. */
  lemma GetFlatten<V>(t: Table<V>, k: nat)
    requires Placed(t)
    ensures Get(t, k) == Lookup(Flatten(t.chains), k)
  {
    var i := k % |t.chains|;
    forall j | 0 <= j < |t.chains| && j != i
      ensures !Has(t.chains[j], k)
    {
      assert forall q | 0 <= q < |t.chains[j]| :: t.chains[j][q].key % |t.chains| == j;
    }
    LookupFlatten(t.chains, k, i);
  }

  lemma KeyPlace<V>(t: Table<V>, k: nat)
    requires Placed(t)
    ensures k in Keys(t) <==> Has(t.chains[k % |t.chains|], k)
    ensures k in Contents(t) <==> Get(t, k).Some?
    ensures k in Contents(t) ==> Contents(t)[k] == Get(t, k).value
  {
    HasInKeys(t, k);
    GetFlatten(t, k);
    MapOfLookup(Flatten(t.chains), k);
  }

  lemma HasInKeys<V>(t: Table<V>, k: nat)
    requires Placed(t)
    ensures k in Keys(t) <==> Has(t.chains[k % |t.chains|], k)
  {
    var c := t.chains[k % |t.chains|];
    if Has(c, k) {
      assert c[IndexOf(c, k)].key in Keys(t);
    }
    if k in Keys(t) {
      var i, j :| 0 <= i < |t.chains| && 0 <= j < |t.chains[i]| && t.chains[i][j].key == k;
      assert t.chains[i][j].key % |t.chains| == i;
    }
  }

  /** The map has the keys of the chains. */
  lemma KeysOfContents<V>(t: Table<V>)
    requires Placed(t)
    ensures Contents(t).Keys == Keys(t) && |Contents(t)| == |Keys(t)|
  {
    forall k: nat
      ensures k in Contents(t) <==> k in Keys(t)
    {
      KeyPlace(t, k);
    }
    assert Contents(t).Keys == Keys(t);
  }

  /** Looking up is looking up in the map. */
  lemma GetIsLookup<V>(t: Table<V>, key: nat)
    requires Placed(t)
    ensures Get(t, key) == if key in Contents(t) then Some(Contents(t)[key]) else None
  {
    KeyPlace(t, key);
  }

  lemma SameMap<V>(a: Table<V>, m: map<nat, V>)
    requires Placed(a) && forall k: nat :: Get(a, k) == if k in m then Some(m[k]) else None
    ensures Contents(a) == m
  {
    forall k: nat
      ensures k in Contents(a) <==> k in m
      ensures k in m ==> Contents(a)[k] == m[k]
    {
      KeyPlace(a, k);
    }
  }
}
