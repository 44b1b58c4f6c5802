/** The table refines a finite map, and exactly where it does not. */
module HashTableRefinement {
  import opened Sequences
  import opened HashTableSpec

  ghost predicate ActsAsInsert<V>(t: Table<V>, key: nat, data: V, r: (Table<V>, bool))
    requires Placed(t)
  {
    && Sound(r.0)
    && (r.1 <==> key !in Contents(t))
    && Contents(r.0) == if r.1 then Contents(t)[key := data] else Contents(t)
  }

  ghost predicate ActsAsDelete<V>(t: Table<V>, key: nat, r: (Table<V>, bool))
    requires Placed(t)
  {
    && Sound(r.0)
    && (r.1 <==> key in Contents(t))
    && Contents(r.0) == Contents(t) - {key}
  }

  /** Key 0 on an empty array bucket is mistaken for a key that is there already. */
  predicate InsertFits<V>(t: Table<V>, key: nat)
    requires t.chains != []
  {
    key != 0 || t.chains[0] != []
  }

  /** A key that is in its chain must be its first or its last bucket, and key 0 needs a bucket. */
  predicate DelFits<V>(t: Table<V>, key: nat)
    requires t.chains != []
  {
    var c := t.chains[key % |t.chains|];
    && (key == 0 ==> c != [])
    && (Has(c, key) ==> IndexOf(c, key) == 0 || IndexOf(c, key) == |c| - 1)
  }

  lemma ZeroChain(size: nat)
    requires size > 0
    ensures 0 % size == 0
  {
  }

  lemma {:induction false} IndexOfAppend<V>(c: Chain<V>, e: Entry<V>, key: nat)
    requires !Has(c, e.key)
    ensures IndexOf(c + [e], key) == if key == e.key then |c| else if Has(c, key) then IndexOf(c, key) else |c| + 1
  {
    if c == [] {
      assert (c + [e])[1..] == [];
    } else {
      assert (c + [e])[0] == c[0] && (c + [e])[1..] == c[1..] + [e];
      if c[0].key != key {
        IndexOfAppend(c[1..], e, key);
      }
    }
  }

  predicate NoDup<V>(c: Chain<V>) {
    forall j, k | 0 <= j < k < |c| :: c[j].key != c[k].key
  }

  lemma {:induction false} IndexOfUnique<V>(c: Chain<V>, p: nat)
    requires NoDup(c) && p < |c|
    ensures IndexOf(c, c[p].key) == p
  {
    if p > 0 {
      assert c[0].key != c[p].key && c[1..][p - 1] == c[p];
      IndexOfUnique(c[1..], p - 1);
    }
  }

  lemma IndexOfWithout<V>(c: Chain<V>, p: nat, key: nat)
    requires NoDup(c) && p < |c| && (p == 0 || p == |c| - 1)
    ensures Has(Without(c, p), key) <==> Has(c, key) && key != c[p].key
    ensures Has(Without(c, p), key) ==> Without(c, p)[IndexOf(Without(c, p), key)] == c[IndexOf(c, key)]
  {
    var w := Without(c, p);
    if Has(w, key) {
      var q := IndexOf(w, key);
      IndexOfUnique(c, if p == 0 then q + 1 else q);
    }
    if Has(c, key) && key != c[p].key {
      var q := IndexOf(c, key);
      IndexOfUnique(w, if p == 0 then q - 1 else q);
    }
  }

  // ---- Insertion ----

  lemma InsertRawPlaced<V>(t: Table<V>, key: nat, data: V)
    requires Placed(t)
    ensures Placed(InsertRaw(t, key, data).0)
  {
    var i := key % |t.chains|;
    var c := t.chains[i];
    var t' := InsertRaw(t, key, data).0;
    if !Has(c, key) {
      forall j | 0 <= j < |c|
        ensures c[j].key != key
      {
      }
    }
  }

  lemma InsertRawGet<V>(t: Table<V>, key: nat, data: V, k: nat)
    requires Placed(t)
    ensures var r := InsertRaw(t, key, data);
      Get(r.0, k) == if r.1 && k == key then Some(data) else Get(t, k)
  {
    var r := InsertRaw(t, key, data);
    var c := t.chains[key % |t.chains|];
    if r.1 && k % |t.chains| == key % |t.chains| {
      IndexOfAppend(c, Entry(key, data), k);
    }
  }

  lemma InsertRawMap<V>(t: Table<V>, key: nat, data: V)
    requires Placed(t)
    ensures var r := InsertRaw(t, key, data);
      Placed(r.0) && Contents(r.0) == if r.1 then Contents(t)[key := data] else Contents(t)
  {
    var r := InsertRaw(t, key, data);
    InsertRawPlaced(t, key, data);
    var m := if r.1 then Contents(t)[key := data] else Contents(t);
    forall k: nat
      ensures Get(r.0, k) == if k in m then Some(m[k]) else None
    {
      InsertRawGet(t, key, data, k);
      KeyPlace(t, k);
    }
    SameMap(r.0, m);
  }

  lemma InsertRawFits<V>(t: Table<V>, key: nat, data: V)
    requires Sound(t) && InsertFits(t, key)
    ensures ActsAsInsert(t, key, data, InsertRaw(t, key, data))
  {
    KeyPlace(t, key);
    ZeroChain(|t.chains|);
    InsertRawMap(t, key, data);
    KeysOfContents(t);
    KeysOfContents(InsertRaw(t, key, data).0);
  }

  /** Inserting a bucket is inserting into the map, except for key 0 on an empty array bucket. */
  lemma InsertRawIff<V>(t: Table<V>, key: nat, data: V)
    requires Sound(t)
    ensures ActsAsInsert(t, key, data, InsertRaw(t, key, data)) <==> InsertFits(t, key)
  {
    if InsertFits(t, key) {
      InsertRawFits(t, key, data);
    } else {
      KeyPlace(t, key);
      ZeroChain(|t.chains|);
      assert !InsertRaw(t, key, data).1 && key !in Contents(t);
    }
  }

  // ---- Deletion ----

  lemma DelRawPlaced<V>(t: Table<V>, key: nat)
    requires Placed(t)
    ensures Placed(DelRaw(t, key).0)
  {
  }

  lemma DelRawGet<V>(t: Table<V>, key: nat, k: nat)
    requires Placed(t) && DelFits(t, key)
    ensures Get(DelRaw(t, key).0, k) == if k == key then None else Get(t, k)
  {
    var i := key % |t.chains|;
    var c := t.chains[i];
    if Has(c, key) && k % |t.chains| == i {
      IndexOfWithout(c, IndexOf(c, key), k);
    }
  }

  lemma MapMinus<K, V>(m: map<K, V>, k: K)
    ensures |m - {k}| == if k in m then |m| - 1 else |m|
  {
    if k in m {
      assert m.Keys == (m - {k}).Keys + {k};
    } else {
      assert m - {k} == m;
    }
  }

  lemma DelRawFits<V>(t: Table<V>, key: nat)
    requires Sound(t) && DelFits(t, key)
    ensures ActsAsDelete(t, key, DelRaw(t, key))
  {
    var r := DelRaw(t, key);
    KeyPlace(t, key);
    DelRawPlaced(t, key);
    var m := Contents(t) - {key};
    forall k: nat
      ensures Get(r.0, k) == if k in m then Some(m[k]) else None
    {
      KeyPlace(t, k);
      DelRawGet(t, key, k);
    }
    SameMap(r.0, m);
    MapMinus(Contents(t), key);
    KeysOfContents(t);
    KeysOfContents(r.0);
  }

  lemma CutLoses<V>(c: Chain<V>, p: nat)
    requires NoDup(c) && 0 < p < |c| - 1
    ensures c[p].key != c[|c| - 1].key
    ensures Has(c, c[|c| - 1].key) && !Has(c[..p], c[|c| - 1].key)
  {
    var lost := c[|c| - 1].key;
    IndexOfUnique(c, |c| - 1);
    assert forall j | 0 <= j < p :: c[..p][j].key != lost;
  }

  /** The last key of a chain is lost when an earlier heap bucket goes. */
  lemma DelRawLoses<V>(t: Table<V>, key: nat, c: Chain<V>)
    requires Placed(t) && c == t.chains[key % |t.chains|]
    requires Has(c, key) && 0 < IndexOf(c, key) < |c| - 1
    ensures var lost := c[|c| - 1].key;
      lost != key && Get(t, lost).Some? && Get(DelRaw(t, key).0, lost) == None
  {
    var lost := c[|c| - 1].key;
    CutLoses(c, IndexOf(c, key));
    assert lost % |t.chains| == key % |t.chains|;
  }

  /** A key that is lost beside the one that is deleted. */
  lemma LostIsMissed<V>(t: Table<V>, t': Table<V>, key: nat, lost: nat)
    requires Placed(t) && Placed(t') && lost != key && Get(t, lost).Some? && Get(t', lost) == None
    ensures Contents(t') != Contents(t) - {key}
  {
    KeyPlace(t, lost);
    KeyPlace(t', lost);
    assert lost in Contents(t) - {key};
  }

  lemma DelRawDoesNotFit<V>(t: Table<V>, key: nat)
    requires Sound(t) && !DelFits(t, key)
    ensures !ActsAsDelete(t, key, DelRaw(t, key))
  {
    var c := t.chains[key % |t.chains|];
    KeyPlace(t, key);
    if c != [] {
      var lost := c[|c| - 1].key;
      DelRawLoses(t, key, c);
      DelRawPlaced(t, key);
      LostIsMissed(t, DelRaw(t, key).0, key, lost);
    }
  }

  /** Removing the first or the last bucket of a chain is removing from the map; removing a bucket in between
      loses every key behind it. */
  lemma DelRawIff<V>(t: Table<V>, key: nat)
    requires Sound(t)
    ensures ActsAsDelete(t, key, DelRaw(t, key)) <==> DelFits(t, key)
  {
    if DelFits(t, key) {
      DelRawFits(t, key);
    } else {
      DelRawDoesNotFit(t, key);
    }
  }

  // ---- Resizing ----

  lemma NoDupAppend<V>(a: Chain<V>, b: Chain<V>)
    requires NoDup(a) && NoDup(b) && forall e | e in a :: !Has(b, e.key)
    ensures NoDup(a + b)
  {
    var c := a + b;
    forall j, k | 0 <= j < k < |c|
      ensures c[j].key != c[k].key
    {
      if j < |a| && k >= |a| {
        assert c[j] == a[j] && a[j] in a;
        IndexOfUnique(b, k - |a|);
      }
    }
  }

  /** The chains from `base` on, each holding the keys of its own residue, repeat no key. */
  lemma {:induction false} NoDupFlatten<V>(cs: seq<Chain<V>>, size: nat, base: nat)
    requires size > 0
    requires forall i | 0 <= i < |cs| :: NoDup(cs[i])
    requires forall i, j | 0 <= i < |cs| && 0 <= j < |cs[i]| :: cs[i][j].key % size == base + i
    ensures NoDup(Flatten(cs))
    ensures forall e | e in Flatten(cs) :: e.key % size >= base
  {
    if cs != [] {
      var rest: seq<Chain<V>> := cs[1..];
      forall i, j | 0 <= i < |rest| && 0 <= j < |rest[i]|
        ensures rest[i][j].key % size == base + 1 + i
      {
        assert rest[i] == cs[i + 1];
      }
      NoDupFlatten(rest, size, base + 1);
      forall e | e in cs[0]
        ensures !Has(Flatten(rest), e.key)
      {
        var j :| 0 <= j < |cs[0]| && cs[0][j] == e;
        assert cs[0][j].key % size == base;
        if Has(Flatten(rest), e.key) {
          assert Flatten(rest)[IndexOf(Flatten(rest), e.key)] in Flatten(rest);
        }
      }
      NoDupAppend(cs[0], Flatten(rest));
    }
  }

  /** The first entry to reach the array bucket of key 0 is not key 0 itself. */
  predicate ZeroSurvives<V>(es: Chain<V>, size: nat)
    requires size > 0
  {
    es == [] || (es[0].key != 0 && (es[0].key % size == 0 || ZeroSurvives(es[1..], size)))
  }

  predicate RehashFits<V>(t: Table<V>, es: Chain<V>)
    requires t.chains != []
  {
    t.chains[0] != [] || ZeroSurvives(es, |t.chains|)
  }

  lemma RehashStepFits<V>(t: Table<V>, es: Chain<V>)
    requires Sound(t) && es != [] && NoDup(es) && RehashFits(t, es)
    requires forall e | e in es :: e.key !in Contents(t)
    ensures var t1 := InsertRaw(t, es[0].key, es[0].data).0;
      && Sound(t1) && Contents(t1) == Contents(t)[es[0].key := es[0].data]
      && RehashFits(t1, es[1..])
      && forall e | e in es[1..] :: e.key !in Contents(t1)
  {
    assert es[0] in es;
    ZeroChain(|t.chains|);
    InsertRawIff(t, es[0].key, es[0].data);
    forall e | e in es[1..]
      ensures e in es && e.key != es[0].key
    {
      var j :| 0 <= j < |es[1..]| && es[1..][j] == e;
      assert es[j + 1] == e;
    }
  }

  lemma LookupCons<V>(es: Chain<V>, k: nat)
    requires es != []
    ensures Lookup(es, k) == if k == es[0].key then Some(es[0].data) else Lookup(es[1..], k)
  {
  }

  lemma {:induction false} RehashKeeps<V>(t: Table<V>, es: Chain<V>, k: nat)
    requires Sound(t) && NoDup(es) && RehashFits(t, es)
    requires forall e | e in es :: e.key !in Contents(t)
    ensures Sound(Rehash(t, es))
    ensures Get(Rehash(t, es), k) == if Lookup(es, k).Some? then Lookup(es, k) else Get(t, k)
    decreases es
  {
    if es != [] {
      RehashStepFits(t, es);
      var t1 := InsertRaw(t, es[0].key, es[0].data).0;
      RehashKeeps(t1, es[1..], k);
      HeadOnce(es);
      LookupCons(es, k);
      GetIsLookup(t, k);
      GetIsLookup(t1, k);
    }
  }

  lemma HeadOnce<V>(es: Chain<V>)
    requires es != [] && NoDup(es)
    ensures !Has(es[1..], es[0].key)
  {
    assert forall j | 0 <= j < |es[1..]| :: es[1..][j] == es[j + 1];
  }

  /** A key that is in neither the table nor the entries does not appear. */
  lemma {:induction false} RehashAbsent<V>(t: Table<V>, es: Chain<V>, k: nat)
    requires Placed(t) && Get(t, k) == None && !Has(es, k)
    ensures Placed(Rehash(t, es)) && Get(Rehash(t, es), k) == None
    decreases es
  {
    if es != [] {
      InsertRawPlaced(t, es[0].key, es[0].data);
      InsertRawGet(t, es[0].key, es[0].data, k);
      RehashAbsent(InsertRaw(t, es[0].key, es[0].data).0, es[1..], k);
    }
  }

  lemma {:induction false} RehashLosesZero<V>(t: Table<V>, es: Chain<V>)
    requires Placed(t) && NoDup(es) && !RehashFits(t, es)
    ensures Placed(Rehash(t, es)) && Has(es, 0) && Get(Rehash(t, es), 0) == None
    decreases es
  {
    ZeroChain(|t.chains|);
    if es[0].key == 0 {
      assert InsertRaw(t, es[0].key, es[0].data).0 == t;
      forall j | 0 <= j < |es[1..]|
        ensures es[1..][j].key != 0
      {
        assert es[j + 1].key != es[0].key;
      }
      RehashAbsent(t, es[1..], 0);
    } else {
      InsertRawPlaced(t, es[0].key, es[0].data);
      RehashLosesZero(InsertRaw(t, es[0].key, es[0].data).0, es[1..]);
    }
  }

  /** Whether a resize to this size would keep key 0. */
  predicate ResizeFits<V>(t: Table<V>, newSize: nat)
    requires t.chains != [] && t.minSize > 0
  {
    var size := Clamp(newSize, t.minSize);
    size == |t.chains| || t.ignoreResize || ZeroSurvives(Flatten(t.chains), size)
  }

  lemma NewTableSound<V>(size: nat, minSize: nat, ignoreResize: bool)
    requires size > 0 && minSize > 0
    ensures var t := NewTable<V>(size, minSize, ignoreResize);
      Sound(t) && Contents(t) == map[] && forall k: nat :: Get(t, k) == None
  {
    var t := NewTable<V>(size, minSize, ignoreResize);
    forall k: nat
      ensures Get(t, k) == None
    {
    }
    SameMap(t, map[]);
  }

  lemma ResizeKeeps<V>(t: Table<V>, newSize: nat)
    requires Sound(t) && ResizeFits(t, newSize)
    ensures Sound(Resize(t, newSize)) && Contents(Resize(t, newSize)) == Contents(t)
  {
    var size := Clamp(newSize, t.minSize);
    if size != |t.chains| && !t.ignoreResize {
      var es := Flatten(t.chains);
      var blank := NewTable<V>(size, t.minSize, t.ignoreResize);
      NewTableSound<V>(size, t.minSize, t.ignoreResize);
      EntriesOnce(t);
      forall k: nat
        ensures Get(Resize(t, newSize), k) == if k in Contents(t) then Some(Contents(t)[k]) else None
      {
        RehashKeeps(blank, es, k);
        GetFlatten(t, k);
        GetIsLookup(t, k);
      }
      RehashKeeps(blank, es, 0);
      SameMap(Resize(t, newSize), Contents(t));
    }
  }

  /** A resize keeps exactly the same keys and data, unless key 0 is the first to reach its array bucket. */
  lemma ResizeIff<V>(t: Table<V>, newSize: nat)
    requires Sound(t)
    ensures (Sound(Resize(t, newSize)) && Contents(Resize(t, newSize)) == Contents(t)) <==> ResizeFits(t, newSize)
  {
    if ResizeFits(t, newSize) {
      ResizeKeeps(t, newSize);
    } else {
      ResizeLosesZero(t, newSize);
      GetIsLookup(t, 0);
      GetIsLookup(Resize(t, newSize), 0);
    }
  }

  lemma ResizeLosesZero<V>(t: Table<V>, newSize: nat)
    requires Placed(t) && t.minSize > 0 && !ResizeFits(t, newSize)
    ensures Placed(Resize(t, newSize)) && Get(t, 0).Some? && Get(Resize(t, newSize), 0) == None
  {
    var blank := NewTable<V>(Clamp(newSize, t.minSize), t.minSize, t.ignoreResize);
    NewTableSound<V>(Clamp(newSize, t.minSize), t.minSize, t.ignoreResize);
    EntriesOnce(t);
    RehashLosesZero(blank, Flatten(t.chains));
    GetFlatten(t, 0);
  }

  lemma EntriesOnce<V>(t: Table<V>)
    requires Placed(t)
    ensures NoDup(Flatten(t.chains))
  {
    NoDupFlatten(t.chains, |t.chains|, 0);
  }

  lemma ResizeAbsent<V>(t: Table<V>, newSize: nat, k: nat)
    requires Placed(t) && t.minSize > 0 && Get(t, k) == None
    ensures Placed(Resize(t, newSize)) && Get(Resize(t, newSize), k) == None
  {
    var size := Clamp(newSize, t.minSize);
    if size != |t.chains| && !t.ignoreResize {
      var blank := NewTable<V>(size, t.minSize, t.ignoreResize);
      NewTableSound<V>(size, t.minSize, t.ignoreResize);
      GetFlatten(t, k);
      RehashAbsent(blank, Flatten(t.chains), k);
    }
  }

  // ---- Whole operations ----

  /** Whether the resize that the load calls for, if any, would keep key 0. */
  predicate LoadFits<V>(t: Table<V>)
    requires t.chains != [] && t.minSize > 0
  {
    && (Overloaded(t.count, |t.chains|) ==> ResizeFits(t, |t.chains| * 2))
    && (!Overloaded(t.count, |t.chains|) && Underloaded(t.count, |t.chains|) ==> ResizeFits(t, |t.chains| / 2))
  }

  lemma CheckLoadIff<V>(t: Table<V>)
    requires Sound(t)
    ensures (Sound(CheckLoad(t)) && Contents(CheckLoad(t)) == Contents(t)) <==> LoadFits(t)
  {
    ResizeIff(t, |t.chains| * 2);
    ResizeIff(t, |t.chains| / 2);
  }

  lemma CheckLoadAbsent<V>(t: Table<V>, k: nat)
    requires Placed(t) && t.minSize > 0 && Get(t, k) == None
    ensures Placed(CheckLoad(t)) && Get(CheckLoad(t), k) == None
  {
    ResizeAbsent(t, |t.chains| * 2, k);
    ResizeAbsent(t, |t.chains| / 2, k);
  }

  /** Insertion with its resize is insertion into the map exactly when key 0 is not mishandled on the way. */
  lemma InsertIff<V>(t: Table<V>, key: nat, data: V)
    requires Sound(t)
    ensures ActsAsInsert(t, key, data, Insert(t, key, data))
      <==> InsertFits(t, key) && (InsertRaw(t, key, data).1 ==> LoadFits(InsertRaw(t, key, data).0))
  {
    InsertRawIff(t, key, data);
    var raw := InsertRaw(t, key, data);
    if !raw.1 {
      assert Insert(t, key, data) == raw;
    } else {
      ZeroChain(|t.chains|);
      assert InsertFits(t, key);
      CheckLoadIff(raw.0);
      var r := Insert(t, key, data);
      assert r.0 == CheckLoad(raw.0) && Contents(raw.0) == Contents(t)[key := data];
    }
  }

  /** Deletion with its resize is deletion from the map exactly when the key is not a heap bucket with a
      successor and key 0 is not mishandled. */
  lemma DelIff<V>(t: Table<V>, key: nat)
    requires Sound(t)
    ensures ActsAsDelete(t, key, Del(t, key))
      <==> DelFits(t, key) && (DelRaw(t, key).1 ==> LoadFits(DelRaw(t, key).0))
  {
    if DelFits(t, key) {
      DelRawIff(t, key);
      if DelRaw(t, key).1 {
        CheckLoadIff(DelRaw(t, key).0);
      }
    } else {
      DelDoesNotFit(t, key);
    }
  }

  lemma DelDoesNotFit<V>(t: Table<V>, key: nat)
    requires Sound(t) && !DelFits(t, key)
    ensures !ActsAsDelete(t, key, Del(t, key))
  {
    var c := t.chains[key % |t.chains|];
    KeyPlace(t, key);
    if c != [] {
      var raw, lost := DelRaw(t, key).0, c[|c| - 1].key;
      DelRawLoses(t, key, c);
      DelRawPlaced(t, key);
      CheckLoadAbsent(raw, lost);
      LostIsMissed(t, CheckLoad(raw), key, lost);
    }
  }

  /** After clearing, the table is the empty map exactly when it was before. */
  lemma ClearIff<V>(t: Table<V>)
    requires Sound(t)
    ensures Sound(Clear(t)) <==> Contents(t) == map[]
  {
    if Contents(t) == map[] {
      forall i | 0 <= i < |t.chains|
        ensures t.chains[i] == []
      {
        if t.chains[i] != [] {
          assert t.chains[i][0].key in Keys(t);
          KeyPlace(t, t.chains[i][0].key);
        }
      }
      assert Clear(t).chains == t.chains;
    } else {
      var k :| k in Contents(t);
      KeyPlace(t, k);
      var i := k % |t.chains|;
      var head := t.chains[i][0];
      assert head.key % |t.chains| == i;
      assert Clear(t).chains[i] == [head];
      if Sound(Clear(t)) {
        KeyPlace(Clear(t), head.key);
      }
    }
  }
}
