/** The contexts of pending queries and the fixed ring that parks finished chains of them. */
module PipelineRing {
  import opened Sequences

  datatype Ret = Busy | Ok | Error

  /** What the database reports for one statement. */
  datatype Status = CommandOk | TuplesOk | FatalError | OtherStatus
  datatype Answer = Answer(status: Status, rows: seq<int>)

  /** The result handlers, grouped by the answers they accept. */
  datatype Handler = BeginResult | CommandResult | TuplesResult | RowResult

  /** The verdict a result handler stores; none of them leaves its context busy. */
  function Verdict(handler: Handler, answer: Answer): (ret: Ret)
    ensures ret != Busy
    ensures answer.status == FatalError ==> ret == Error
  {
    match handler
    case BeginResult => if answer.status == FatalError then Error else Ok
    case CommandResult => if answer.status == CommandOk then Ok else Error
    case TuplesResult => if answer.status == TuplesOk then Ok else Error
    case RowResult => if answer.status == TuplesOk && answer.rows != [] then Ok else Error
  }

  /**
   * A query handed to the pipeline. `client` is 0 for a null pointer. `exec` is the callback: `None` for
   * a null pointer, otherwise the queries that the callback turns out to send when it runs.
   */
  datatype Request<Q> = Request(query: Q, handler: Handler, client: nat, exec: Option<seq<Request<Q>>>)

  datatype Ctx<Q> = Ctx(req: Request<Q>, client: nat, ret: Ret, answer: Option<Answer>)

  type Chain<Q> = seq<Ctx<Q>>

  /** A chain that `Peek` can see: its first context has a callback. */
  predicate Live<Q>(chain: Chain<Q>) {
    chain != [] && chain[0].req.exec.Some?
  }

  /** A zeroed slot is the empty chain. */
  datatype Ring<!Q> = Ring(slots: seq<Chain<Q>>, read: nat, write: nat, count: nat)

  predicate Shape<Q>(r: Ring<Q>) {
    r.read < |r.slots| && r.write < |r.slots|
  }

  /** Increment of a slot pointer that wraps after the last slot. */
  function Next(i: nat, size: nat): nat {
    if i >= size - 1 then 0 else i + 1
  }

  function Empty<Q>(size: nat): Ring<Q> {
    Ring(seq(size, _ => []), 0, 0, 0)
  }

  /** The slot at the write pointer looks taken, judged by the client of its first context. */
  predicate LooksTaken<Q>(r: Ring<Q>)
    requires Shape(r)
  {
    r.slots[r.write] != [] && r.slots[r.write][0].client != 0
  }

  function Enqueue<Q>(r: Ring<Q>, chain: Chain<Q>): Ring<Q>
    requires Shape(r)
  {
    if LooksTaken(r) then r
    else r.(slots := r.slots[r.write := chain], write := Next(r.write, |r.slots|), count := r.count + 1)
  }

  function Peek<Q>(r: Ring<Q>): Option<Chain<Q>>
    requires Shape(r)
  {
    if Live(r.slots[r.read]) then Some(r.slots[r.read]) else None
  }

  function Dequeue<Q>(r: Ring<Q>): Ring<Q>
    requires Shape(r)
  {
    if !Live(r.slots[r.read]) then r
    else r.(slots := r.slots[r.read := []], read := Next(r.read, |r.slots|),
            count := if r.count > 0 then r.count - 1 else 0)
  }

  /** The slots in reading order. */
  function Rotated<Q>(r: Ring<Q>): (s: seq<Chain<Q>>)
    requires Shape(r)
    ensures |s| == |r.slots|
  {
    r.slots[r.read..] + r.slots[..r.read]
  }

  /** The parked chains, oldest first. */
  function Chains<Q>(r: Ring<Q>): (s: seq<Chain<Q>>)
    requires Shape(r) && r.count <= |r.slots|
    ensures |s| == r.count
  {
    Rotated(r)[..r.count]
  }

  /** The occupied slots are exactly the `count` slots from `read` on, and the rest are zeroed. */
  ghost predicate Valid<Q>(r: Ring<Q>) {
    && Shape(r)
    && r.count <= |r.slots|
    && r.write == (if r.read + r.count < |r.slots| then r.read + r.count else r.read + r.count - |r.slots|)
    && (forall i | 0 <= i < r.count :: Live(Rotated(r)[i]))
    && (forall i | r.count <= i < |r.slots| :: Rotated(r)[i] == [])
  }

  lemma EmptyValid<Q>(size: nat)
    requires size > 0
    ensures Valid(Empty<Q>(size)) && Chains(Empty<Q>(size)) == []
  {
  }

  lemma EnqueueRotated<Q>(r: Ring<Q>, chain: Chain<Q>)
    requires Valid(r) && r.count < |r.slots|
    ensures !LooksTaken(r)
    ensures Shape(Enqueue(r, chain))
    ensures Rotated(Enqueue(r, chain)) == Rotated(r)[r.count := chain]
  {
    assert r.slots[r.write] == Rotated(r)[r.count];
    var e := Enqueue(r, chain);
    assert Rotated(e) == Rotated(r)[r.count := chain];
  }

  /** Enqueue appends to the queue of chains, and keeps the ring sound, exactly when a slot is free and the
      chain starts with a callback. */
  lemma EnqueueIsAppend<Q>(r: Ring<Q>, chain: Chain<Q>)
    requires Valid(r)
    ensures (Valid(Enqueue(r, chain)) && Chains(Enqueue(r, chain)) == Chains(r) + [chain])
            <==> (r.count < |r.slots| && chain != [] && chain[0].req.exec.Some?)
  {
    var e := Enqueue(r, chain);
    if r.count < |r.slots| {
      EnqueueRotated(r, chain);
      assert Rotated(e)[r.count] == chain;
      if Live(chain) {
        assert Chains(e) == Chains(r) + [chain];
      }
    } else if LooksTaken(r) {
      assert |Chains(e)| == |Chains(r)|;
    }
  }

  /** With every slot in use the oldest chain survives only if it has a client; without one it is overwritten. */
  lemma EnqueueWhenFull<Q>(r: Ring<Q>, chain: Chain<Q>)
    requires Valid(r) && r.count == |r.slots|
    ensures Enqueue(r, chain) == r <==> Chains(r)[0][0].client != 0
    ensures Enqueue(r, chain) != r ==> Enqueue(r, chain).slots[r.read] == chain && !Valid(Enqueue(r, chain))
  {
    assert r.slots[r.write] == Rotated(r)[0];
    assert Live(Rotated(r)[0]);
  }

  /** Peek shows the oldest chain and finds nothing exactly when the ring is empty. */
  lemma PeekIsFront<Q>(r: Ring<Q>)
    requires Valid(r)
    ensures Peek(r).None? <==> Chains(r) == []
    ensures Peek(r).Some? ==> Peek(r).value == Chains(r)[0]
  {
    assert r.slots[r.read] == Rotated(r)[0];
  }

  /** Dequeue removes the oldest chain and leaves the others in order. */
  lemma DequeueIsTail<Q>(r: Ring<Q>)
    requires Valid(r) && r.count > 0
    ensures Valid(Dequeue(r)) && Chains(Dequeue(r)) == Chains(r)[1..]
  {
    assert r.slots[r.read] == Rotated(r)[0];
    var d := Dequeue(r);
    assert Rotated(d) == Rotated(r)[1..] + [[]];
    assert forall i | 0 <= i < d.count :: Rotated(d)[i] == Rotated(r)[i + 1];
    assert forall i | d.count <= i < |d.slots| - 1 :: Rotated(d)[i] == Rotated(r)[i + 1];
  }

  /** Replacing the oldest chain in place touches no other chain. */
  lemma UpdateFront<Q>(r: Ring<Q>, chain: Chain<Q>)
    requires Valid(r) && r.count > 0 && Live(chain)
    ensures var u := r.(slots := r.slots[r.read := chain]);
            Valid(u) && Chains(u) == [chain] + Chains(r)[1..]
  {
    var u := r.(slots := r.slots[r.read := chain]);
    assert Rotated(u) == Rotated(r)[0 := chain];
    assert Chains(u) == Chains(r)[0 := chain];
  }
}
