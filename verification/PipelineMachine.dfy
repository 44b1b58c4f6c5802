/**
 * One worker's asynchronous pipeline as a step machine. Answers carry no tag: the machine matches them to
 * contexts by position alone, and the theorems say that this is right.
 */
module PipelineMachine {
  import opened Sequences
  import opened PipelineRing

  datatype Hit<Q> = Hit(req: Request<Q>, answer: Answer)

  /**
   * History, for stating properties: queries put on the wire, answers taken from it, handler calls, chains
   * handed to the callbacks, callbacks run, and the chains in the order they were parked.
   */
  datatype Log<!Q> = Log(sent: seq<Request<Q>>, answers: seq<Answer>, hits: seq<Hit<Q>>,
                         done: seq<Chain<Q>>, ran: Chain<Q>, parked: seq<seq<Request<Q>>>)

  /** `current` is the chain of the event or callback in progress, `running` the rest of a dequeued chain
      whose callbacks are being called. */
  datatype Worker<!Q> = Worker(ring: Ring<Q>, current: Chain<Q>, client: nat, running: Chain<Q>, log: Log<Q>)

  datatype Step<Q> =
    | SetClient(client: nat)  // a client's socket became readable
    | Send(req: Request<Q>)   // an event or a callback sends a query
    | Done                    // the event or the callback ends
    | Result(answer: Answer)  // a result other than a sync marker arrives
    | Exec                    // the next context of the dequeued chain is taken up

  function Fresh<Q>(req: Request<Q>, client: nat): Ctx<Q> {
    Ctx(req, if req.client == 0 then client else req.client, Busy, None)
  }

  function Settle<Q>(c: Ctx<Q>, a: Answer): Ctx<Q> {
    c.(ret := Verdict(c.req.handler, a), answer := Some(a))
  }

  function Requests<Q>(chain: Chain<Q>): seq<Request<Q>> {
    seq(|chain|, i requires 0 <= i < |chain| => chain[i].req)
  }

  /** The contexts that have a callback. */
  function Callbacks<Q>(chain: Chain<Q>): Chain<Q> {
    if chain == [] then []
    else (if chain[0].req.exec.Some? then [chain[0]] else []) + Callbacks(chain[1..])
  }

  /** The first busy context, or the last one. */
  function Target<Q>(chain: Chain<Q>): (k: nat)
    requires chain != []
    ensures k < |chain|
    ensures k < |chain| - 1 ==> chain[k].ret == Busy
    ensures forall i | 0 <= i < k :: chain[i].ret != Busy
  {
    if |chain| > 1 && chain[0].ret != Busy then 1 + Target(chain[1..]) else 0
  }

  function Init<Q>(size: nat): Worker<Q> {
    Worker(Empty(size), [], 0, [], Log([], [], [], [], [], []))
  }

  function OnSend<Q>(w: Worker<Q>, req: Request<Q>): Worker<Q> {
    w.(current := w.current + [Fresh(req, w.client)], log := w.log.(sent := w.log.sent + [req]))
  }

  /** Parks the current chain. The ring's refusal goes unnoticed: the chain is dropped all the same. */
  function OnDone<Q>(w: Worker<Q>): Worker<Q>
    requires Shape(w.ring)
  {
    if w.current == [] then w
    else w.(ring := Enqueue(w.ring, w.current), current := [], client := 0,
            log := w.log.(parked := w.log.parked + [Requests(w.current)]))
  }

  /** The ring in which the front chain has taken an answer. */
  function Settled<Q>(r: Ring<Q>, a: Answer): (r': Ring<Q>)
    requires Shape(r) && r.slots[r.read] != []
    ensures Shape(r')
  {
    var front := r.slots[r.read];
    var k := Target(front);
    r.(slots := r.slots[r.read := front[k := Settle(front[k], a)]])
  }

  function OnResult<Q>(w: Worker<Q>, a: Answer): Worker<Q>
    requires Shape(w.ring)
  {
    var log := w.log.(answers := w.log.answers + [a]);
    match Peek(w.ring)
    case None => w.(log := log)
    case Some(front) =>
      var k := Target(front);
      var front' := front[k := Settle(front[k], a)];
      var ring := Settled(w.ring, a);
      var log' := log.(hits := log.hits + [Hit(front[k].req, a)]);
      if k == |front| - 1
      then w.(ring := Dequeue(ring), running := front', log := log'.(done := log'.done + [front']))
      else w.(ring := ring, log := log')
  }

  function OnExec<Q>(w: Worker<Q>): Worker<Q> {
    if w.running == [] then w
    else
      var c := w.running[0];
      w.(running := w.running[1..],
         log := if c.req.exec.Some? then w.log.(ran := w.log.ran + [c]) else w.log)
  }

  /** When the program can take a step: answers are read between events, and only for queries sent. */
  predicate Enabled<Q>(w: Worker<Q>, s: Step<Q>) {
    match s
    case SetClient(_) => w.running == [] && w.current == []
    case Send(_) => true
    case Done => true
    case Result(_) => w.running == [] && w.current == [] && |w.log.answers| < |w.log.sent|
    case Exec => w.running != [] && w.current == []
  }

  function Apply<Q>(w: Worker<Q>, s: Step<Q>): (w': Worker<Q>)
    requires Shape(w.ring)
    ensures Shape(w'.ring)
  {
    match s
    case SetClient(c) => w.(client := c)
    case Send(req) => OnSend(w, req)
    case Done => OnDone(w)
    case Result(a) => OnResult(w, a)
    case Exec => OnExec(w)
  }

  function Run<Q>(w: Worker<Q>, steps: seq<Step<Q>>): (w': Worker<Q>)
    requires Shape(w.ring)
    ensures Shape(w'.ring)
    decreases steps
  {
    if steps == [] then w else Run(Apply(w, steps[0]), steps[1..])
  }

  predicate Possible<Q>(w: Worker<Q>, steps: seq<Step<Q>>)
    requires Shape(w.ring)
    decreases steps
  {
    steps == [] || (Enabled(w, steps[0]) && Possible(Apply(w, steps[0]), steps[1..]))
  }

  /** What has to hold when an event ends: a free slot for its chain, and a callback on the first context. */
  predicate Fits<Q>(w: Worker<Q>, s: Step<Q>) {
    s.Done? && w.current != [] ==> w.ring.count < |w.ring.slots| && w.current[0].req.exec.Some?
  }

  predicate AllFit<Q>(w: Worker<Q>, steps: seq<Step<Q>>)
    requires Shape(w.ring)
    decreases steps
  {
    steps == [] || (Fits(w, steps[0]) && AllFit(Apply(w, steps[0]), steps[1..]))
  }

  /** Every context there has ever been, oldest first: completed, parked, being collected. */
  ghost function Contexts<Q>(w: Worker<Q>): Chain<Q>
    requires Valid(w.ring)
  {
    Flatten(w.log.done) + Flatten(Chains(w.ring)) + w.current
  }

  /** `c` is the context of `sent[i]`: it holds `answers[i]` if that has arrived and is busy otherwise. */
  ghost predicate Matches<Q>(c: Ctx<Q>, log: Log<Q>, i: nat)
    requires i < |log.sent|
  {
    && c.req == log.sent[i]
    && (i < |log.answers| ==> c.answer == Some(log.answers[i]) && c.ret == Verdict(c.req.handler, log.answers[i]))
    && (i >= |log.answers| ==> c.answer == None && c.ret == Busy)
  }

  ghost predicate AllMatch<Q>(cs: Chain<Q>, log: Log<Q>) {
    && |cs| == |log.sent|
    && |log.answers| <= |log.sent|
    && forall i | 0 <= i < |cs| :: Matches(cs[i], log, i)
  }

  /** The next answer belongs to the oldest parked chain. */
  ghost predicate FrontIsNext<Q>(w: Worker<Q>)
    requires Valid(w.ring)
  {
    var base := |Flatten(w.log.done)|;
    if w.ring.count == 0 then |w.log.answers| == base
    else base <= |w.log.answers| < base + |Chains(w.ring)[0]|
  }

  ghost predicate HitsInOrder<Q>(log: Log<Q>) {
    && |log.hits| == |log.answers| <= |log.sent|
    && forall i | 0 <= i < |log.hits| :: log.hits[i] == Hit(log.sent[i], log.answers[i])
  }

  ghost predicate CallbacksInOrder<Q>(w: Worker<Q>) {
    w.log.ran + Callbacks(w.running) == Callbacks(Flatten(w.log.done))
  }

  /** The i-th chain parked is the i-th completed or still parked. */
  ghost predicate ChainsInOrder<Q>(w: Worker<Q>)
    requires Valid(w.ring)
  {
    && |w.log.parked| == |w.log.done| + w.ring.count
    && (forall i | 0 <= i < |w.log.done| :: Requests(w.log.done[i]) == w.log.parked[i])
    && (forall i | 0 <= i < w.ring.count :: Requests(Chains(w.ring)[i]) == w.log.parked[|w.log.done| + i])
  }

  ghost predicate RunningIsLast<Q>(w: Worker<Q>) {
    |w.running| <= |Flatten(w.log.done)| && w.running == Flatten(w.log.done)[|Flatten(w.log.done)| - |w.running|..]
  }

  ghost predicate Inv<Q>(w: Worker<Q>) {
    && Valid(w.ring)
    && AllMatch(Contexts(w), w.log)
    && FrontIsNext(w)
    && HitsInOrder(w.log)
    && CallbacksInOrder(w)
    && ChainsInOrder(w)
    && RunningIsLast(w)
  }

  lemma {:induction false} CallbacksAppend<Q>(a: Chain<Q>, b: Chain<Q>)
    ensures Callbacks(a + b) == Callbacks(a) + Callbacks(b)
  {
    if a == [] {
      assert a + b == b;
    } else {
      assert (a + b)[1..] == a[1..] + b && (a + b)[0] == a[0];
      CallbacksAppend(a[1..], b);
      var first := if a[0].req.exec.Some? then [a[0]] else [];
      assert (first + Callbacks(a[1..])) + Callbacks(b) == first + (Callbacks(a[1..]) + Callbacks(b));
    }
  }

  lemma InitInv<Q>(size: nat)
    requires size > 0
    ensures Inv(Init<Q>(size))
  {
    EmptyValid<Q>(size);
  }

  lemma SendKeepsInv<Q>(w: Worker<Q>, req: Request<Q>)
    requires Inv(w)
    ensures Inv(OnSend(w, req))
  {
    var w' := OnSend(w, req);
    assert Contexts(w') == Contexts(w) + [Fresh(req, w.client)];
  }

  lemma DoneContexts<Q>(w: Worker<Q>)
    requires Valid(w.ring) && w.ring.count < |w.ring.slots| && Live(w.current)
    ensures var w' := OnDone(w);
      && Valid(w'.ring) && Chains(w'.ring) == Chains(w.ring) + [w.current]
      && Contexts(w') == Contexts(w)
  {
    EnqueueIsAppend(w.ring, w.current);
    FlattenSnoc(Chains(w.ring), w.current);
    Regroup(Flatten(w.log.done), Flatten(Chains(w.ring)), w.current, []);
    assert Contexts(OnDone(w)) == Flatten(w.log.done) + (Flatten(Chains(w.ring)) + w.current) + [];
  }

  lemma DoneKeepsChains<Q>(w: Worker<Q>, w': Worker<Q>)
    requires Valid(w.ring) && Valid(w'.ring) && ChainsInOrder(w)
    requires Chains(w'.ring) == Chains(w.ring) + [w.current]
    requires w'.log.done == w.log.done && w'.log.parked == w.log.parked + [Requests(w.current)]
    ensures ChainsInOrder(w')
  {
  }

  lemma DoneKeepsFront<Q>(w: Worker<Q>, w': Worker<Q>)
    requires Valid(w.ring) && Valid(w'.ring) && FrontIsNext(w) && w.current != []
    requires Chains(w'.ring) == Chains(w.ring) + [w.current]
    requires w'.log.done == w.log.done && w'.log.answers == w.log.answers
    ensures FrontIsNext(w')
  {
    assert Chains(w'.ring)[0] == if w.ring.count == 0 then w.current else Chains(w.ring)[0];
  }

  lemma DoneKeepsInv<Q>(w: Worker<Q>)
    requires Inv(w) && w.current != []
    requires w.ring.count < |w.ring.slots| && Live(w.current)
    ensures Inv(OnDone(w)) && Contexts(OnDone(w)) == Contexts(w)
  {
    DoneContexts(w);
    var w' := OnDone(w);
    DoneKeepsFront(w, w');
    DoneKeepsChains(w, w');
    assert AllMatch(Contexts(w'), w'.log) by {
      forall i | 0 <= i < |Contexts(w)|
        ensures Matches(Contexts(w)[i], w'.log, i)
      {
        assert Matches(Contexts(w)[i], w.log, i);
      }
    }
  }

  /** A chain that is refused, overwritten or invisible to `Peek` breaks the invariant. */
  lemma DoneBreaksInv<Q>(w: Worker<Q>)
    requires Inv(w) && w.current != []
    requires !(w.ring.count < |w.ring.slots| && Live(w.current))
    ensures !Inv(OnDone(w))
  {
    var w' := OnDone(w);
    EnqueueIsAppend(w.ring, w.current);
    if w.ring.count == |w.ring.slots| {
      EnqueueWhenFull(w.ring, w.current);
      if Valid(w'.ring) {
        assert |Contexts(w')| < |Contexts(w)|;
      }
    } else {
      EnqueueRotated(w.ring, w.current);
      assert Rotated(w'.ring)[w.ring.count] == w.current;
    }
  }

  /** The contexts of the oldest parked chain follow those of the completed chains. */
  lemma FrontContexts<Q>(w: Worker<Q>)
    requires Valid(w.ring) && w.ring.count > 0
    ensures var base := |Flatten(w.log.done)|; var chains := Chains(w.ring);
            && Live(chains[0])
            && Contexts(w) == Flatten(w.log.done) + chains[0] + (Flatten(chains[1..]) + w.current)
            && base + |chains[0]| <= |Contexts(w)|
            && Contexts(w)[base..base + |chains[0]|] == chains[0]
  {
    var chains := Chains(w.ring);
    assert chains[0] == Rotated(w.ring)[0];
    assert Flatten(chains) == chains[0] + Flatten(chains[1..]);
  }

  lemma TargetIs<Q>(chain: Chain<Q>, k: nat)
    requires k < |chain| && chain[k].ret == Busy
    requires forall i | 0 <= i < k :: chain[i].ret != Busy
    ensures Target(chain) == k
  {
  }

  /** A stretch of the contexts in which the next answer falls is settled before that point, busy from it on. */
  lemma TargetInStretch<Q>(cs: Chain<Q>, log: Log<Q>, base: nat, front: Chain<Q>)
    requires AllMatch(cs, log) && base + |front| <= |cs| && cs[base..base + |front|] == front
    requires base <= |log.answers| < base + |front|
    ensures Target(front) == |log.answers| - base
  {
    var k := |log.answers| - base;
    forall i | 0 <= i <= k
      ensures front[i].ret == Busy <==> i == k
    {
      assert Matches(cs[base + i], log, base + i);
    }
    TargetIs(front, k);
  }

  lemma FrontTarget<Q>(w: Worker<Q>)
    requires Valid(w.ring) && w.ring.count > 0 && AllMatch(Contexts(w), w.log) && FrontIsNext(w)
    ensures Target(Chains(w.ring)[0]) == |w.log.answers| - |Flatten(w.log.done)|
  {
    FrontContexts(w);
    TargetInStretch(Contexts(w), w.log, |Flatten(w.log.done)|, Chains(w.ring)[0]);
  }

  /** Settling the first unanswered context with the next answer keeps every context matched. */
  lemma SettleMatches<Q>(cs: Chain<Q>, log: Log<Q>, a: Answer)
    requires AllMatch(cs, log) && |log.answers| < |log.sent|
    ensures AllMatch(cs[|log.answers| := Settle(cs[|log.answers|], a)], log.(answers := log.answers + [a]))
  {
    var n := |log.answers|;
    var cs' := cs[n := Settle(cs[n], a)];
    var log' := log.(answers := log.answers + [a]);
    forall i | 0 <= i < |cs'|
      ensures Matches(cs'[i], log', i)
    {
      assert Matches(cs[i], log, i);
    }
  }

  /** While an answer is owed and no chain is being collected, a chain is parked. */
  lemma OwedMeansParked<Q>(w: Worker<Q>)
    requires Valid(w.ring) && AllMatch(Contexts(w), w.log) && FrontIsNext(w)
    requires w.current == [] && |w.log.answers| < |w.log.sent|
    ensures w.ring.count > 0
  {
    PeekIsFront(w.ring);
  }

  /** An answer settles the context at this place, wherever that leaves its chain. */
  lemma ResultSettles<Q>(w: Worker<Q>, a: Answer, n: nat)
    requires Valid(w.ring) && w.ring.count > 0 && n == |Flatten(w.log.done)| + Target(Chains(w.ring)[0])
    ensures var w' := OnResult(w, a);
            && n < |Contexts(w)|
            && Valid(w'.ring) && Contexts(w') == Contexts(w)[n := Settle(Contexts(w)[n], a)]
            && w'.log.hits == w.log.hits + [Hit(Contexts(w)[n].req, a)]
            && w'.log.sent == w.log.sent && w'.log.answers == w.log.answers + [a]
            && w'.log.ran == w.log.ran && w'.log.parked == w.log.parked
    ensures ResultPlace(w, OnResult(w, a))
  {
    PeekIsFront(w.ring);
    FrontContexts(w);
    var chains := Chains(w.ring);
    var front := chains[0];
    var k := Target(front);
    var front' := front[k := Settle(front[k], a)];
    UpdateFront(w.ring, front');
    UpdateMiddle(Flatten(w.log.done), front, Flatten(chains[1..]) + w.current, k, front'[k]);
    if k == |front| - 1 {
      CompletedContexts(w, a, front');
    } else {
      SettledContexts(w, a, front');
    }
  }

  /** What an answer does to the contexts, wherever it leaves them. */
  lemma ResultContexts<Q>(w: Worker<Q>, a: Answer)
    requires Inv(w) && w.running == [] && w.current == [] && |w.log.answers| < |w.log.sent|
    ensures w.ring.count > 0
    ensures var n := |w.log.answers|; var w' := OnResult(w, a);
            && n < |Contexts(w)|
            && Valid(w'.ring) && Contexts(w') == Contexts(w)[n := Settle(Contexts(w)[n], a)]
            && w'.log.hits == w.log.hits + [Hit(Contexts(w)[n].req, a)]
            && w'.log.sent == w.log.sent && w'.log.answers == w.log.answers + [a]
            && w'.log.ran == w.log.ran && w'.log.parked == w.log.parked
    ensures ResultPlace(w, OnResult(w, a))
  {
    OwedMeansParked(w);
    FrontTarget(w);
    ResultSettles(w, a, |w.log.answers|);
  }

  lemma UpdateMiddle<T>(a: seq<T>, b: seq<T>, c: seq<T>, k: nat, x: T)
    requires k < |b|
    ensures (a + b + c)[|a| + k := x] == a + b[k := x] + c && (a + b + c)[|a| + k] == b[k]
  {
  }

  lemma SettledChains<Q>(r: Ring<Q>, a: Answer)
    requires Valid(r) && r.count > 0
    ensures r.slots[r.read] == Chains(r)[0] && Live(Chains(r)[0])
    ensures var front := Chains(r)[0]; var k := Target(front);
      Valid(Settled(r, a)) && Chains(Settled(r, a)) == [front[k := Settle(front[k], a)]] + Chains(r)[1..]
  {
    PeekIsFront(r);
    var front := Chains(r)[0];
    var k := Target(front);
    UpdateFront(r, front[k := Settle(front[k], a)]);
  }

  lemma Regroup<T>(a: seq<T>, b: seq<T>, c: seq<T>, d: seq<T>)
    ensures a + (b + c) + d == a + b + (c + d) == a + b + c + d
  {
  }

  lemma CompletedContexts<Q>(w: Worker<Q>, a: Answer, front': Chain<Q>)
    requires Valid(w.ring) && w.ring.count > 0 && Live(Chains(w.ring)[0])
    requires Target(Chains(w.ring)[0]) == |Chains(w.ring)[0]| - 1
    requires var front := Chains(w.ring)[0]; var k := Target(front);
      front' == front[k := Settle(front[k], a)]
    ensures var w' := OnResult(w, a);
      && Valid(w'.ring) && ResultPlace(w, w')
      && Contexts(w') == Flatten(w.log.done) + front' + (Flatten(Chains(w.ring)[1..]) + w.current)
  {
    SettledChains(w.ring, a);
    var ring := Settled(w.ring, a);
    var rest := Chains(w.ring)[1..];
    var w' := OnResult(w, a);
    assert w'.ring == Dequeue(ring) && w'.running == front' && w'.log.done == w.log.done + [front'];
    DequeueIsTail(ring);
    assert Chains(w'.ring) == rest;
    FlattenSnoc(w.log.done, front');
    Regroup(Flatten(w.log.done), front', Flatten(rest), w.current);
    assert Requests(front') == Requests(Chains(w.ring)[0]);
  }

  lemma SettledContexts<Q>(w: Worker<Q>, a: Answer, front': Chain<Q>)
    requires Valid(w.ring) && w.ring.count > 0 && Live(Chains(w.ring)[0])
    requires Target(Chains(w.ring)[0]) < |Chains(w.ring)[0]| - 1
    requires var front := Chains(w.ring)[0]; var k := Target(front);
      front' == front[k := Settle(front[k], a)]
    ensures var w' := OnResult(w, a);
      && Valid(w'.ring) && ResultPlace(w, w')
      && Contexts(w') == Flatten(w.log.done) + front' + (Flatten(Chains(w.ring)[1..]) + w.current)
  {
    SettledChains(w.ring, a);
    var rest := Chains(w.ring)[1..];
    var w' := OnResult(w, a);
    assert w'.ring == Settled(w.ring, a) && w'.log.done == w.log.done;
    assert Chains(w'.ring)[1..] == rest && Chains(w'.ring)[0] == front';
    assert Flatten(Chains(w'.ring)) == front' + Flatten(rest);
    Regroup(Flatten(w.log.done), front', Flatten(rest), w.current);
    assert Requests(front') == Requests(Chains(w.ring)[0]);
  }

  /** Where an answer leaves the front chain: in place, or completed when its last context was settled. */
  ghost predicate ResultPlace<Q>(w: Worker<Q>, w': Worker<Q>)
    requires Valid(w.ring) && w.ring.count > 0 && Valid(w'.ring)
  {
    var front := Chains(w.ring)[0];
    var rest := Chains(w.ring)[1..];
    if Target(front) == |front| - 1
    then |w'.running| == |front| && Requests(w'.running) == Requests(front)
         && w'.log.done == w.log.done + [w'.running] && Chains(w'.ring) == rest
    else w'.running == w.running && w'.log.done == w.log.done
         && w'.ring.count > 0 && |Chains(w'.ring)[0]| == |front|
         && Requests(Chains(w'.ring)[0]) == Requests(front) && Chains(w'.ring)[1..] == rest
  }

  lemma ResultKeepsChains<Q>(w: Worker<Q>, w': Worker<Q>)
    requires Valid(w.ring) && w.ring.count > 0 && Valid(w'.ring) && ResultPlace(w, w')
    requires ChainsInOrder(w) && w'.log.parked == w.log.parked
    ensures ChainsInOrder(w')
  {
    var n := |w.log.done|;
    assert w.log.parked[n] == w.log.parked[n + 0];
    forall i | 0 <= i < w'.ring.count
      ensures Requests(Chains(w'.ring)[i]) == w'.log.parked[|w'.log.done| + i]
    {
      if w'.log.done != w.log.done {
        assert Chains(w'.ring)[i] == Chains(w.ring)[i + 1];
      } else if i > 0 {
        assert Chains(w'.ring)[i] == Chains(w'.ring)[1..][i - 1] == Chains(w.ring)[1..][i - 1] == Chains(w.ring)[i];
      }
    }
  }

  lemma ResultKeepsCallbacks<Q>(w: Worker<Q>, w': Worker<Q>)
    requires Valid(w.ring) && w.ring.count > 0 && Valid(w'.ring) && ResultPlace(w, w')
    requires CallbacksInOrder(w) && RunningIsLast(w) && w.running == [] && w'.log.ran == w.log.ran
    ensures CallbacksInOrder(w') && RunningIsLast(w')
  {
    if w'.running != [] {
      assert w'.log.done == w.log.done + [w'.running];
      FlattenSnoc(w.log.done, w'.running);
      CallbacksAppend(Flatten(w.log.done), w'.running);
    }
  }

  lemma ResultKeepsFront<Q>(w: Worker<Q>, w': Worker<Q>)
    requires Inv(w) && w.ring.count > 0 && Valid(w'.ring) && ResultPlace(w, w')
    requires |w'.log.answers| == |w.log.answers| + 1
    ensures FrontIsNext(w')
  {
    FrontTarget(w);
    if w'.log.done != w.log.done {
      FlattenSnoc(w.log.done, w'.running);
      NextFront(w');
    }
  }

  /** An answer keeps every context matched and every handler call in order. */
  lemma ResultKeepsMatches<Q>(w: Worker<Q>, w': Worker<Q>, a: Answer)
    requires Valid(w.ring) && Valid(w'.ring)
    requires AllMatch(Contexts(w), w.log) && HitsInOrder(w.log) && |w.log.answers| < |w.log.sent|
    requires Contexts(w') == Contexts(w)[|w.log.answers| := Settle(Contexts(w)[|w.log.answers|], a)]
    requires w'.log.sent == w.log.sent && w'.log.answers == w.log.answers + [a]
    requires w'.log.hits == w.log.hits + [Hit(Contexts(w)[|w.log.answers|].req, a)]
    ensures AllMatch(Contexts(w'), w'.log) && HitsInOrder(w'.log)
  {
    var n := |w.log.answers|;
    SettleMatches(Contexts(w), w.log, a);
    assert Matches(Contexts(w)[n], w.log, n);
  }

  lemma ResultKeepsInv<Q>(w: Worker<Q>, a: Answer)
    requires Inv(w) && w.running == [] && w.current == [] && |w.log.answers| < |w.log.sent|
    ensures Inv(OnResult(w, a))
  {
    ResultContexts(w, a);
    var w' := OnResult(w, a);
    ResultKeepsMatches(w, w', a);
    ResultKeepsFront(w, w');
    ResultKeepsChains(w, w');
    ResultKeepsCallbacks(w, w');
  }

  lemma NextFront<Q>(w: Worker<Q>)
    requires Valid(w.ring) && |w.log.answers| == |Flatten(w.log.done)|
    ensures FrontIsNext(w)
  {
    if w.ring.count > 0 {
      assert Live(Rotated(w.ring)[0]);
    }
  }

  lemma DropOne<T>(all: seq<T>, tail: seq<T>)
    requires tail != [] && |tail| <= |all| && tail == all[|all| - |tail|..]
    ensures tail[1..] == all[|all| - |tail[1..]|..]
  {
  }

  lemma ExecKeepsCallbacks<Q>(w: Worker<Q>)
    requires CallbacksInOrder(w) && RunningIsLast(w) && w.running != []
    ensures CallbacksInOrder(OnExec(w)) && RunningIsLast(OnExec(w))
  {
    DropOne(Flatten(w.log.done), w.running);
    var c := w.running[0];
    var rest := Callbacks(w.running[1..]);
    assert Callbacks(w.running) == (if c.req.exec.Some? then [c] else []) + rest;
    assert (w.log.ran + [c]) + rest == w.log.ran + ([c] + rest);
  }

  lemma ExecKeepsInv<Q>(w: Worker<Q>)
    requires Inv(w) && w.running != []
    ensures Inv(OnExec(w))
  {
    var w' := OnExec(w);
    ExecKeepsCallbacks(w);
    assert Contexts(w') == Contexts(w);
  }

  /** One step keeps the whole-state invariant exactly when the chain of an ending event fits. */
  lemma StepKeepsInvIff<Q>(w: Worker<Q>, s: Step<Q>)
    requires Inv(w) && Enabled(w, s)
    ensures Inv(Apply(w, s)) <==> Fits(w, s)
  {
    match s
    case SetClient(c) =>
      assert Contexts(Apply(w, s)) == Contexts(w);
    case Send(req) => SendKeepsInv(w, req);
    case Done =>
      if w.current != [] {
        if Fits(w, s) {
          DoneKeepsInv(w);
        } else {
          DoneBreaksInv(w);
        }
      }
    case Result(a) => ResultKeepsInv(w, a);
    case Exec => ExecKeepsInv(w);
  }

  lemma {:induction false} RunKeepsInv<Q>(w: Worker<Q>, steps: seq<Step<Q>>)
    requires Inv(w) && Possible(w, steps) && AllFit(w, steps)
    ensures Inv(Run(w, steps))
    decreases steps
  {
    if steps != [] {
      StepKeepsInvIff(w, steps[0]);
      RunKeepsInv(Apply(w, steps[0]), steps[1..]);
    }
  }

  /** In every run, however events, answers and callbacks interleave, the i-th answer reaches the handler of
      the i-th query sent, and every context in the system holds the answer to its own query or is busy. */
  lemma AnswersReachTheirQueries<Q>(size: nat, steps: seq<Step<Q>>)
    requires size > 0 && Possible(Init(size), steps) && AllFit(Init(size), steps)
    ensures var w := Run(Init(size), steps);
            && |w.log.hits| == |w.log.answers| <= |w.log.sent|
            && (forall i | 0 <= i < |w.log.hits| :: w.log.hits[i] == Hit(w.log.sent[i], w.log.answers[i]))
            && Valid(w.ring) && AllMatch(Contexts(w), w.log)
  {
    InitInv<Q>(size);
    RunKeepsInv(Init(size), steps);
  }

  /** Callbacks run once each, in chain order; when one runs, every context of its chain has its answer. Chains
      complete in the order they were parked. */
  lemma CallbacksRunOnceInOrder<Q>(size: nat, steps: seq<Step<Q>>)
    requires size > 0 && Possible(Init(size), steps) && AllFit(Init(size), steps)
    ensures var w := Run(Init(size), steps);
            && w.log.ran <= Callbacks(Flatten(w.log.done))
            && (w.running == [] ==> w.log.ran == Callbacks(Flatten(w.log.done)))
            && (forall c | c in Flatten(w.log.done) :: c.ret != Busy && c.answer.Some?)
            && |w.log.done| <= |w.log.parked|
            && (forall i | 0 <= i < |w.log.done| :: Requests(w.log.done[i]) == w.log.parked[i])
  {
    InitInv<Q>(size);
    RunKeepsInv(Init(size), steps);
    var w := Run(Init(size), steps);
    CompletedAreSettled(w);
  }

  /** Between events, the callbacks that have run are those of all contexts of completed chains that have one. */
  lemma EveryCallbackRuns<Q>(size: nat, steps: seq<Step<Q>>, c: Ctx<Q>)
    requires size > 0 && Possible(Init(size), steps) && AllFit(Init(size), steps)
    ensures var w := Run(Init(size), steps);
      && (c in w.log.ran ==> c in Flatten(w.log.done) && c.req.exec.Some?)
      && (w.running == [] && c in Flatten(w.log.done) && c.req.exec.Some? ==> c in w.log.ran)
  {
    CallbacksRunOnceInOrder(size, steps);
    CallbackIff(Flatten(Run(Init(size), steps).log.done), c);
  }

  lemma {:induction false} CallbackIff<Q>(chain: Chain<Q>, c: Ctx<Q>)
    ensures c in Callbacks(chain) <==> c in chain && c.req.exec.Some?
  {
    if chain != [] {
      CallbackIff(chain[1..], c);
    }
  }

  /** The answers that leave a context in error, by the handler of its query. */
  ghost predicate Fails(handler: Handler, a: Answer) {
    || (handler == BeginResult && a.status == FatalError)
    || (handler == CommandResult && a.status != CommandOk)
    || (handler == TuplesResult && a.status != TuplesOk)
    || (handler == RowResult && !(a.status == TuplesOk && |a.rows| > 0))
  }

  /** In every run a context is busy until its answer comes, and then in error exactly if that answer fails. */
  lemma ContextsInErrorIff<Q>(size: nat, steps: seq<Step<Q>>, i: nat)
    requires size > 0 && Possible(Init(size), steps) && AllFit(Init(size), steps)
    requires i < |Run(Init<Q>(size), steps).log.sent|
    ensures var w := Run(Init(size), steps);
      && Valid(w.ring) && i < |Contexts(w)|
      && (Contexts(w)[i].ret == Busy <==> i >= |w.log.answers|)
      && (Contexts(w)[i].ret == Error <==> i < |w.log.answers| && Fails(w.log.sent[i].handler, w.log.answers[i]))
  {
    AnswersReachTheirQueries(size, steps);
    var w := Run(Init(size), steps);
    assert Matches(Contexts(w)[i], w.log, i);
  }

  lemma CompletedAreSettled<Q>(w: Worker<Q>)
    requires Inv(w)
    ensures forall c | c in Flatten(w.log.done) :: c.ret != Busy && c.answer.Some?
  {
    var all := Flatten(w.log.done);
    forall c | c in all
      ensures c.ret != Busy && c.answer.Some?
    {
      var i :| 0 <= i < |all| && all[i] == c;
      assert Contexts(w)[i] == c;
      assert Matches(Contexts(w)[i], w.log, i);
    }
  }

  /** Between events the ring is empty exactly when no query is unanswered, so a worker that blocks because
      its ring is empty never sleeps on an answer that is owed. */
  lemma BlocksOnlyWhenNothingIsOwed<Q>(size: nat, steps: seq<Step<Q>>)
    requires size > 0 && Possible(Init(size), steps) && AllFit(Init(size), steps)
    requires Run(Init(size), steps).current == []
    ensures var w := Run(Init(size), steps);
            w.ring.count == 0 <==> |w.log.answers| == |w.log.sent|
  {
    InitInv<Q>(size);
    RunKeepsInv(Init(size), steps);
    var w := Run(Init(size), steps);
    if w.ring.count > 0 {
      FrontContexts(w);
    }
  }

  lemma {:induction false} RunSplit<Q>(w: Worker<Q>, a: seq<Step<Q>>, b: seq<Step<Q>>)
    requires Shape(w.ring)
    ensures Run(w, a + b) == Run(Run(w, a), b)
    ensures Possible(w, a + b) <==> Possible(w, a) && Possible(Run(w, a), b)
    ensures AllFit(w, a + b) <==> AllFit(w, a) && AllFit(Run(w, a), b)
    decreases a
  {
    if a == [] {
      assert a + b == b;
    } else {
      assert (a + b)[1..] == a[1..] + b;
      RunSplit(Apply(w, a[0]), a[1..], b);
    }
  }
}
