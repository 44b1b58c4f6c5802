/** What becomes of a worker's queries when the chain of an event finds no free slot, or starts without a
    callback: from then on, in every run, some answer reaches no handler. */
module PipelineOverflow {
  import opened Sequences
  import opened PipelineRing
  import opened PipelineMachine

  function BusyCount<Q>(chain: Chain<Q>): (n: nat)
    ensures n <= |chain|
  {
    if chain == [] then 0 else (if chain[0].ret == Busy then 1 else 0) + BusyCount(chain[1..])
  }

  /** The contexts of a slot that an answer can still reach. */
  function Reachable<Q>(chain: Chain<Q>): nat {
    if Live(chain) then BusyCount(chain) else 0
  }

  function Awaiting<Q>(slots: seq<Chain<Q>>): nat {
    if slots == [] then 0 else Reachable(slots[0]) + Awaiting(slots[1..])
  }

  ghost predicate AllBusy<Q>(chain: Chain<Q>) {
    forall i | 0 <= i < |chain| :: chain[i].ret == Busy
  }

  /** A chain in the ring still waits for its last answer. */
  ghost predicate LastBusy<Q>(slots: seq<Chain<Q>>) {
    forall i | 0 <= i < |slots| && slots[i] != [] :: slots[i][|slots[i]| - 1].ret == Busy
  }

  /** Of the queries sent at least `d` have neither been answered nor a context that an answer can reach. */
  ghost predicate Short<Q>(w: Worker<Q>, d: nat) {
    && LastBusy(w.ring.slots) && AllBusy(w.current)
    && |w.log.hits| + Awaiting(w.ring.slots) + |w.current| + d <= |w.log.sent|
  }

  lemma {:induction false} AwaitingUpdate<Q>(slots: seq<Chain<Q>>, i: nat, chain: Chain<Q>)
    requires i < |slots|
    ensures Awaiting(slots[i := chain]) == Awaiting(slots) - Reachable(slots[i]) + Reachable(chain)
  {
    var updated := slots[i := chain];
    if i == 0 {
      assert updated[1..] == slots[1..];
    } else {
      assert updated[1..] == slots[1..][i - 1 := chain];
      AwaitingUpdate(slots[1..], i - 1, chain);
    }
  }

  lemma {:induction false} NothingAwaited<Q>(slots: seq<Chain<Q>>)
    requires forall i | 0 <= i < |slots| :: slots[i] == []
    ensures Awaiting(slots) == 0
  {
    if slots != [] {
      NothingAwaited(slots[1..]);
    }
  }

  lemma {:induction false} SomeBusy<Q>(chain: Chain<Q>, k: nat)
    requires k < |chain| && chain[k].ret == Busy
    ensures BusyCount(chain) >= 1
  {
    if k > 0 {
      SomeBusy(chain[1..], k - 1);
    }
  }

  lemma {:induction false} SettledCount<Q>(chain: Chain<Q>, k: nat, c: Ctx<Q>)
    requires k < |chain| && chain[k].ret == Busy && c.ret != Busy
    ensures BusyCount(chain[k := c]) == BusyCount(chain) - 1
  {
    if k == 0 {
      assert chain[k := c][1..] == chain[1..];
    } else {
      assert chain[k := c][1..] == chain[1..][k - 1 := c];
      SettledCount(chain[1..], k - 1, c);
    }
  }

  // ---- In a state that satisfies the invariant no query is missing ----

  lemma {:induction false} AwaitingAppend<Q>(a: seq<Chain<Q>>, b: seq<Chain<Q>>)
    ensures Awaiting(a + b) == Awaiting(a) + Awaiting(b)
  {
    if a == [] {
      assert a + b == b;
    } else {
      assert (a + b)[1..] == a[1..] + b;
      AwaitingAppend(a[1..], b);
    }
  }

  lemma {:induction false} BusyAppend<Q>(a: Chain<Q>, b: Chain<Q>)
    ensures BusyCount(a + b) == BusyCount(a) + BusyCount(b)
  {
    if a == [] {
      assert a + b == b;
    } else {
      assert (a + b)[1..] == a[1..] + b && (a + b)[0] == a[0];
      BusyAppend(a[1..], b);
    }
  }

  /** Every busy context of the ring can be reached. */
  lemma {:induction false} AwaitingLive<Q>(chains: seq<Chain<Q>>)
    requires forall i | 0 <= i < |chains| :: Live(chains[i])
    ensures Awaiting(chains) == BusyCount(Flatten(chains))
  {
    if chains != [] {
      AwaitingLive(chains[1..]);
      BusyAppend(chains[0], Flatten(chains[1..]));
    }
  }

  lemma AwaitingRing<Q>(r: Ring<Q>)
    requires Valid(r)
    ensures Awaiting(r.slots) == BusyCount(Flatten(Chains(r)))
  {
    assert r.slots[..r.read] + r.slots[r.read..] == r.slots;
    AwaitingAppend(r.slots[..r.read], r.slots[r.read..]);
    AwaitingAppend(r.slots[r.read..], r.slots[..r.read]);
    var chains, rest := Chains(r), Rotated(r)[r.count..];
    assert Rotated(r) == chains + rest;
    AwaitingAppend(chains, rest);
    NothingAwaited(rest);
    AwaitingLive(chains);
  }

  /** A stretch whose first `n` contexts are settled and whose others are busy. */
  lemma {:induction false} BusyFrom<Q>(chain: Chain<Q>, n: nat)
    requires n <= |chain| && forall i | 0 <= i < |chain| :: chain[i].ret == Busy <==> i >= n
    ensures BusyCount(chain) == |chain| - n
  {
    if chain != [] {
      BusyFrom(chain[1..], if n > 0 then n - 1 else 0);
    }
  }

  lemma MatchedBusy<Q>(cs: Chain<Q>, log: Log<Q>, i: nat)
    requires AllMatch(cs, log) && i < |cs|
    ensures cs[i].ret == Busy <==> i >= |log.answers|
  {
    assert Matches(cs[i], log, i);
  }

  /** The contexts in the ring are those between the completed chains and the current one. */
  lemma ParkedBusy<Q>(w: Worker<Q>)
    requires Valid(w.ring) && AllMatch(Contexts(w), w.log) && FrontIsNext(w)
    ensures var base, parked := |Flatten(w.log.done)|, Flatten(Chains(w.ring));
      && base <= |w.log.answers| <= base + |parked|
      && BusyCount(parked) == |parked| - (|w.log.answers| - base)
      && AllBusy(w.current)
  {
    var base, parked := |Flatten(w.log.done)|, Flatten(Chains(w.ring));
    if w.ring.count > 0 {
      FrontContexts(w);
      assert parked == Chains(w.ring)[0] + Flatten(Chains(w.ring)[1..]);
    }
    forall i | 0 <= i < |parked|
      ensures parked[i].ret == Busy <==> i >= |w.log.answers| - base
    {
      assert Contexts(w)[base + i] == parked[i];
      MatchedBusy(Contexts(w), w.log, base + i);
    }
    BusyFrom(parked, |w.log.answers| - base);
    forall i | 0 <= i < |w.current|
      ensures w.current[i].ret == Busy
    {
      assert Contexts(w)[base + |parked| + i] == w.current[i];
      MatchedBusy(Contexts(w), w.log, base + |parked| + i);
    }
  }

  lemma {:induction false} LastOfChain<Q>(chains: seq<Chain<Q>>, i: nat)
    requires i < |chains| && chains[i] != []
    ensures var k := |Flatten(chains[..i + 1])| - 1; var all := Flatten(chains);
      0 <= k < |all| && all[k] == chains[i][|chains[i]| - 1] && |chains[0]| - 1 <= k
  {
    assert chains == chains[..i + 1] + chains[i + 1..] && chains[..i + 1] == chains[..i] + [chains[i]];
    FlattenAppend(chains[..i + 1], chains[i + 1..]);
    FlattenSnoc(chains[..i], chains[i]);
    assert Flatten(chains[..i + 1]) == chains[0] + Flatten(chains[..i + 1][1..]);
  }

  lemma ParkedLastBusy<Q>(w: Worker<Q>)
    requires Valid(w.ring) && AllMatch(Contexts(w), w.log) && FrontIsNext(w)
    ensures LastBusy(w.ring.slots)
  {
    forall i | 0 <= i < |w.ring.slots| && w.ring.slots[i] != []
      ensures w.ring.slots[i][|w.ring.slots[i]| - 1].ret == Busy
    {
      var r := w.ring;
      var j := if i >= r.read then i - r.read else |r.slots| - r.read + i;
      assert Rotated(r)[j] == r.slots[i];
      assert j < r.count && Chains(r)[j] == r.slots[i];
      LastOfChain(Chains(r), j);
      var k := |Flatten(Chains(r)[..j + 1])| - 1;
      assert Contexts(w)[|Flatten(w.log.done)| + k] == Flatten(Chains(r))[k];
      MatchedBusy(Contexts(w), w.log, |Flatten(w.log.done)| + k);
    }
  }

  lemma InvIsShort<Q>(w: Worker<Q>)
    requires Inv(w)
    ensures Short(w, 0)
  {
    AwaitingRing(w.ring);
    ParkedBusy(w);
    ParkedLastBusy(w);
  }

  lemma DoneKeepsShort<Q>(w: Worker<Q>, d: nat)
    requires Shape(w.ring) && Short(w, d)
    ensures Short(OnDone(w), d)
  {
    if w.current != [] && !LooksTaken(w.ring) {
      AwaitingUpdate(w.ring.slots, w.ring.write, w.current);
    }
  }

  /** A chain that does not fit takes at least one query with it. */
  lemma DoneLoses<Q>(w: Worker<Q>)
    requires Valid(w.ring) && Short(w, 0) && !Fits(w, Done)
    ensures Short(OnDone(w), 1)
  {
    if !LooksTaken(w.ring) {
      AwaitingUpdate(w.ring.slots, w.ring.write, w.current);
      var oldest := w.ring.slots[w.ring.write];
      if w.ring.count == |w.ring.slots| {
        assert oldest == Rotated(w.ring)[0];
        SomeBusy(oldest, |oldest| - 1);
      }
    }
  }

  lemma ResultKeepsShort<Q>(w: Worker<Q>, a: Answer, d: nat)
    requires Shape(w.ring) && Short(w, d)
    ensures Short(OnResult(w, a), d)
  {
    var slots, read := w.ring.slots, w.ring.read;
    var front := slots[read];
    if Live(front) {
      var k := Target(front);
      var front' := front[k := Settle(front[k], a)];
      SettledCount(front, k, Settle(front[k], a));
      AwaitingUpdate(slots, read, front');
      if k == |front| - 1 {
        AwaitingUpdate(slots[read := front'], read, []);
      }
    }
  }

  lemma {:induction false} RunKeepsShort<Q>(w: Worker<Q>, steps: seq<Step<Q>>, d: nat)
    requires Shape(w.ring) && Short(w, d)
    ensures Short(Run(w, steps), d)
    decreases steps
  {
    if steps != [] {
      match steps[0] {
        case Done => DoneKeepsShort(w, d);
        case Result(a) => ResultKeepsShort(w, a, d);
        case _ =>
      }
      RunKeepsShort(Apply(w, steps[0]), steps[1..], d);
    }
  }

  /** From any state of the invariant: whatever happens after a chain that does not fit, a query stays without the
      answer that belongs to it. Once every query has been answered, some answer has reached no handler. */
  lemma LostForGood<Q>(w: Worker<Q>, steps: seq<Step<Q>>)
    requires Inv(w) && !Fits(w, Done)
    ensures var v := Run(OnDone(w), steps);
      && |v.log.hits| < |v.log.sent|
      && (|v.log.answers| == |v.log.sent| ==> |v.log.hits| < |v.log.answers| && !HitsInOrder(v.log))
  {
    InvIsShort(w);
    DoneLoses(w);
    RunKeepsShort(OnDone(w), steps, 1);
  }

  lemma {:induction false} HandledIff<Q>(w: Worker<Q>, steps: seq<Step<Q>>)
    requires Inv(w) && Possible(w, steps)
    requires |Run(w, steps).log.answers| == |Run(w, steps).log.sent|
    ensures AllFit(w, steps) ==> HitsInOrder(Run(w, steps).log)
    ensures !AllFit(w, steps) ==> |Run(w, steps).log.hits| < |Run(w, steps).log.answers|
    decreases steps
  {
    if steps != [] {
      if Fits(w, steps[0]) {
        StepKeepsInvIff(w, steps[0]);
        HandledIff(Apply(w, steps[0]), steps[1..]);
      } else {
        LostForGood(w, steps[1..]);
      }
    }
  }

  /** In any run at whose end every query has been answered, every answer has reached a handler exactly when
      every chain fitted, and then the i-th answer that of the i-th query. */
  lemma EveryAnswerIsHandledIff<Q>(size: nat, steps: seq<Step<Q>>)
    requires size > 0 && Possible(Init(size), steps)
    requires |Run(Init(size), steps).log.answers| == |Run(Init(size), steps).log.sent|
    ensures var log := Run(Init(size), steps).log;
      && (|log.hits| == |log.answers| <==> AllFit(Init(size), steps))
      && (HitsInOrder(log) <==> AllFit(Init(size), steps))
  {
    InitInv<Q>(size);
    HandledIff(Init(size), steps);
  }

  // ---- One event more than there are slots ----

  /** An event of one query. */
  function Event<Q>(client: nat, req: Request<Q>): seq<Step<Q>> {
    [SetClient(client), Send(req), Done]
  }

  /** One event for each query, with no answer in between. */
  function Burst<Q>(client: nat, reqs: seq<Request<Q>>): seq<Step<Q>> {
    if reqs == [] then [] else Burst(client, reqs[..|reqs| - 1]) + Event(client, reqs[|reqs| - 1])
  }

  /** Answers that each complete a chain of one context. */
  function Drain<Q>(answers: seq<Answer>): seq<Step<Q>> {
    if answers == [] then [] else [Result(answers[0]), Exec] + Drain(answers[1..])
  }

  ghost predicate AtRest<Q>(w: Worker<Q>) {
    w.current == [] && w.running == []
  }

  /** The ring holds one chain of one context for each query. */
  ghost predicate Parked<Q>(w: Worker<Q>, client: nat, reqs: seq<Request<Q>>) {
    && Valid(w.ring) && w.ring.count == |reqs|
    && forall i | 0 <= i < |reqs| :: reqs[i].exec.Some? && Chains(w.ring)[i] == [Fresh(reqs[i], client)]
  }

  /** Nothing has been answered yet. */
  ghost predicate Flooded<Q>(w: Worker<Q>, size: nat, client: nat, reqs: seq<Request<Q>>) {
    && AtRest(w) && Parked(w, client, reqs) && |w.ring.slots| == size
    && w.log.sent == reqs && w.log.answers == [] && w.log.hits == []
  }

  /** `w'` is `w` after an event of one query whose chain the ring was given. */
  ghost predicate AfterEvent<Q>(w: Worker<Q>, client: nat, req: Request<Q>, w': Worker<Q>)
    requires Shape(w.ring)
  {
    && AtRest(w') && w'.ring == Enqueue(w.ring, [Fresh(req, client)])
    && w'.log.sent == w.log.sent + [req] && w'.log.answers == w.log.answers && w'.log.hits == w.log.hits
  }

  lemma RunEvent<Q>(w: Worker<Q>, client: nat, req: Request<Q>)
    requires Shape(w.ring) && AtRest(w)
    ensures Possible(w, Event(client, req)) && AfterEvent(w, client, req, Run(w, Event(client, req)))
  {
    var s := Event(client, req);
    assert s[1..] == [Send(req), Done] && s[1..][1..] == [Step<Q>.Done] && [Step<Q>.Done][1..] == [];
    var v := OnSend(w.(client := client), req);
    assert Run(v, [Done]) == Run(OnDone(v), []);
    assert v.current == [Fresh(req, client)];
  }

  lemma RunAnswer<Q>(w: Worker<Q>, a: Answer)
    requires Shape(w.ring) && AtRest(w) && |w.log.answers| < |w.log.sent| && OnResult(w, a).running != []
    ensures Possible(w, [Result(a), Exec])
    ensures Run(w, [Result(a), Exec]) == OnExec(OnResult(w, a))
  {
    var s := [Result(a), Step<Q>.Exec];
    assert s[1..] == [Step<Q>.Exec] && [Step<Q>.Exec][1..] == [];
    var v := OnResult(w, a);
    assert Run(v, [Exec]) == Run(OnExec(v), []);
  }

  lemma EventParks<Q>(w: Worker<Q>, size: nat, client: nat, reqs: seq<Request<Q>>, req: Request<Q>, w': Worker<Q>)
    requires Flooded(w, size, client, reqs) && |reqs| < size && req.exec.Some? && AfterEvent(w, client, req, w')
    ensures Flooded(w', size, client, reqs + [req])
  {
    EnqueueIsAppend(w.ring, [Fresh(req, client)]);
  }

  function Hits<Q>(reqs: seq<Request<Q>>, answers: seq<Answer>): seq<Hit<Q>>
    requires |answers| <= |reqs|
  {
    seq(|answers|, i requires 0 <= i < |answers| => Hit(reqs[i], answers[i]))
  }

  /** Between `w` and `w'` these answers have reached the handlers of these queries. */
  ghost predicate Answered<Q>(w: Worker<Q>, reqs: seq<Request<Q>>, answers: seq<Answer>, w': Worker<Q>) {
    && |answers| == |reqs|
    && w'.log.sent == w.log.sent && w'.log.answers == w.log.answers + answers
    && w'.log.hits == w.log.hits + Hits(reqs, answers)
  }

  lemma AnsweredFirst<Q>(w: Worker<Q>, reqs: seq<Request<Q>>, answers: seq<Answer>, v: Worker<Q>, w': Worker<Q>)
    requires reqs != [] && answers != [] && Answered(w, [reqs[0]], [answers[0]], v)
    requires Answered(v, reqs[1..], answers[1..], w')
    ensures Answered(w, reqs, answers, w')
  {
    assert [answers[0]] + answers[1..] == answers;
    assert Hits(reqs, answers) == Hits([reqs[0]], [answers[0]]) + Hits(reqs[1..], answers[1..]);
  }

  ghost predicate Reaches<Q>(w: Worker<Q>, steps: seq<Step<Q>>, w': Worker<Q>) {
    Shape(w.ring) && Possible(w, steps) && Run(w, steps) == w'
  }

  lemma ReachesTwice<Q>(u: Worker<Q>, a: seq<Step<Q>>, v: Worker<Q>, b: seq<Step<Q>>, w: Worker<Q>)
    requires Reaches(u, a, v) && Reaches(v, b, w)
    ensures Reaches(u, a + b, w)
  {
    RunSplit(u, a, b);
  }

  /** The answer to the only context of the front chain goes to its handler and completes it. */
  lemma AnswerCompletes<Q>(w: Worker<Q>, client: nat, reqs: seq<Request<Q>>, a: Answer) returns (w': Worker<Q>)
    requires AtRest(w) && Parked(w, client, reqs) && reqs != [] && |w.log.answers| < |w.log.sent|
    ensures Reaches(w, [Result(a), Exec], w')
    ensures AtRest(w') && Parked(w', client, reqs[1..]) && Answered(w, [reqs[0]], [a], w')
  {
    PeekIsFront(w.ring);
    SettledChains(w.ring, a);
    DequeueIsTail(Settled(w.ring, a));
    RunAnswer(w, a);
    w' := OnExec(OnResult(w, a));
    assert Chains(Dequeue(Settled(w.ring, a))) == Chains(w.ring)[1..];
  }

  lemma {:induction false} DrainCompletes<Q>(w: Worker<Q>, client: nat, reqs: seq<Request<Q>>, answers: seq<Answer>)
    returns (w': Worker<Q>)
    requires AtRest(w) && Parked(w, client, reqs) && |answers| == |reqs|
    requires |w.log.answers| + |answers| <= |w.log.sent|
    ensures Reaches(w, Drain<Q>(answers), w')
    ensures AtRest(w') && Parked(w', client, []) && Answered(w, reqs, answers, w')
    decreases answers
  {
    if answers == [] {
      w' := w;
    } else {
      var v := AnswerCompletes(w, client, reqs, answers[0]);
      w' := DrainCompletes(v, client, reqs[1..], answers[1..]);
      ReachesTwice(w, [Result(answers[0]), Exec], v, Drain(answers[1..]), w');
      AnsweredFirst(w, reqs, answers, v, w');
    }
  }

  /** A full ring refuses one more chain exactly when the oldest query has a client. */
  lemma FloodedRefuses<Q>(w: Worker<Q>, size: nat, client: nat, reqs: seq<Request<Q>>, chain: Chain<Q>)
    requires Flooded(w, size, client, reqs) && |reqs| == size > 0
    ensures Enqueue(w.ring, chain) == w.ring <==> Fresh(reqs[0], client).client != 0
    ensures Enqueue(w.ring, chain) != w.ring ==> Enqueue(w.ring, chain).slots[w.ring.read] == chain
    ensures Enqueue(w.ring, chain).read == w.ring.read
  {
    EnqueueWhenFull(w.ring, chain);
  }

  lemma BurstNext<Q>(w: Worker<Q>, client: nat, reqs: seq<Request<Q>>, req: Request<Q>)
    requires Shape(w.ring) && Possible(w, Burst(client, reqs)) && AtRest(Run(w, Burst(client, reqs)))
    ensures Possible(w, Burst(client, reqs + [req]))
    ensures AfterEvent(Run(w, Burst(client, reqs)), client, req, Run(w, Burst(client, reqs + [req])))
  {
    var all := reqs + [req];
    assert all[..|all| - 1] == reqs && all[|all| - 1] == req;
    RunEvent(Run(w, Burst(client, reqs)), client, req);
    RunSplit(w, Burst(client, reqs), Event(client, req));
  }

  lemma {:induction false} BurstFills<Q>(size: nat, client: nat, reqs: seq<Request<Q>>)
    requires 0 < size && |reqs| <= size && forall r | r in reqs :: r.exec.Some?
    ensures Possible(Init<Q>(size), Burst(client, reqs))
    ensures Flooded(Run(Init<Q>(size), Burst(client, reqs)), size, client, reqs)
  {
    if reqs == [] {
      EmptyValid<Q>(size);
    } else {
      var before, last := reqs[..|reqs| - 1], reqs[|reqs| - 1];
      BurstFills(size, client, before);
      assert before + [last] == reqs;
      BurstNext(Init<Q>(size), client, before, last);
      EventParks(Run(Init<Q>(size), Burst(client, before)), size, client, before, last,
        Run(Init<Q>(size), Burst(client, reqs)));
    }
  }

  /** `w` is the state after as many events as there are slots, and one more. */
  ghost predicate Overflowed<Q>(full: Worker<Q>, client: nat, reqs: seq<Request<Q>>, w: Worker<Q>)
    requires |reqs| > 0
  {
    var n := |reqs| - 1;
    && Flooded(full, n, client, reqs[..n]) && AfterEvent(full, client, reqs[n], w)
    && w.log.sent == reqs && w.log.answers == [] && w.log.hits == []
  }

  lemma BurstOverflows<Q>(client: nat, reqs: seq<Request<Q>>)
    requires |reqs| > 1 && forall r | r in reqs :: r.exec.Some?
    ensures var n := |reqs| - 1;
      && Possible(Init<Q>(n), Burst(client, reqs))
      && Overflowed(Run(Init<Q>(n), Burst(client, reqs[..n])), client, reqs, Run(Init<Q>(n), Burst(client, reqs)))
  {
    var n := |reqs| - 1;
    assert reqs == reqs[..n] + [reqs[n]];
    BurstFills(n, client, reqs[..n]);
    BurstNext(Init<Q>(n), client, reqs[..n], reqs[n]);
  }

  /** As many answers as there are slots drain the ring after such a burst, and one is owed still. */
  lemma BurstDrains<Q>(client: nat, reqs: seq<Request<Q>>, answers: seq<Answer>, n: nat) returns (v: Worker<Q>)
    requires client != 0 && |reqs| == n + 1 > 1 && |answers| == n && forall r | r in reqs :: r.exec.Some?
    ensures Reaches(Init<Q>(n), Burst(client, reqs) + Drain(answers), v) && AtRest(v) && Parked(v, client, [])
    ensures v.log.sent == reqs && v.log.answers == answers && v.log.hits == Hits(reqs, answers)
  {
    BurstOverflows(client, reqs);
    var full, w := Run(Init<Q>(n), Burst(client, reqs[..n])), Run(Init<Q>(n), Burst(client, reqs));
    FloodedRefuses(full, n, client, reqs[..n], [Fresh(reqs[n], client)]);
    v := DrainCompletes(w, client, reqs[..n], answers);
    ReachesTwice(Init<Q>(n), Burst(client, reqs), w, Drain(answers), v);
    assert Hits(reqs, answers) == Hits(reqs[..n], answers);
  }

  /**
   * One client's event more than there are slots, all in flight at once: every query is sent and answered, but
   * the last answer reaches no handler. The ring of the server has 128 slots.
   */
  lemma OneEventTooMany<Q>(client: nat, reqs: seq<Request<Q>>, answers: seq<Answer>)
    requires client != 0 && |reqs| == |answers| > 1 && forall r | r in reqs :: r.exec.Some?
    ensures var n := |reqs| - 1;
      var steps := Burst(client, reqs) + Drain(answers[..n]) + [Result(answers[n])];
      && Possible(Init<Q>(n), steps)
      && var log := Run(Init<Q>(n), steps).log;
         log.sent == reqs && log.answers == answers && log.hits == Hits(reqs, answers[..n])
  {
    var n := |reqs| - 1;
    var v := BurstDrains(client, reqs, answers[..n], n);
    var u := LastAnswerIsDropped(v, client, answers[n]);
    ReachesTwice(Init<Q>(n), Burst(client, reqs) + Drain(answers[..n]), v, [Result(answers[n])], u);
    assert answers[..n] + [answers[n]] == answers;
  }

  lemma LastAnswerIsDropped<Q>(w: Worker<Q>, client: nat, a: Answer) returns (w': Worker<Q>)
    requires AtRest(w) && Parked(w, client, []) && |w.log.answers| < |w.log.sent|
    ensures Reaches(w, [Result(a)], w') && w'.log == w.log.(answers := w.log.answers + [a])
  {
    w' := OnResult(w, a);
    PeekIsFront(w.ring);
    assert [Step<Q>.Result(a)][1..] == [];
    assert Run(w, [Result(a)]) == Run(OnResult(w, a), []);
  }

  /** Without a client the last chain overwrites the oldest one, and its handler gets the first query's answer. */
  lemma OneEventTooManyWithoutClient<Q>(reqs: seq<Request<Q>>, a: Answer)
    requires |reqs| > 1 && forall r | r in reqs :: r.exec.Some? && r.client == 0
    ensures var n := |reqs| - 1;
      var steps := Burst(0, reqs) + [Result(a)];
      && Possible(Init<Q>(n), steps)
      && var log := Run(Init<Q>(n), steps).log;
         log.sent == reqs && log.answers == [a] && log.hits == [Hit(reqs[n], a)]
  {
    var n := |reqs| - 1;
    var init := Init<Q>(n);
    BurstOverflows(0, reqs);
    var full, w := Run(init, Burst(0, reqs[..n])), Run(init, Burst(0, reqs));
    FloodedRefuses(full, n, 0, reqs[..n], [Fresh(reqs[n], 0)]);
    FirstAnswerGoesTo(w, [Fresh(reqs[n], 0)], a);
    RunSplit(init, Burst(0, reqs), [Result(a)]);
  }

  lemma FirstAnswerGoesTo<Q>(w: Worker<Q>, front: Chain<Q>, a: Answer)
    requires Shape(w.ring) && AtRest(w) && |w.log.answers| < |w.log.sent|
    requires w.ring.slots[w.ring.read] == front && |front| == 1 && Live(front)
    ensures Possible(w, [Result(a)])
    ensures var log := Run(w, [Result(a)]).log;
      && log.sent == w.log.sent && log.answers == w.log.answers + [a]
      && log.hits == w.log.hits + [Hit(front[0].req, a)]
  {
    assert [Step<Q>.Result(a)][1..] == [];
    assert Run(w, [Result(a)]) == Run(OnResult(w, a), []);
  }
}
