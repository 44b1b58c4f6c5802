/** The pipeline as the program runs it: a ring over an array, a current chain and the result loop, each
    proved to take the steps of the machine. */
module PipelineWorker {
  import opened Sequences
  import opened PipelineRing
  import PM = PipelineMachine

  class PipelineQueue<Q> {
    const slots: array<Chain<Q>>
    var read: nat
    var write: nat
    var count: nat

    ghost function Value(): (r: Ring<Q>)
      reads this, slots
    {
      Ring(slots[..], read, write, count)
    }

    constructor (size: nat)
      requires size > 0
      ensures Value() == Empty(size) && fresh(slots)
    {
      slots := new Chain<Q>[size](_ => []);
      read, write, count := 0, 0, 0;
    }

    /** Refuses, with -1, when the slot at the write pointer has a client. */
    method Enqueue(chain: Chain<Q>) returns (ret: int)
      requires Shape(Value())
      modifies this, slots
      ensures Value() == PipelineRing.Enqueue(old(Value()), chain)
      ensures ret == if LooksTaken(old(Value())) then -1 else 0
    {
      if slots[write] != [] && slots[write][0].client != 0 {
        return -1;
      }
      slots[write] := chain;
      write := if write >= slots.Length - 1 then 0 else write + 1;
      count := count + 1;
      return 0;
    }

    method Peek() returns (front: Option<Chain<Q>>)
      requires Shape(Value())
      ensures front == PipelineRing.Peek(Value())
    {
      var c := slots[read];
      front := if c == [] || c[0].req.exec.None? then None else Some(c);
    }

    method Dequeue() returns (chain: Chain<Q>)
      requires Shape(Value()) && Live(slots[read])
      modifies this, slots
      ensures Value() == PipelineRing.Dequeue(old(Value()))
      ensures chain == old(slots[read])
    {
      chain := slots[read];
      slots[read] := [];
      read := if read >= slots.Length - 1 then 0 else read + 1;
      count := if count > 0 then count - 1 else 0;
    }
  }

  /** What reading the connection yields. */
  datatype Message = Sync | Res(answer: Answer)

  function Answers(messages: seq<Message>): seq<Answer> {
    if messages == [] then []
    else (if messages[0].Res? then [messages[0].answer] else []) + Answers(messages[1..])
  }

  function Arrivals<Q>(steps: seq<PM.Step<Q>>): seq<Answer> {
    if steps == [] then []
    else (if steps[0].Result? then [steps[0].answer] else []) + Arrivals(steps[1..])
  }

  lemma {:induction false} ArrivalsAppend<Q>(a: seq<PM.Step<Q>>, b: seq<PM.Step<Q>>)
    ensures Arrivals(a + b) == Arrivals(a) + Arrivals(b)
  {
    if a == [] {
      assert a + b == b;
    } else {
      assert (a + b)[1..] == a[1..] + b && (a + b)[0] == a[0];
      ArrivalsAppend(a[1..], b);
      var first := if a[0].Result? then [a[0].answer] else [];
      assert (first + Arrivals(a[1..])) + Arrivals(b) == first + (Arrivals(a[1..]) + Arrivals(b));
    }
  }

  /** The messages that are not sync markers count, wherever they stand. */
  lemma {:induction false} AnswersAppend(a: seq<Message>, b: seq<Message>)
    ensures Answers(a + b) == Answers(a) + Answers(b)
    ensures Answers([Sync]) == [] && forall x :: Answers([Res(x)]) == [x]
  {
    assert [Sync][1..] == [];
    forall x
      ensures Answers([Res(x)]) == [x]
    {
      assert [Res(x)][1..] == [];
    }
    if a == [] {
      assert a + b == b;
    } else {
      assert (a + b)[1..] == a[1..] + b && (a + b)[0] == a[0];
      AnswersAppend(a[1..], b);
    }
  }

  lemma {:induction false} AnswersSnoc(messages: seq<Message>, m: Message)
    ensures Answers(messages + [m]) == Answers(messages) + (if m.Res? then [m.answer] else [])
  {
    if messages == [] {
      assert [m][1..] == [];
    } else {
      assert (messages + [m])[1..] == messages[1..] + [m] && (messages + [m])[0] == messages[0];
      AnswersSnoc(messages[1..], m);
      var first := if messages[0].Res? then [messages[0].answer] else [];
      var last := if m.Res? then [m.answer] else [];
      assert (first + Answers(messages[1..])) + last == first + (Answers(messages[1..]) + last);
    }
  }

  /** The queries that a callback sends, if there is one. */
  function Sent<Q>(exec: Option<seq<Request<Q>>>): seq<Request<Q>> {
    match exec
    case None => []
    case Some(reqs) => reqs
  }

  /** The queries that the callbacks of a chain send, in order. */
  function Queries<Q>(chain: Chain<Q>): seq<Request<Q>> {
    if chain == [] then [] else Sent(chain[0].req.exec) + Queries(chain[1..])
  }

  lemma {:induction false} QueriesAppend<Q>(a: Chain<Q>, b: Chain<Q>)
    ensures Queries(a + b) == Queries(a) + Queries(b)
  {
    if a == [] {
      assert a + b == b;
    } else {
      assert (a + b)[1..] == a[1..] + b && (a + b)[0] == a[0];
      QueriesAppend(a[1..], b);
    }
  }

  /** The steps of an event or a callback that sends these queries. */
  function EventSteps<Q>(reqs: seq<Request<Q>>): seq<PM.Step<Q>> {
    seq(|reqs|, i requires 0 <= i < |reqs| => PM.Send(reqs[i])) + [PM.Done]
  }

  /** The steps that call the callbacks of a completed chain, each of which sends its queries. */
  function CallbackSteps<Q>(chain: Chain<Q>): seq<PM.Step<Q>> {
    if chain == [] then []
    else CallbackStep(chain[0].req.exec) + CallbackSteps(chain[1..])
  }

  function CallbackStep<Q>(exec: Option<seq<Request<Q>>>): seq<PM.Step<Q>> {
    match exec
    case None => [PM.Exec]
    case Some(reqs) => [PM.Exec] + EventSteps(reqs)
  }

  lemma NextCallback<Q>(chain: Chain<Q>, i: nat)
    requires i < |chain|
    ensures chain[i..][0] == chain[i] && chain[i..][1..] == chain[i + 1..]
    ensures CallbackSteps(chain[i..]) == CallbackStep(chain[i].req.exec) + CallbackSteps(chain[i + 1..])
    ensures Queries(chain[i..]) == Sent(chain[i].req.exec) + Queries(chain[i + 1..])
  {
    assert chain[i..][1..] == chain[i + 1..];
  }

  lemma Assoc<T>(a: seq<T>, b: seq<T>, c: seq<T>)
    ensures (a + b) + c == a + (b + c)
  {
  }

  /** One more completed chain adds the queries of its callbacks. */
  lemma QueriesOfNext<Q>(done: seq<Chain<Q>>, more: seq<Chain<Q>>)
    ensures Queries(Flatten(done + more)) == Queries(Flatten(done)) + Queries(Flatten(more))
  {
    FlattenAppend(done, more);
    QueriesAppend(Flatten(done), Flatten(more));
  }

  /** The steps that one answer leads to. */
  function ResultSteps<Q>(v: PM.Worker<Q>, a: Answer): seq<PM.Step<Q>>
    requires Shape(v.ring)
  {
    [PM.Result(a)] + CallbackSteps(PM.OnResult(v, a).running)
  }

  function AllResultSteps<Q>(v: PM.Worker<Q>, answers: seq<Answer>): seq<PM.Step<Q>>
    requires Shape(v.ring)
    decreases answers
  {
    if answers == [] then []
    else ResultSteps(v, answers[0]) + AllResultSteps(PM.Run(v, ResultSteps(v, answers[0])), answers[1..])
  }

  /** The answers before and from a message on. */
  lemma MessageSplit(messages: seq<Message>, i: nat)
    requires i < |messages|
    ensures messages[i].Res? ==>
      && Answers(messages[..i + 1]) == Answers(messages[..i]) + [messages[i].answer]
      && Answers(messages[i..]) == [messages[i].answer] + Answers(messages[i + 1..])
    ensures !messages[i].Res? ==>
      Answers(messages[..i + 1]) == Answers(messages[..i]) && Answers(messages[i..]) == Answers(messages[i + 1..])
  {
    AnswersSnoc(messages[..i], messages[i]);
    assert messages[..i + 1] == messages[..i] + [messages[i]];
    assert messages[i..][1..] == messages[i + 1..];
  }

  /** `steps` lead from `v` to `w`, are all enabled, and consume just these answers. */
  ghost predicate Leads<Q>(v: PM.Worker<Q>, steps: seq<PM.Step<Q>>, w: PM.Worker<Q>, answers: seq<Answer>) {
    && Shape(v.ring) && PM.Possible(v, steps) && PM.Run(v, steps) == w
    && Arrivals(steps) == answers
  }

  lemma LeadsOne<Q>(v: PM.Worker<Q>, s: PM.Step<Q>)
    requires Shape(v.ring) && PM.Enabled(v, s)
    ensures Leads(v, [s], PM.Apply(v, s), if s.Result? then [s.answer] else [])
  {
    assert [s][1..] == [];
    assert PM.Run(PM.Apply(v, s), []) == PM.Apply(v, s);
  }

  lemma LeadsTwice<Q>(u: PM.Worker<Q>, a: seq<PM.Step<Q>>, v: PM.Worker<Q>, b: seq<PM.Step<Q>>, w: PM.Worker<Q>,
                      x: seq<Answer>, y: seq<Answer>)
    requires Leads(u, a, v, x) && Leads(v, b, w, y)
    ensures Leads(u, a + b, w, x + y)
  {
    PM.RunSplit(u, a, b);
    ArrivalsAppend(a, b);
  }

  /** One more step that consumes no answer. */
  lemma LeadsOn<Q>(u: PM.Worker<Q>, steps: seq<PM.Step<Q>>, v: PM.Worker<Q>, s: PM.Step<Q>)
    requires Leads(u, steps, v, []) && Shape(v.ring) && PM.Enabled(v, s) && !s.Result?
    ensures Leads(u, steps + [s], PM.Apply(v, s), [])
  {
    LeadsOne(v, s);
    LeadsTwice(u, steps, v, [s], PM.Apply(v, s), [], []);
  }

  lemma KeepsInv<Q>(v: PM.Worker<Q>, steps: seq<PM.Step<Q>>, w: PM.Worker<Q>, answers: seq<Answer>)
    requires Leads(v, steps, w, answers)
    ensures PM.Inv(v) && PM.AllFit(v, steps) ==> PM.Inv(w)
  {
    if PM.Inv(v) && PM.AllFit(v, steps) {
      PM.RunKeepsInv(v, steps);
    }
  }

  lemma ResultStepsOn<Q>(v: PM.Worker<Q>, steps: seq<PM.Step<Q>>, more: seq<PM.Step<Q>>, w: PM.Worker<Q>,
                         a: Answer, rest: seq<Answer>)
    requires Leads(v, more, w, [a]) && more == ResultSteps(v, a)
    ensures steps + AllResultSteps(v, [a] + rest) == (steps + more) + AllResultSteps(w, rest)
  {
    assert ([a] + rest)[1..] == rest;
    Assoc(steps, more, AllResultSteps(w, rest));
  }

  lemma SuffixSplit<T>(a: seq<T>, b: seq<T>, c: seq<T>)
    requires a <= b <= c
    ensures a <= c && c[|a|..] == b[|a|..] + c[|b|..]
  {
  }

  /** `after` has the completed chains of `before` and some more, whose callbacks have sent their queries. */
  ghost predicate Completes<Q>(before: PM.Log<Q>, after: PM.Log<Q>) {
    && before.done <= after.done
    && after.sent == before.sent + Queries(Flatten(after.done[|before.done|..]))
  }

  lemma CompletesTwice<Q>(a: PM.Log<Q>, b: PM.Log<Q>, c: PM.Log<Q>)
    requires Completes(a, b) && Completes(b, c)
    ensures Completes(a, c)
  {
    SuffixSplit(a.done, b.done, c.done);
    var more, rest := b.done[|a.done|..], c.done[|b.done|..];
    QueriesOfNext(more, rest);
    Assoc(a.sent, Queries(Flatten(more)), Queries(Flatten(rest)));
  }

  class Worker<Q> {
    const queue: PipelineQueue<Q>
    var current: Chain<Q>
    var client: nat
    ghost var running: Chain<Q>
    ghost var log: PM.Log<Q>

    ghost function State(): PM.Worker<Q>
      reads this, queue, queue.slots
    {
      PM.Worker(queue.Value(), current, client, running, log)
    }

    constructor (size: nat)
      requires size > 0
      ensures State() == PM.Init(size) && fresh(queue) && fresh(queue.slots)
    {
      queue := new PipelineQueue<Q>(size);
      current, client := [], 0;
      running, log := [], PM.Log([], [], [], [], [], []);
    }

    /** Puts a query on the wire and its context on the current chain, unless the connection refuses it. */
    method AsyncParams(req: Request<Q>, accepted: bool) returns (ret: int)
      modifies this
      ensures State() == if accepted then PM.OnSend(old(State()), req) else old(State())
      ensures ret == 1 <==> accepted
    {
      if !accepted {
        return 0;
      }
      log := log.(sent := log.sent + [req]);
      var ctx := Ctx(req, req.client, Busy, None);
      if ctx.client == 0 {
        ctx := ctx.(client := client);
      }
      if current == [] {
        current := [ctx];
      } else {
        current := current + [ctx];
      }
      return 1;
    }

    /** Hands the current chain to the ring; the ring's answer is not looked at. */
    method CurrentDone()
      requires Shape(State().ring)
      modifies this, queue, queue.slots
      ensures State() == PM.OnDone(old(State()))
    {
      if current == [] {
        return;
      }
      log := log.(parked := log.parked + [PM.Requests(current)]);
      var _ := queue.Enqueue(current);
      current, client := [], 0;
    }

    /** Sends a callback's or an event's queries, then closes its chain. */
    method SendAll(reqs: seq<Request<Q>>) returns (ghost steps: seq<PM.Step<Q>>)
      requires Shape(State().ring)
      modifies this, queue, queue.slots
      ensures Leads(old(State()), steps, State(), []) && steps == EventSteps(reqs)
      ensures log.sent == old(log.sent) + reqs
      ensures current == [] && running == old(running) && log.done == old(log.done)
    {
      steps := [];
      ghost var start := State();
      for i := 0 to |reqs|
        invariant Shape(State().ring) && Leads(start, steps, State(), [])
        invariant |steps| == i && forall j | 0 <= j < i :: steps[j] == PM.Send(reqs[j])
        invariant log.sent == old(log.sent) + reqs[..i]
        invariant running == old(running) && log.done == old(log.done)
        modifies this
      {
        ghost var before := State();
        var _ := AsyncParams(reqs[i], true);
        LeadsOn(start, steps, before, PM.Send(reqs[i]));
        steps := steps + [PM.Send(reqs[i])];
      }
      ghost var before := State();
      CurrentDone();
      LeadsOn(start, steps, before, PM.Done);
      steps := steps + [PM.Done];
    }

    /** Takes up the next context of a completed chain and runs its callback, if it has one. */
    method ExecCmd(ctx: Ctx<Q>) returns (ghost steps: seq<PM.Step<Q>>)
      requires Shape(State().ring) && current == [] && running != [] && running[0] == ctx
      modifies this, queue, queue.slots
      ensures Leads(old(State()), steps, State(), []) && steps == CallbackStep(ctx.req.exec)
      ensures log.sent == old(log.sent) + (match ctx.req.exec case None => [] case Some(reqs) => reqs)
      ensures current == [] && running == old(running)[1..] && log.done == old(log.done)
    {
      ghost var before := State();
      if ctx.req.exec.Some? {
        log := log.(ran := log.ran + [ctx]);
      }
      running := running[1..];
      LeadsOne(before, PM.Step<Q>.Exec);
      steps := [PM.Exec];
      match ctx.req.exec {
        case None => assert log.sent + [] == log.sent;
        case Some(reqs) =>
          ghost var middle := State();
          ghost var more := SendAll(reqs);
          LeadsTwice(before, [PM.Exec], middle, more, State(), [], []);
          steps := [PM.Exec] + more;
      }
    }

    /** Runs the callbacks of a completed chain, in order. */
    method ExecCmdChain(chain: Chain<Q>) returns (ghost steps: seq<PM.Step<Q>>)
      requires Shape(State().ring) && current == [] && running == chain
      modifies this, queue, queue.slots
      ensures Leads(old(State()), steps, State(), []) && steps == CallbackSteps(chain)
      ensures log.sent == old(log.sent) + Queries(chain)
      ensures current == [] && running == [] && log.done == old(log.done)
    {
      steps := [];
      ghost var start := State();
      for i := 0 to |chain|
        invariant running == chain[i..] && current == [] && log.done == old(log.done)
        invariant Leads(start, steps, State(), []) && steps + CallbackSteps(chain[i..]) == CallbackSteps(chain)
        invariant log.sent + Queries(chain[i..]) == old(log.sent) + Queries(chain)
      {
        ghost var before := State();
        NextCallback(chain, i);
        ghost var more := ExecCmd(chain[i]);
        LeadsTwice(start, steps, before, more, State(), [], []);
        Assoc(steps, more, CallbackSteps(chain[i + 1..]));
        Assoc(before.log.sent, Sent(chain[i].req.exec), Queries(chain[i + 1..]));
        steps := steps + more;
      }
    }

    /** Finds the context an answer belongs to: the first busy one of the front chain, or its last. */
    method FindTarget(front: Chain<Q>) returns (k: nat)
      requires front != []
      ensures k == PM.Target(front)
    {
      k := 0;
      while k < |front| - 1 && front[k].ret != Busy
        invariant k < |front|
        invariant forall i | 0 <= i < k :: front[i].ret != Busy
      {
        k := k + 1;
      }
      TargetUnique(front, k);
    }

    /** Handles one result: the handler of the target context runs, and a completed chain leaves the ring. */
    method OneResult(a: Answer) returns (ghost steps: seq<PM.Step<Q>>)
      requires Shape(State().ring) && current == [] && running == [] && |log.answers| < |log.sent|
      modifies this, queue, queue.slots
      ensures Leads(old(State()), steps, State(), [a]) && steps == ResultSteps(old(State()), a)
      ensures Completes(old(log), log)
      ensures current == [] && running == []
    {
      ghost var start := State();
      LeadsOne(start, PM.Step<Q>.Result(a));
      steps := [PM.Result(a)];
      log := log.(answers := log.answers + [a]);
      var peeked := queue.Peek();
      if peeked == None {
        return;  // nothing in the pipeline: the result is dropped
      }
      var front := peeked.value;
      var k := FindTarget(front);
      log := log.(hits := log.hits + [PM.Hit(front[k].req, a)]);
      front := front[k := PM.Settle(front[k], a)];
      queue.slots[queue.read] := front;
      assert queue.Value() == PM.Settled(start.ring, a);
      if k == |front| - 1 {
        var chain := queue.Dequeue();
        log := log.(done := log.done + [chain]);
        running := chain;
        FlattenOne(chain);
        assert log.done[|start.log.done|..] == [chain];
        assert State() == PM.OnResult(start, a);
        ghost var middle := State();
        ghost var more := ExecCmdChain(chain);
        LeadsTwice(start, steps, middle, more, State(), [a], []);
        steps := steps + more;
      } else {
        assert State() == PM.OnResult(start, a);
      }
    }

    /** The result loop over what one visit to the connection yields. */
    method ProcessResults(messages: seq<Message>) returns (ghost steps: seq<PM.Step<Q>>)
      requires Shape(State().ring) && current == [] && running == []
      requires |log.answers| + |Answers(messages)| <= |log.sent|
      modifies this, queue, queue.slots
      ensures Leads(old(State()), steps, State(), Answers(messages))
      ensures steps == AllResultSteps(old(State()), Answers(messages)) && Completes(old(log), log)
      ensures current == [] && running == []
      ensures PM.Inv(old(State())) && PM.AllFit(old(State()), steps) ==> PM.Inv(State())
    {
      steps := [];
      ghost var start := State();
      for i := 0 to |messages|
        invariant Leads(start, steps, State(), Answers(messages[..i]))
        invariant steps + AllResultSteps(State(), Answers(messages[i..])) == AllResultSteps(start, Answers(messages))
        invariant Completes(start.log, log)
        invariant current == [] && running == []
        invariant |log.answers| + |Answers(messages[i..])| <= |log.sent|
      {
        MessageSplit(messages, i);
        if messages[i].Res? {
          ghost var before := State();
          ghost var more := OneResult(messages[i].answer);
          ResultTaken(start, steps, before, more, State(), Answers(messages[..i]), messages[i].answer,
                      Answers(messages[i + 1..]));
          steps := steps + more;
        }
      }
      assert messages[..|messages|] == messages;
      KeepsInv(start, steps, State(), Answers(messages));
    }

    /** One event from a readable client: it sends its queries and ends. */
    method PrepEvent(from: nat, reqs: seq<Request<Q>>) returns (ghost steps: seq<PM.Step<Q>>)
      requires Shape(State().ring) && current == [] && running == []
      modifies this, queue, queue.slots
      ensures Leads(old(State()), steps, State(), []) && steps == [PM.SetClient(from)] + EventSteps(reqs)
      ensures log.sent == old(log.sent) + reqs
      ensures current == [] && running == []
      ensures PM.Inv(old(State())) && PM.AllFit(old(State()), steps) ==> PM.Inv(State())
    {
      ghost var start := State();
      client := from;
      LeadsOne(start, PM.Step<Q>.SetClient(from));
      ghost var middle := State();
      ghost var more := SendAll(reqs);
      LeadsTwice(start, [PM.SetClient(from)], middle, more, State(), [], []);
      steps := [PM.SetClient(from)] + more;
      KeepsInv(start, steps, State(), []);
    }
  }

  /** One more answer of those that the result loop takes. */
  lemma ResultTaken<Q>(start: PM.Worker<Q>, steps: seq<PM.Step<Q>>, v: PM.Worker<Q>, more: seq<PM.Step<Q>>,
                       w: PM.Worker<Q>, taken: seq<Answer>, a: Answer, rest: seq<Answer>)
    requires Leads(start, steps, v, taken) && Leads(v, more, w, [a]) && more == ResultSteps(v, a)
    requires Completes(start.log, v.log) && Completes(v.log, w.log)
    ensures Leads(start, steps + more, w, taken + [a]) && Completes(start.log, w.log)
    ensures (steps + more) + AllResultSteps(w, rest) == steps + AllResultSteps(v, [a] + rest)
    ensures |w.log.answers| == |v.log.answers| + 1 && |w.log.sent| >= |v.log.sent|
  {
    LeadsTwice(start, steps, v, more, w, taken, [a]);
    AnswersCounted(v, more, w, [a]);
    ResultStepsOn(v, steps, more, w, a, rest);
    CompletesTwice(start.log, v.log, w.log);
  }

  lemma TargetUnique<Q>(front: Chain<Q>, k: nat)
    requires k < |front| && (k < |front| - 1 ==> front[k].ret == Busy)
    requires forall i | 0 <= i < k :: front[i].ret != Busy
    ensures k == PM.Target(front)
  {
  }

  lemma StepCounts<Q>(v: PM.Worker<Q>, s: PM.Step<Q>)
    requires Shape(v.ring)
    ensures var w := PM.Apply(v, s);
      w.log.answers == v.log.answers + (if s.Result? then [s.answer] else []) && |w.log.sent| >= |v.log.sent|
  {
  }

  /** Steps add the answers they consume and never forget a query. */
  lemma {:induction false} AnswersCounted<Q>(v: PM.Worker<Q>, steps: seq<PM.Step<Q>>, w: PM.Worker<Q>,
                                             answers: seq<Answer>)
    requires Leads(v, steps, w, answers)
    ensures w.log.answers == v.log.answers + answers
    ensures |w.log.sent| >= |v.log.sent|
    decreases steps
  {
    if steps != [] {
      StepCounts(v, steps[0]);
      AnswersCounted(PM.Apply(v, steps[0]), steps[1..], w, Arrivals(steps[1..]));
    }
  }
}
