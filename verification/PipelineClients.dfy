/** Whose client a context gets: stated over the steps of a run alone. */
module PipelineClients {
  import opened Sequences
  import opened PipelineRing
  import opened PipelineMachine

  /** Whether a query has been sent since the last event or callback ended. */
  function ChainBegun<Q>(steps: seq<Step<Q>>): bool {
    if steps == [] then false
    else
      match steps[|steps| - 1]
      case Send(_) => true
      case Done => false
      case _ => ChainBegun(steps[..|steps| - 1])
  }

  /** The client of the last readable socket, unless a chain that is not empty has been ended since. */
  function ClientAfter<Q>(steps: seq<Step<Q>>): nat {
    if steps == [] then 0
    else
      var before := steps[..|steps| - 1];
      match steps[|steps| - 1]
      case SetClient(c) => c
      case Done => if ChainBegun(before) then 0 else ClientAfter(before)
      case _ => ClientAfter(before)
  }

  /** For every query sent its own client, or else the one of the event. */
  function ClientsOf<Q>(steps: seq<Step<Q>>): seq<nat> {
    if steps == [] then []
    else
      var before := steps[..|steps| - 1];
      ClientsOf(before) +
      match steps[|steps| - 1]
      case Send(req) => [if req.client != 0 then req.client else ClientAfter(before)]
      case _ => []
  }

  /** The i-th context is the i-th client's. */
  ghost predicate HaveClients<Q>(cs: Chain<Q>, clients: seq<nat>) {
    |cs| == |clients| && forall i | 0 <= i < |cs| :: cs[i].client == clients[i]
  }

  ghost predicate Accords<Q>(w: Worker<Q>, steps: seq<Step<Q>>)
    requires Valid(w.ring)
  {
    && w.client == ClientAfter(steps) && (w.current != [] <==> ChainBegun(steps))
    && HaveClients(Contexts(w), ClientsOf(steps))
  }

  lemma Snoc<Q>(steps: seq<Step<Q>>, s: Step<Q>)
    ensures (steps + [s])[..|steps + [s]| - 1] == steps && (steps + [s])[|steps + [s]| - 1] == s
  {
  }

  lemma SendAccords<Q>(w: Worker<Q>, steps: seq<Step<Q>>, req: Request<Q>)
    requires Valid(w.ring) && Accords(w, steps)
    ensures Accords(OnSend(w, req), steps + [Send(req)])
  {
    Snoc(steps, Send(req));
    assert Contexts(OnSend(w, req)) == Contexts(w) + [Fresh(req, w.client)];
  }

  lemma DoneAccords<Q>(w: Worker<Q>, steps: seq<Step<Q>>)
    requires Valid(w.ring) && Accords(w, steps) && Fits(w, Done)
    ensures Valid(OnDone(w).ring) && Accords(OnDone(w), steps + [Done])
  {
    Snoc(steps, Done);
    if w.current != [] {
      DoneContexts(w);
    }
    assert ClientsOf(steps) + [] == ClientsOf(steps);
  }

  lemma ResultAccords<Q>(w: Worker<Q>, steps: seq<Step<Q>>, a: Answer, w': Worker<Q>)
    requires Valid(w.ring) && Accords(w, steps) && SameClients(w, w')
    ensures Accords(w', steps + [Result(a)])
  {
    Snoc(steps, Result(a));
    assert ClientsOf(steps) + [] == ClientsOf(steps);
  }

  /** A result and a callback leave the client and the current chain alone. */
  lemma ResultFields<Q>(w: Worker<Q>, a: Answer)
    requires Shape(w.ring)
    ensures OnResult(w, a).client == w.client && OnResult(w, a).current == w.current
  {
  }

  lemma OtherAccords<Q>(w: Worker<Q>, steps: seq<Step<Q>>, s: Step<Q>)
    requires Valid(w.ring) && Accords(w, steps) && (s.SetClient? || s.Exec?)
    ensures Valid(Apply(w, s).ring) && Accords(Apply(w, s), steps + [s])
  {
    Snoc(steps, s);
    assert Contexts(Apply(w, s)) == Contexts(w);
    assert ClientsOf(steps) + [] == ClientsOf(steps);
  }

  /** No context changes hands. */
  ghost predicate SameClients<Q>(w: Worker<Q>, w': Worker<Q>)
    requires Valid(w.ring)
  {
    && Valid(w'.ring) && w'.client == w.client && w'.current == w.current && |Contexts(w')| == |Contexts(w)|
    && forall i | 0 <= i < |Contexts(w)| :: Contexts(w')[i].client == Contexts(w)[i].client
  }

  lemma ResultKeepsClients<Q>(w: Worker<Q>, a: Answer)
    requires Inv(w) && Enabled(w, Result(a))
    ensures SameClients(w, OnResult(w, a))
  {
    ResultContexts(w, a);
    ResultFields(w, a);
  }

  lemma StepAccords<Q>(w: Worker<Q>, steps: seq<Step<Q>>, s: Step<Q>)
    requires Valid(w.ring) && Accords(w, steps) && Fits(w, s)
    requires s.Result? ==> SameClients(w, OnResult(w, s.answer))
    ensures Valid(Apply(w, s).ring) && Accords(Apply(w, s), steps + [s])
  {
    match s
    case Send(req) => SendAccords(w, steps, req);
    case Done => DoneAccords(w, steps);
    case Result(a) => ResultAccords(w, steps, a, OnResult(w, a));
    case _ => OtherAccords(w, steps, s);
  }

  lemma NextAccords<Q>(w: Worker<Q>, steps: seq<Step<Q>>, s: Step<Q>)
    requires Inv(w) && Accords(w, steps) && Enabled(w, s) && Fits(w, s)
    ensures Valid(Apply(w, s).ring) && Accords(Apply(w, s), steps + [s])
  {
    if s.Result? {
      ResultKeepsClients(w, s.answer);
    }
    StepAccords(w, steps, s);
  }

  lemma {:induction false} RunAccords<Q>(w: Worker<Q>, before: seq<Step<Q>>, steps: seq<Step<Q>>)
    requires Inv(w) && Accords(w, before) && Possible(w, steps) && AllFit(w, steps)
    ensures Valid(Run(w, steps).ring) && Accords(Run(w, steps), before + steps)
    decreases steps
  {
    if steps == [] {
      assert before + steps == before;
    } else {
      StepKeepsInvIff(w, steps[0]);
      NextAccords(w, before, steps[0]);
      RunAccords(Apply(w, steps[0]), before + [steps[0]], steps[1..]);
      assert before + [steps[0]] + steps[1..] == before + steps;
    }
  }

  /** In every run the context of the i-th query sent belongs to the client that its request names, or else to the
      client whose socket last became readable, or to none if a chain that is not empty has been ended since. */
  lemma ContextsHaveTheirClients<Q>(size: nat, steps: seq<Step<Q>>)
    requires size > 0 && Possible(Init(size), steps) && AllFit(Init(size), steps)
    ensures var w := Run(Init(size), steps);
      && Valid(w.ring) && |Contexts(w)| == |ClientsOf(steps)| == |w.log.sent|
      && forall i | 0 <= i < |Contexts(w)| ::
           Contexts(w)[i].req == w.log.sent[i] && Contexts(w)[i].client == ClientsOf(steps)[i]
  {
    InitInv<Q>(size);
    EmptyValid<Q>(size);
    RunAccords(Init<Q>(size), [], steps);
    assert [] + steps == steps;
    AnswersReachTheirQueries(size, steps);
    var w := Run(Init<Q>(size), steps);
    forall i | 0 <= i < |Contexts(w)|
      ensures Contexts(w)[i].req == w.log.sent[i]
    {
      assert Matches(Contexts(w)[i], w.log, i);
    }
  }

  /** So a callback that has an error to report reports it to the client of its own query. */
  lemma CallbacksHaveTheirClients<Q>(size: nat, steps: seq<Step<Q>>, c: Ctx<Q>)
    requires size > 0 && Possible(Init(size), steps) && AllFit(Init(size), steps)
    requires c in Run(Init<Q>(size), steps).log.ran
    ensures var log := Run(Init<Q>(size), steps).log;
      exists i | 0 <= i < |ClientsOf(steps)| && i < |log.sent| ::
        c.req == log.sent[i] && c.client == ClientsOf(steps)[i]
  {
    ContextsHaveTheirClients(size, steps);
    EveryCallbackRuns(size, steps, c);
    var w := Run(Init<Q>(size), steps);
    var i :| 0 <= i < |Flatten(w.log.done)| && Flatten(w.log.done)[i] == c;
    assert Contexts(w)[i] == c;
  }

  // ---- What a run sends, takes and parks ----

  /** The queries sent, in order. */
  function SentIn<Q>(steps: seq<Step<Q>>): seq<Request<Q>> {
    if steps == [] then []
    else SentIn(steps[..|steps| - 1]) + match steps[|steps| - 1] case Send(req) => [req] case _ => []
  }

  /** The answers taken, in order. */
  function AnswersIn<Q>(steps: seq<Step<Q>>): seq<Answer> {
    if steps == [] then []
    else AnswersIn(steps[..|steps| - 1]) + match steps[|steps| - 1] case Result(a) => [a] case _ => []
  }

  /** The queries sent since the last event or callback ended. */
  function OpenChain<Q>(steps: seq<Step<Q>>): seq<Request<Q>> {
    if steps == [] then []
    else
      match steps[|steps| - 1]
      case Send(req) => OpenChain(steps[..|steps| - 1]) + [req]
      case Done => []
      case _ => OpenChain(steps[..|steps| - 1])
  }

  /** The queries of each event or callback that has sent any and ended. */
  function ParkedIn<Q>(steps: seq<Step<Q>>): seq<seq<Request<Q>>> {
    if steps == [] then []
    else
      var before := steps[..|steps| - 1];
      ParkedIn(before) + if steps[|steps| - 1].Done? && OpenChain(before) != [] then [OpenChain(before)] else []
  }

  ghost predicate LogSays<Q>(w: Worker<Q>, steps: seq<Step<Q>>) {
    && w.log.sent == SentIn(steps) && w.log.answers == AnswersIn(steps) && w.log.parked == ParkedIn(steps)
    && Requests(w.current) == OpenChain(steps)
  }

  lemma StepSays<Q>(w: Worker<Q>, steps: seq<Step<Q>>, s: Step<Q>)
    requires Shape(w.ring) && LogSays(w, steps)
    ensures LogSays(Apply(w, s), steps + [s])
  {
    Snoc(steps, s);
    assert SentIn(steps) + [] == SentIn(steps) && AnswersIn(steps) + [] == AnswersIn(steps);
    assert ParkedIn(steps) + [] == ParkedIn(steps);
    match s
    case Send(req) => assert Requests(w.current + [Fresh(req, w.client)]) == Requests(w.current) + [req];
    case Done => assert |Requests(w.current)| == |w.current|;
    case Result(a) => ResultFields(w, a);
    case _ =>
  }

  /** A run does its steps one after the other, and its history is that of the steps: what was sent, what was answered,
      and how the queries were grouped. */
  lemma {:induction false} RunSays<Q>(size: nat, steps: seq<Step<Q>>)
    requires size > 0
    ensures LogSays(Run(Init(size), steps), steps)
    decreases |steps|
  {
    if steps != [] {
      var before, s := steps[..|steps| - 1], steps[|steps| - 1];
      assert steps == before + [s];
      RunSays(size, before);
      RunSplit(Init(size), before, [s]);
      assert [s][1..] == [];
      StepSays(Run(Init(size), before), before, s);
    }
  }
}
