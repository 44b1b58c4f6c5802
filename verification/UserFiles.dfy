/** Image files on disk against their rows in the database, across the pipeline. */
module UserFiles {
  import opened Sequences
  import opened PipelineRing
  import PM = PipelineMachine

  type Hash = string

  /** Statements, and whether the database will carry them out. `image` tells whether the media type that a
      release is given leads to the directory that images are written to. */
  datatype Query =
    | InsertFile(hash: Hash, ok: bool)
    | DecrementFile(hash: Hash, ok: bool, image: bool)
    | RefCount(hash: Hash, ok: bool)
    | OtherQuery

  type Rows = map<Hash, int>

  // ---- The table of files ----

  /** Insert a row or increment its count; decrement a count, and let the trigger delete rows that are used up. */
  function Execute(rows: Rows, q: Query): Rows {
    match q
    case InsertFile(h, ok) => if !ok then rows else rows[h := (if h in rows then rows[h] else 0) + 1]
    case DecrementFile(h, ok, _) =>
      if !ok || h !in rows then rows
      else
        var updated := rows[h := rows[h] - 1];
        map k | k in updated && updated[k] > 0 :: updated[k]
    case RefCount(_, _) => rows
    case OtherQuery => rows
  }

  function AnswerTo(rows: Rows, q: Query): Answer {
    match q
    case InsertFile(_, ok) => Answer(if ok then CommandOk else FatalError, [])
    case DecrementFile(_, ok, _) => Answer(if ok then CommandOk else FatalError, [])
    case RefCount(h, ok) => if ok then Answer(TuplesOk, if h in rows then [rows[h]] else []) else Answer(FatalError, [])
    case OtherQuery => Answer(OtherStatus, [])
  }

  predicate Counted(rows: Rows) {
    forall h | h in rows :: rows[h] > 0
  }

  lemma ExecuteKeepsCounted(rows: Rows, q: Query)
    requires Counted(rows)
    ensures Counted(Execute(rows, q))
  {
  }

  // ---- The callbacks ----

  /** The number a reference count's handler stores. */
  function DataSize(c: Ctx<Query>): int {
    match c.answer
    case None => 0
    case Some(a) => if a.status == TuplesOk && a.rows != [] then a.rows[0] else 0
  }

  /** What a file callback does to the disk, given the context behind its own. */
  function Effect(disk: set<Hash>, c: Ctx<Query>, next: Option<Ctx<Query>>): set<Hash> {
    if c.req.exec == None || next == None || c.ret == Error then disk
    else
      match c.req.query
      case InsertFile(h, _) => if DataSize(next.value) == 1 then disk + {h} else disk
      case DecrementFile(h, _, image) => if DataSize(next.value) <= 0 && image then disk - {h} else disk
      case _ => disk
  }

  function SaveRequests(h: Hash, insertOk: bool, selectOk: bool): seq<Request<Query>> {
    [Request(InsertFile(h, insertOk), CommandResult, 0, Some([])),
     Request(RefCount(h, selectOk), TuplesResult, 0, None)]
  }

  function ReleaseRequests(h: Hash, ok: bool, image: bool, selectOk: bool): seq<Request<Query>> {
    [Request(DecrementFile(h, ok, image), CommandResult, 0, Some([])),
     Request(RefCount(h, selectOk), TuplesResult, 0, None)]
  }

  /** A statement about a file comes with a callback, and nothing else does anything to the disk. */
  predicate WellFormed(req: Request<Query>) {
    req.query.InsertFile? || req.query.DecrementFile? ==> req.handler == CommandResult && req.exec.Some?
  }

  /** A file statement with its callback, and the reference count behind it. */
  predicate IsPair(a: Request<Query>, b: Request<Query>) {
    && (a.query.InsertFile? || a.query.DecrementFile?) && WellFormed(a)
    && b.query.RefCount? && b.query.hash == a.query.hash && b.handler == TuplesResult && b.exec == None
  }

  /** A context holds the true answer of a database in this state. */
  predicate Answered(rows: Rows, c: Ctx<Query>) {
    || c.req.query.OtherQuery?
    || (c.answer == Some(AnswerTo(rows, c.req.query)) && c.ret == Verdict(c.req.handler, c.answer.value))
  }

  /** When a callback keeps files and rows in step, given what the context behind it holds: a file that is new is
      written, one that is still in use is left, and one whose row goes is looked for where it was written. */
  predicate CallbackKeeps(rows: Rows, q: Query, next: Option<Ctx<Query>>) {
    match q
    case InsertFile(h, ok) => ok && h !in rows ==> next.Some? && DataSize(next.value) == 1
    case DecrementFile(h, ok, image) =>
      ok && h in rows ==> (rows[h] == 1 <==> image && next.Some? && DataSize(next.value) <= 0)
    case _ => true
  }

  /** After a callback the files are those of the rows again if and only if it keeps step, whatever stands behind
      it: its own reference count, a context of another query if the connection refused that, or nothing. */
  lemma CallbackKeepsStepIff(rows: Rows, disk: set<Hash>, c: Ctx<Query>, next: Option<Ctx<Query>>)
    requires Counted(rows) && disk == rows.Keys && WellFormed(c.req) && Answered(rows, c)
    ensures Effect(disk, c, next) == Execute(rows, c.req.query).Keys <==> CallbackKeeps(rows, c.req.query, next)
  {
    if c.req.query.InsertFile? || c.req.query.DecrementFile? {
      var rows' := Execute(rows, c.req.query);
      var disk' := Effect(disk, c, next);
      var h := c.req.query.hash;
      assert forall k | k != h :: (k in rows' <==> k in rows) && (k in disk' <==> k in disk);
      assert disk' == rows'.Keys <==> (h in disk' <==> h in rows') by {
        if h in disk' <==> h in rows' {
          assert forall k :: k in disk' <==> k in rows'.Keys;
        }
      }
    }
  }

  /** When a pair keeps files and rows in step: a reference count that fails must not hide that the file is new or
      still in use, and a file whose row goes must be looked for where it was written. */
  predicate KeepsStep(rows: Rows, q: Query, selectOk: bool) {
    match q
    case InsertFile(h, ok) => ok && h !in rows ==> selectOk
    case DecrementFile(h, ok, image) => ok && h in rows ==> (if rows[h] > 1 then selectOk || !image else image)
    case _ => true
  }

  /** After the callback of a pair the files are those of the rows again if and only if the pair keeps step. */
  lemma PairKeepsStepIff(rows: Rows, disk: set<Hash>, c: Ctx<Query>, next: Ctx<Query>)
    requires Counted(rows) && disk == rows.Keys && IsPair(c.req, next.req)
    requires Answered(rows, c) && Answered(Execute(rows, c.req.query), next)
    ensures Effect(disk, c, Some(next)) == Execute(rows, c.req.query).Keys
      <==> KeepsStep(rows, c.req.query, next.req.query.ok)
  {
    CallbackKeepsStepIff(rows, disk, c, Some(next));
  }

  // ---- Whole runs ----

  datatype World = World(pipe: PM.Worker<Query>, disk: set<Hash>)

  /** `counted` tells whether the connection takes the second query of a save or a release. */
  datatype Step =
    | Save(hash: Hash, insertOk: bool, selectOk: bool, counted: bool)
    | Release(hash: Hash, ok: bool, image: bool, selectOk: bool, counted: bool)
    | Other(req: Request<Query>)
    | SetClient(client: nat)
    | Done
    | Result(answer: Answer)
    | Exec

  /** The table after these statements. */
  function RowsAfter(rows: Rows, sent: seq<Request<Query>>): Rows {
    if sent == [] then rows else Execute(RowsAfter(rows, sent[..|sent| - 1]), sent[|sent| - 1].query)
  }

  function SendPair(w: PM.Worker<Query>, reqs: seq<Request<Query>>, counted: bool): PM.Worker<Query>
    requires |reqs| == 2
  {
    if counted then PM.OnSend(PM.OnSend(w, reqs[0]), reqs[1]) else PM.OnSend(w, reqs[0])
  }

  function Next(running: Chain<Query>): Option<Ctx<Query>> {
    if |running| > 1 then Some(running[1]) else None
  }

  function Apply(w: World, s: Step): (w': World)
    requires Shape(w.pipe.ring)
    ensures Shape(w'.pipe.ring)
  {
    match s
    case Save(h, insertOk, selectOk, counted) =>
      w.(pipe := SendPair(w.pipe, SaveRequests(h, insertOk, selectOk), counted))
    case Release(h, ok, image, selectOk, counted) =>
      w.(pipe := SendPair(w.pipe, ReleaseRequests(h, ok, image, selectOk), counted))
    case Other(req) => w.(pipe := PM.OnSend(w.pipe, req))
    case SetClient(c) => w.(pipe := w.pipe.(client := c))
    case Done => w.(pipe := PM.OnDone(w.pipe))
    case Result(a) => w.(pipe := PM.OnResult(w.pipe, a))
    case Exec =>
      if w.pipe.running == [] then w
      else World(PM.OnExec(w.pipe), Effect(w.disk, w.pipe.running[0], Next(w.pipe.running)))
  }

  /** The database answers in order, from its state when the statement's turn comes. */
  ghost predicate TrueAnswer(rows: Rows, log: PM.Log<Query>, a: Answer) {
    var n := |log.answers|;
    && n < |log.sent|
    && (log.sent[n].query.OtherQuery? || a == AnswerTo(RowsAfter(rows, log.sent[..n]), log.sent[n].query))
  }

  ghost predicate Enabled(rows: Rows, w: World, s: Step)
    requires Shape(w.pipe.ring)
  {
    match s
    case Save(_, _, _, _) => true
    case Release(_, _, _, _, _) => true
    case Other(req) => req.query.OtherQuery?
    case SetClient(c) => PM.Enabled(w.pipe, PM.SetClient(c))
    case Done => PM.Fits(w.pipe, PM.Done)
    case Result(a) => PM.Enabled(w.pipe, PM.Result(a)) && TrueAnswer(rows, w.pipe.log, a)
    case Exec => PM.Enabled(w.pipe, PM.Step<Query>.Exec)
  }

  function Run(w: World, steps: seq<Step>): (w': World)
    requires Shape(w.pipe.ring)
    ensures Shape(w'.pipe.ring)
    decreases |steps|
  {
    if steps == [] then w else Run(Apply(w, steps[0]), steps[1..])
  }

  ghost predicate Possible(rows: Rows, w: World, steps: seq<Step>)
    requires Shape(w.pipe.ring)
    decreases |steps|
  {
    steps == [] || (Enabled(rows, w, steps[0]) && Possible(rows, Apply(w, steps[0]), steps[1..]))
  }

  /** How many contexts have been dealt with, callbacks included. */
  ghost function Processed(w: PM.Worker<Query>): int {
    |Flatten(w.log.done)| - |w.running|
  }

  /** The table after the statements that have been dealt with. */
  ghost function RowsNow(rows: Rows, w: PM.Worker<Query>): Rows {
    if 0 <= Processed(w) <= |w.log.sent| then RowsAfter(rows, w.log.sent[..Processed(w)]) else rows
  }

  /** The files on disk are those of the table after the statements that have been dealt with. */
  ghost predicate InStep(rows: Rows, w: World) {
    w.disk == RowsNow(rows, w.pipe).Keys
  }

  ghost predicate Keeps(rows: Rows, w: World, s: Step) {
    s.Exec? && w.pipe.running != [] ==>
      CallbackKeeps(RowsNow(rows, w.pipe), w.pipe.running[0].req.query, Next(w.pipe.running))
  }

  ghost predicate AllInStep(rows: Rows, w: World, steps: seq<Step>)
    requires Shape(w.pipe.ring)
    decreases |steps|
  {
    InStep(rows, w) && (steps == [] || AllInStep(rows, Apply(w, steps[0]), steps[1..]))
  }

  ghost predicate AllKeep(rows: Rows, w: World, steps: seq<Step>)
    requires Shape(w.pipe.ring)
    decreases |steps|
  {
    steps == [] || (Keeps(rows, w, steps[0]) && AllKeep(rows, Apply(w, steps[0]), steps[1..]))
  }

  // ---- Every run: answers are true ----

  ghost predicate TrueAt(rows: Rows, log: PM.Log<Query>, i: nat)
    requires i < |log.sent| && i < |log.answers|
  {
    log.sent[i].query.OtherQuery? || log.answers[i] == AnswerTo(RowsAfter(rows, log.sent[..i]), log.sent[i].query)
  }

  ghost predicate Truthful(rows: Rows, log: PM.Log<Query>) {
    && |log.answers| <= |log.sent|
    && (forall i | 0 <= i < |log.answers| :: TrueAt(rows, log, i))
    && (forall i | 0 <= i < |log.sent| :: WellFormed(log.sent[i]))
  }

  /** The statements that have been dealt with are among those that have been sent. */
  ghost predicate InBounds(w: PM.Worker<Query>) {
    0 <= Processed(w) <= |w.log.sent|
  }

  ghost predicate Base(rows: Rows, w: PM.Worker<Query>) {
    Truthful(rows, w.log) && InBounds(w)
  }

  lemma {:induction false} RowsAfterCounted(rows: Rows, sent: seq<Request<Query>>)
    requires Counted(rows)
    ensures Counted(RowsAfter(rows, sent))
  {
    if sent != [] {
      RowsAfterCounted(rows, sent[..|sent| - 1]);
    }
  }

  lemma RowsAfterOne(rows: Rows, sent: seq<Request<Query>>, n: nat)
    requires n < |sent|
    ensures RowsAfter(rows, sent[..n + 1]) == Execute(RowsAfter(rows, sent[..n]), sent[n].query)
  {
    assert sent[..n + 1][..n] == sent[..n];
  }

  lemma SendFields(p: PM.Worker<Query>, req: Request<Query>)
    ensures var p' := PM.OnSend(p, req);
      && p'.log == p.log.(sent := p.log.sent + [req]) && p'.running == p.running
      && PM.Requests(p'.current) == PM.Requests(p.current) + [req]
  {
  }

  lemma SendKeepsBase(rows: Rows, p: PM.Worker<Query>, req: Request<Query>)
    requires Base(rows, p) && WellFormed(req)
    ensures Base(rows, PM.OnSend(p, req)) && RowsNow(rows, PM.OnSend(p, req)) == RowsNow(rows, p)
  {
    var p' := PM.OnSend(p, req);
    SendFields(p, req);
    forall i | 0 <= i < |p'.log.answers|
      ensures TrueAt(rows, p'.log, i)
    {
      assert TrueAt(rows, p.log, i);
      assert p'.log.sent[..i] == p.log.sent[..i];
    }
    assert p'.log.sent[..Processed(p)] == p.log.sent[..Processed(p)];
  }

  lemma PairKeepsBase(rows: Rows, p: PM.Worker<Query>, reqs: seq<Request<Query>>, counted: bool)
    requires Base(rows, p) && |reqs| == 2 && IsPair(reqs[0], reqs[1])
    ensures Base(rows, SendPair(p, reqs, counted)) && RowsNow(rows, SendPair(p, reqs, counted)) == RowsNow(rows, p)
  {
    SendKeepsBase(rows, p, reqs[0]);
    SendKeepsBase(rows, PM.OnSend(p, reqs[0]), reqs[1]);
  }

  lemma DoneFields(p: PM.Worker<Query>)
    requires Shape(p.ring) && p.current != []
    ensures var p' := PM.OnDone(p);
      && p'.current == [] && p'.running == p.running
      && p'.log == p.log.(parked := p.log.parked + [PM.Requests(p.current)])
  {
  }

  /** The chains parked play no part in it. */
  lemma SameStatements(rows: Rows, p: PM.Worker<Query>, p': PM.Worker<Query>)
    requires Base(rows, p) && Processed(p') == Processed(p)
    requires p'.log.sent == p.log.sent && p'.log.answers == p.log.answers
    ensures Base(rows, p') && RowsNow(rows, p') == RowsNow(rows, p)
  {
    assert forall i | 0 <= i < |p.log.answers| :: TrueAt(rows, p.log, i) ==> TrueAt(rows, p'.log, i);
  }

  lemma DoneKeepsBase(rows: Rows, p: PM.Worker<Query>)
    requires Base(rows, p) && Shape(p.ring)
    ensures Base(rows, PM.OnDone(p)) && RowsNow(rows, PM.OnDone(p)) == RowsNow(rows, p)
  {
    if p.current != [] {
      DoneFields(p);
      SameStatements(rows, p, PM.OnDone(p));
    }
  }

  /** What a result does to a worker, as far as files are concerned: a chain that is handed to its callbacks is one
      that was parked. */
  ghost predicate AfterResult(p: PM.Worker<Query>, a: Answer, p': PM.Worker<Query>) {
    && p'.current == p.current && p'.log.sent == p.log.sent && p'.log.answers == p.log.answers + [a]
    && p'.log.parked == p.log.parked && Processed(p') == Processed(p)
    && (p'.running == [] || PM.Requests(p'.running) in p.log.parked)
  }

  lemma CompletedChain(p: PM.Worker<Query>, p': PM.Worker<Query>)
    requires Valid(p.ring) && p.ring.count > 0 && Valid(p'.ring) && PM.ResultPlace(p, p') && p.running == []
    requires PM.ChainsInOrder(p')
    ensures p'.running == [] || PM.Requests(p'.running) in p'.log.parked
    ensures Processed(p') == Processed(p)
  {
    if p'.log.done != p.log.done {
      var n := |p.log.done|;
      assert p'.running == p'.log.done[n];
      assert PM.Requests(p'.log.done[n]) == p'.log.parked[n];
      FlattenSnoc(p.log.done, p'.running);
    }
  }

  lemma ResultFields(p: PM.Worker<Query>, a: Answer)
    requires Shape(p.ring)
    ensures PM.OnResult(p, a).current == p.current
  {
  }

  lemma ResultIs(p: PM.Worker<Query>, a: Answer)
    requires PM.Inv(p) && PM.Enabled(p, PM.Result(a))
    ensures AfterResult(p, a, PM.OnResult(p, a))
  {
    PM.ResultContexts(p, a);
    ResultFields(p, a);
    ResultOrder(p, a);
    CompletedChain(p, PM.OnResult(p, a));
  }

  lemma ResultOrder(p: PM.Worker<Query>, a: Answer)
    requires PM.Inv(p) && PM.Enabled(p, PM.Result(a))
    ensures Valid(PM.OnResult(p, a).ring) && PM.ChainsInOrder(PM.OnResult(p, a))
  {
    PM.ResultKeepsInv(p, a);
  }

  lemma ResultKeepsBase(rows: Rows, p: PM.Worker<Query>, a: Answer, p': PM.Worker<Query>)
    requires Base(rows, p) && TrueAnswer(rows, p.log, a) && AfterResult(p, a, p')
    ensures Base(rows, p') && RowsNow(rows, p') == RowsNow(rows, p)
  {
    forall i | 0 <= i < |p'.log.answers|
      ensures TrueAt(rows, p'.log, i)
    {
      if i < |p.log.answers| {
        assert TrueAt(rows, p.log, i);
      }
    }
  }

  // ---- Every run: callbacks ----

  /** The contexts whose callbacks are being called are those of the next statements, with their answers. */
  lemma RunningIs(p: PM.Worker<Query>, i: nat)
    requires PM.Inv(p) && i < |p.running|
    ensures var n, c := Processed(p) + i, p.running[i];
      && 0 <= n < |p.log.answers| <= |p.log.sent| && c.req == p.log.sent[n] && c.answer == Some(p.log.answers[n])
      && c.ret == Verdict(c.req.handler, p.log.answers[n])
  {
    var n := Processed(p) + i;
    assert PM.Contexts(p)[n] == Flatten(p.log.done)[n] == p.running[i];
    assert PM.Matches(PM.Contexts(p)[n], p.log, n);
  }

  lemma AnsweredAt(rows: Rows, log: PM.Log<Query>, n: nat, c: Ctx<Query>)
    requires Truthful(rows, log) && n < |log.answers| && c.req == log.sent[n] && c.answer == Some(log.answers[n])
    requires c.ret == Verdict(c.req.handler, log.answers[n])
    ensures Answered(RowsAfter(rows, log.sent[..n]), c) && WellFormed(c.req)
  {
    assert TrueAt(rows, log, n);
  }

  lemma ExecFields(p: PM.Worker<Query>)
    requires p.running != []
    ensures var p' := PM.OnExec(p);
      && p'.current == p.current && p'.running == p.running[1..] && p'.log.sent == p.log.sent
      && p'.log.answers == p.log.answers && p'.log.done == p.log.done && p'.log.parked == p.log.parked
  {
  }

  lemma ExecKeepsBase(rows: Rows, p: PM.Worker<Query>)
    requires Base(rows, p) && p.running != [] && Processed(p) < |p.log.sent|
    ensures Base(rows, PM.OnExec(p))
    ensures RowsNow(rows, PM.OnExec(p)) == Execute(RowsNow(rows, p), p.log.sent[Processed(p)].query)
  {
    var p' := PM.OnExec(p);
    ExecFields(p);
    assert forall i | 0 <= i < |p.log.answers| :: TrueAt(rows, p.log, i) ==> TrueAt(rows, p'.log, i);
    RowsAfterOne(rows, p.log.sent, Processed(p));
  }

  /** The context whose callback is called next is that of the next statement, with its answer. */
  ghost predicate NextIsRunning(p: PM.Worker<Query>)
    requires p.running != []
  {
    var n, c := Processed(p), p.running[0];
    && 0 <= n < |p.log.answers| <= |p.log.sent| && c.req == p.log.sent[n] && c.answer == Some(p.log.answers[n])
    && c.ret == Verdict(c.req.handler, p.log.answers[n])
  }

  /** The context whose callback is called next holds the true answer of the table as it is then. */
  lemma NextIsAnswered(rows: Rows, p: PM.Worker<Query>, c: Ctx<Query>)
    requires Base(rows, p) && p.running != [] && c == p.running[0] && NextIsRunning(p)
    ensures Answered(RowsNow(rows, p), c) && WellFormed(c.req)
    ensures Base(rows, PM.OnExec(p)) && RowsNow(rows, PM.OnExec(p)) == Execute(RowsNow(rows, p), c.req.query)
  {
    AnsweredAt(rows, p.log, Processed(p), c);
    ExecKeepsBase(rows, p);
  }

  lemma RowsNowCounted(rows: Rows, p: PM.Worker<Query>)
    requires Counted(rows)
    ensures Counted(RowsNow(rows, p))
  {
    if InBounds(p) {
      RowsAfterCounted(rows, p.log.sent[..Processed(p)]);
    }
  }

  /** A callback keeps the files in step exactly when it keeps step. */
  lemma ExecKeepsStepIff(rows: Rows, w: World)
    requires Counted(rows) && Base(rows, w.pipe) && w.pipe.running != [] && InStep(rows, w)
    requires Answered(RowsNow(rows, w.pipe), w.pipe.running[0]) && WellFormed(w.pipe.running[0].req)
    requires RowsNow(rows, PM.OnExec(w.pipe)) == Execute(RowsNow(rows, w.pipe), w.pipe.running[0].req.query)
    requires Shape(w.pipe.ring)
    ensures InStep(rows, Apply(w, Exec)) <==> Keeps(rows, w, Exec)
  {
    RowsNowCounted(rows, w.pipe);
    CallbackKeepsStepIff(RowsNow(rows, w.pipe), w.disk, w.pipe.running[0], Next(w.pipe.running));
  }

  // ---- Every run: step by step ----

  lemma StepKeepsPipe(rows: Rows, w: World, s: Step)
    requires PM.Inv(w.pipe) && Enabled(rows, w, s)
    ensures PM.Inv(Apply(w, s).pipe)
  {
    match s
    case Save(h, insertOk, selectOk, counted) => PairKeepsPipe(w.pipe, SaveRequests(h, insertOk, selectOk), counted);
    case Release(h, ok, image, selectOk, counted) =>
      PairKeepsPipe(w.pipe, ReleaseRequests(h, ok, image, selectOk), counted);
    case Other(req) => PM.SendKeepsInv(w.pipe, req);
    case SetClient(c) => PM.StepKeepsInvIff(w.pipe, PM.SetClient(c));
    case Done => PM.StepKeepsInvIff(w.pipe, PM.Done);
    case Result(a) => PM.ResultKeepsInv(w.pipe, a);
    case Exec => PM.ExecKeepsInv(w.pipe);
  }

  lemma PairKeepsPipe(p: PM.Worker<Query>, reqs: seq<Request<Query>>, counted: bool)
    requires PM.Inv(p) && |reqs| == 2
    ensures PM.Inv(SendPair(p, reqs, counted))
  {
    PM.SendKeepsInv(p, reqs[0]);
    PM.SendKeepsInv(PM.OnSend(p, reqs[0]), reqs[1]);
  }

  /** Any step but a callback leaves the files as they were, and the statements dealt with. */
  lemma OtherStep(rows: Rows, w: World, s: Step)
    requires Base(rows, w.pipe) && Shape(w.pipe.ring) && Enabled(rows, w, s) && !s.Exec?
    requires s.Result? ==> AfterResult(w.pipe, s.answer, PM.OnResult(w.pipe, s.answer))
    ensures Base(rows, Apply(w, s).pipe) && RowsNow(rows, Apply(w, s).pipe) == RowsNow(rows, w.pipe)
    ensures Apply(w, s).disk == w.disk
  {
    match s
    case Save(h, insertOk, selectOk, counted) =>
      PairKeepsBase(rows, w.pipe, SaveRequests(h, insertOk, selectOk), counted);
    case Release(h, ok, image, selectOk, counted) =>
      PairKeepsBase(rows, w.pipe, ReleaseRequests(h, ok, image, selectOk), counted);
    case Other(req) => SendKeepsBase(rows, w.pipe, req);
    case SetClient(c) => SameStatements(rows, w.pipe, w.pipe.(client := c));
    case Done => DoneKeepsBase(rows, w.pipe);
    case Result(a) => ResultKeepsBase(rows, w.pipe, a, PM.OnResult(w.pipe, a));
  }

  lemma ExecStep(rows: Rows, w: World)
    requires Counted(rows) && Base(rows, w.pipe) && InStep(rows, w) && w.pipe.running != [] && Shape(w.pipe.ring)
    requires NextIsRunning(w.pipe)
    ensures Base(rows, Apply(w, Exec).pipe)
    ensures InStep(rows, Apply(w, Exec)) <==> Keeps(rows, w, Exec)
  {
    NextIsAnswered(rows, w.pipe, w.pipe.running[0]);
    ExecKeepsStepIff(rows, w);
  }

  /** What the invariant of the pipeline tells about a step. */
  lemma PipeTells(rows: Rows, w: World, s: Step)
    requires PM.Inv(w.pipe) && Enabled(rows, w, s)
    ensures s.Exec? ==> w.pipe.running != [] && NextIsRunning(w.pipe)
    ensures s.Result? ==> AfterResult(w.pipe, s.answer, PM.OnResult(w.pipe, s.answer))
  {
    if s.Exec? {
      RunningIs(w.pipe, 0);
    } else if s.Result? {
      ResultIs(w.pipe, s.answer);
    }
  }

  lemma StepKeepsFilesIff(rows: Rows, w: World, s: Step)
    requires Counted(rows) && Shape(w.pipe.ring) && Base(rows, w.pipe) && InStep(rows, w) && Enabled(rows, w, s)
    requires s.Exec? ==> w.pipe.running != [] && NextIsRunning(w.pipe)
    requires s.Result? ==> AfterResult(w.pipe, s.answer, PM.OnResult(w.pipe, s.answer))
    ensures Base(rows, Apply(w, s).pipe)
    ensures InStep(rows, Apply(w, s)) <==> Keeps(rows, w, s)
  {
    if s.Exec? {
      ExecStep(rows, w);
    } else {
      OtherStep(rows, w, s);
    }
  }

  /** A step keeps the pipeline's invariant and the truth of the answers; it keeps the files in step with the rows if
      and only if it is not a callback that fails to. */
  lemma StepKeepsStepIff(rows: Rows, w: World, s: Step)
    requires Counted(rows) && PM.Inv(w.pipe) && Base(rows, w.pipe) && InStep(rows, w) && Enabled(rows, w, s)
    ensures PM.Inv(Apply(w, s).pipe) && Base(rows, Apply(w, s).pipe)
    ensures InStep(rows, Apply(w, s)) <==> Keeps(rows, w, s)
  {
    StepKeepsPipe(rows, w, s);
    PipeTells(rows, w, s);
    StepKeepsFilesIff(rows, w, s);
  }

  lemma {:induction false} RunKeepsStepIff(rows: Rows, w: World, steps: seq<Step>)
    requires Counted(rows) && PM.Inv(w.pipe) && Base(rows, w.pipe) && InStep(rows, w) && Possible(rows, w, steps)
    ensures AllInStep(rows, w, steps) <==> AllKeep(rows, w, steps)
    decreases |steps|
  {
    if steps != [] {
      StepKeepsStepIff(rows, w, steps[0]);
      if Keeps(rows, w, steps[0]) {
        RunKeepsStepIff(rows, Apply(w, steps[0]), steps[1..]);
      }
    }
  }

  /** A worker that starts with the files of the table on disk. */
  function Start(rows: Rows, size: nat): World {
    World(PM.Init(size), rows.Keys)
  }

  lemma StartInStep(rows: Rows, size: nat)
    requires size > 0
    ensures PM.Inv(Start(rows, size).pipe) && Base(rows, Start(rows, size).pipe) && InStep(rows, Start(rows, size))
  {
    PM.InitInv<Query>(size);
  }

  lemma RunNext(w: World, steps: seq<Step>, w': World, rest: seq<Step>)
    requires Shape(w.pipe.ring) && steps != [] && w' == Apply(w, steps[0]) && rest == steps[1..]
    ensures Run(w, steps) == Run(w', rest)
  {
  }

  lemma PrefixOfPrefix(steps: seq<Step>, n: nat)
    requires 0 < n <= |steps|
    ensures steps[..n][0] == steps[0] && steps[..n][1..] == steps[1..][..n - 1]
  {
  }

  lemma PrefixOfRun(w: World, steps: seq<Step>, n: nat)
    requires Shape(w.pipe.ring) && 0 < n <= |steps|
    ensures Run(w, steps[..n]) == Run(Apply(w, steps[0]), steps[1..][..n - 1])
  {
    PrefixOfPrefix(steps, n);
    RunNext(w, steps[..n], Apply(w, steps[0]), steps[1..][..n - 1]);
  }

  lemma {:induction false} AllInStepIs(rows: Rows, w: World, steps: seq<Step>)
    requires Shape(w.pipe.ring)
    ensures AllInStep(rows, w, steps) <==> forall n | 0 <= n <= |steps| :: InStep(rows, Run(w, steps[..n]))
    decreases |steps|
  {
    assert Run(w, steps[..0]) == w;
    if steps != [] {
      var next, rest := Apply(w, steps[0]), steps[1..];
      AllInStepIs(rows, next, rest);
      forall n | 0 < n <= |steps|
        ensures InStep(rows, Run(w, steps[..n])) <==> InStep(rows, Run(next, rest[..n - 1]))
      {
        PrefixOfRun(w, steps, n);
      }
      if forall n | 0 <= n <= |steps| :: InStep(rows, Run(w, steps[..n])) {
        forall n | 0 <= n <= |rest|
          ensures InStep(rows, Run(next, rest[..n]))
        {
          assert InStep(rows, Run(w, steps[..n + 1]));
        }
      }
    }
  }

  lemma {:induction false} AllKeepIs(rows: Rows, w: World, steps: seq<Step>)
    requires Shape(w.pipe.ring)
    ensures AllKeep(rows, w, steps) <==> forall n | 0 <= n < |steps| :: Keeps(rows, Run(w, steps[..n]), steps[n])
    decreases |steps|
  {
    assert Run(w, steps[..0]) == w;
    if steps != [] {
      var next, rest := Apply(w, steps[0]), steps[1..];
      AllKeepIs(rows, next, rest);
      forall n | 0 < n < |steps|
        ensures Keeps(rows, Run(w, steps[..n]), steps[n]) <==> Keeps(rows, Run(next, rest[..n - 1]), rest[n - 1])
      {
        PrefixOfRun(w, steps, n);
      }
      if forall n | 0 <= n < |steps| :: Keeps(rows, Run(w, steps[..n]), steps[n]) {
        assert Keeps(rows, Run(w, steps[..0]), steps[0]);
        forall n | 0 <= n < |rest|
          ensures Keeps(rows, Run(next, rest[..n]), rest[n])
        {
          assert Keeps(rows, Run(w, steps[..n + 1]), steps[n + 1]);
        }
      }
    }
  }

  /** In every run, also one in which the connection refuses counts or the database cannot read them, the files are
      in step with the rows after every step if and only if every callback keeps step. */
  lemma FilesInStepIff(rows: Rows, size: nat, steps: seq<Step>)
    requires Counted(rows) && size > 0 && Possible(rows, Start(rows, size), steps)
    ensures var w := Start(rows, size);
      (forall n | 0 <= n <= |steps| :: InStep(rows, Run(w, steps[..n])))
      <==> (forall n | 0 <= n < |steps| :: Keeps(rows, Run(w, steps[..n]), steps[n]))
  {
    StartInStep(rows, size);
    RunKeepsStepIff(rows, Start(rows, size), steps);
    AllInStepIs(rows, Start(rows, size), steps);
    AllKeepIs(rows, Start(rows, size), steps);
  }

  // ---- Runs of whole pairs ----

  /** Reference counts are asked for and can be read, and files are released as the images they are. */
  predicate Successful(s: Step) {
    (s.Save? ==> s.counted && s.selectOk) && (s.Release? ==> s.counted && s.selectOk && s.image)
  }

  predicate Paired(reqs: seq<Request<Query>>)
    decreases |reqs|
  {
    if reqs == [] then true
    else if reqs[0].query.OtherQuery? then Paired(reqs[1..])
    else
      && |reqs| > 1 && IsPair(reqs[0], reqs[1])
      && GoodQuery(reqs[0].query) && GoodQuery(reqs[1].query) && Paired(reqs[2..])
  }

  /** What is left of a paired chain while its callbacks run: the first half of a pair may be gone. */
  predicate PairedTail(reqs: seq<Request<Query>>) {
    Paired(reqs) || (reqs != [] && reqs[0].query.RefCount? && Paired(reqs[1..]))
  }

  predicate GoodQuery(q: Query) {
    (q.RefCount? ==> q.ok) && (q.DecrementFile? ==> q.image)
  }

  ghost predicate ChainsPaired(w: PM.Worker<Query>) {
    && Paired(PM.Requests(w.current)) && PairedTail(PM.Requests(w.running))
    && forall chain | chain in w.log.parked :: Paired(chain)
  }

  ghost predicate Inv(rows: Rows, w: World) {
    PM.Inv(w.pipe) && Base(rows, w.pipe) && InStep(rows, w) && ChainsPaired(w.pipe)
  }

  lemma {:induction false} PairedAppend(a: seq<Request<Query>>, b: seq<Request<Query>>)
    requires Paired(a) && Paired(b)
    ensures Paired(a + b)
    decreases |a|
  {
    if a == [] {
      assert a + b == b;
    } else if a[0].query.OtherQuery? {
      assert (a + b)[1..] == a[1..] + b;
      PairedAppend(a[1..], b);
    } else {
      assert (a + b)[2..] == a[2..] + b && (a + b)[1] == a[1];
      PairedAppend(a[2..], b);
    }
  }

  lemma PairStaysPaired(p: PM.Worker<Query>, reqs: seq<Request<Query>>)
    requires ChainsPaired(p) && |reqs| == 2 && IsPair(reqs[0], reqs[1])
    requires GoodQuery(reqs[0].query) && GoodQuery(reqs[1].query)
    ensures ChainsPaired(SendPair(p, reqs, true))
  {
    var p1 := PM.OnSend(p, reqs[0]);
    SendFields(p, reqs[0]);
    SendFields(p1, reqs[1]);
    assert reqs[2..] == [];
    PairedAppend(PM.Requests(p.current), reqs);
    assert PM.Requests(p.current) + [reqs[0]] + [reqs[1]] == PM.Requests(p.current) + reqs;
  }

  lemma OtherStaysPaired(p: PM.Worker<Query>, req: Request<Query>)
    requires ChainsPaired(p) && req.query.OtherQuery?
    ensures ChainsPaired(PM.OnSend(p, req))
  {
    SendFields(p, req);
    assert [req][1..] == [];
    PairedAppend(PM.Requests(p.current), [req]);
  }

  lemma DoneStaysPaired(p: PM.Worker<Query>)
    requires ChainsPaired(p) && Shape(p.ring)
    ensures ChainsPaired(PM.OnDone(p))
  {
    if p.current != [] {
      DoneFields(p);
      assert PM.Requests(PM.OnDone(p).current) == [];
    }
  }

  lemma ExecStaysPaired(p: PM.Worker<Query>)
    requires ChainsPaired(p) && p.running != []
    ensures ChainsPaired(PM.OnExec(p))
  {
    ExecFields(p);
    var reqs := PM.Requests(p.running);
    assert PM.Requests(p.running[1..]) == reqs[1..];
    TailOfPaired(reqs);
  }

  lemma TailOfPaired(reqs: seq<Request<Query>>)
    requires PairedTail(reqs) && reqs != []
    ensures PairedTail(reqs[1..])
    ensures !reqs[0].query.OtherQuery? && !reqs[0].query.RefCount? ==>
      |reqs| > 1 && IsPair(reqs[0], reqs[1]) && GoodQuery(reqs[0].query) && GoodQuery(reqs[1].query)
  {
    if Paired(reqs) && !reqs[0].query.OtherQuery? {
      assert reqs[1..][1..] == reqs[2..];
    }
  }

  lemma StepStaysPaired(rows: Rows, w: World, s: Step)
    requires ChainsPaired(w.pipe) && Shape(w.pipe.ring) && Enabled(rows, w, s) && Successful(s)
    requires s.Result? ==> AfterResult(w.pipe, s.answer, PM.OnResult(w.pipe, s.answer))
    ensures ChainsPaired(Apply(w, s).pipe)
  {
    match s
    case Save(h, insertOk, selectOk, _) => PairStaysPaired(w.pipe, SaveRequests(h, insertOk, selectOk));
    case Release(h, ok, image, selectOk, _) => PairStaysPaired(w.pipe, ReleaseRequests(h, ok, image, selectOk));
    case Other(req) => OtherStaysPaired(w.pipe, req);
    case SetClient(_) =>
    case Done => DoneStaysPaired(w.pipe);
    case Result(_) =>
    case Exec => ExecStaysPaired(w.pipe);
  }

  /** Behind a file statement that is dealt with stands its reference count, with the true answer. */
  lemma PairKeeps(rows: Rows, p: PM.Worker<Query>)
    requires Base(rows, p) && ChainsPaired(p) && p.running != [] && InBounds(p)
    requires forall i | 0 <= i < |p.running| && i < 2 ::
      var n := Processed(p) + i;
      && n < |p.log.answers| && p.running[i].req == p.log.sent[n] && p.running[i].answer == Some(p.log.answers[n])
      && p.running[i].ret == Verdict(p.running[i].req.handler, p.log.answers[n])
    requires Counted(rows)
    ensures CallbackKeeps(RowsNow(rows, p), p.running[0].req.query, Next(p.running))
  {
    var n, reqs, now := Processed(p), PM.Requests(p.running), RowsNow(rows, p);
    TailOfPaired(reqs);
    RowsNowCounted(rows, p);
    if !reqs[0].query.OtherQuery? && !reqs[0].query.RefCount? {
      AnsweredAt(rows, p.log, n + 1, p.running[1]);
      RowsAfterOne(rows, p.log.sent, n);
      PairIsCounted(now, p.running[0], p.running[1]);
    }
  }

  lemma PairIsCounted(rows: Rows, c: Ctx<Query>, next: Ctx<Query>)
    requires Counted(rows) && IsPair(c.req, next.req) && GoodQuery(c.req.query) && GoodQuery(next.req.query)
    requires Answered(Execute(rows, c.req.query), next)
    ensures CallbackKeeps(rows, c.req.query, Some(next))
  {
  }

  /** A step of a run of whole pairs keeps files and rows in step. */
  lemma StepKeepsInv(rows: Rows, w: World, s: Step)
    requires Counted(rows) && Inv(rows, w) && Enabled(rows, w, s) && Successful(s)
    ensures Inv(rows, Apply(w, s))
  {
    StepKeepsStepIff(rows, w, s);
    CallbackOfPairKeeps(rows, w, s);
    StepKeepsPairs(rows, w, s);
  }

  lemma CallbackOfPairKeeps(rows: Rows, w: World, s: Step)
    requires Counted(rows) && PM.Inv(w.pipe) && Base(rows, w.pipe) && ChainsPaired(w.pipe)
    ensures Keeps(rows, w, s)
  {
    if s.Exec? && w.pipe.running != [] {
      RunningIs(w.pipe, 0);
      if |w.pipe.running| > 1 {
        RunningIs(w.pipe, 1);
      }
      PairKeeps(rows, w.pipe);
    }
  }

  lemma StepKeepsPairs(rows: Rows, w: World, s: Step)
    requires PM.Inv(w.pipe) && ChainsPaired(w.pipe) && Enabled(rows, w, s) && Successful(s)
    ensures ChainsPaired(Apply(w, s).pipe)
  {
    PipeTells(rows, w, s);
    StepStaysPaired(rows, w, s);
  }

  ghost predicate AllSuccessful(steps: seq<Step>) {
    forall i | 0 <= i < |steps| :: Successful(steps[i])
  }

  /** No event or callback is in progress, and nothing is pending. */
  predicate AtRest(p: PM.Worker<Query>) {
    p.running == [] && p.current == [] && p.ring.count == 0
  }

  /** The files on disk are those of the table after the statements of the completed chains, and those of the table
      as it is once nothing is pending. */
  ghost predicate Follows(rows: Rows, w: World) {
    var log := w.pipe.log;
    && (w.pipe.running == [] ==>
          |Flatten(log.done)| <= |log.sent| && w.disk == RowsAfter(rows, log.sent[..|Flatten(log.done)|]).Keys)
    && (AtRest(w.pipe) ==> w.disk == RowsAfter(rows, log.sent).Keys)
  }

  lemma InvFollows(rows: Rows, w: World)
    requires Inv(rows, w)
    ensures Follows(rows, w)
  {
    var p := w.pipe;
    if AtRest(p) {
      assert PM.Contexts(p) == Flatten(p.log.done);
      assert p.log.sent[..|p.log.sent|] == p.log.sent;
    }
  }

  lemma {:induction false} RunFollows(rows: Rows, w: World, steps: seq<Step>)
    requires Counted(rows) && Inv(rows, w) && Possible(rows, w, steps) && AllSuccessful(steps)
    ensures Follows(rows, Run(w, steps))
    decreases |steps|
  {
    if steps == [] {
      InvFollows(rows, w);
    } else {
      StepKeepsInv(rows, w, steps[0]);
      RunFollows(rows, Apply(w, steps[0]), steps[1..]);
    }
  }

  lemma StartInv(rows: Rows, size: nat)
    requires size > 0
    ensures Inv(rows, Start(rows, size))
  {
    StartInStep(rows, size);
  }

  /** In every run whose counts are asked for and can be read, whenever no callback is in progress, the files on disk
      are those of the table after the statements of the completed chains; once nothing is pending, those of the
      table as it is. */
  lemma FilesFollowRows(rows: Rows, size: nat, steps: seq<Step>)
    requires Counted(rows) && size > 0 && Possible(rows, Start(rows, size), steps) && AllSuccessful(steps)
    ensures Follows(rows, Run(Start(rows, size), steps))
  {
    StartInv(rows, size);
    RunFollows(rows, Start(rows, size), steps);
  }

  // ---- Callbacks that do not keep step ----

  /** A reference count that cannot be read after a release takes away a file that is still in use. */
  lemma FailedCountRemovesUsedFile(h: Hash, rows: Rows, c: Ctx<Query>, next: Ctx<Query>)
    requires h in rows && rows[h] > 1 && IsPair(c.req, next.req)
    requires Answered(rows, c) && Answered(Execute(rows, c.req.query), next)
    requires c.req.query == DecrementFile(h, true, true) && next.req.query == RefCount(h, false)
    ensures h in Execute(rows, c.req.query) && h !in Effect(rows.Keys, c, Some(next))
  {
  }

  /** A new file is not written if the connection refused the count and nothing else stands behind it. */
  lemma RefusedCountLosesFile(h: Hash, rows: Rows, c: Ctx<Query>)
    requires Counted(rows) && h !in rows && WellFormed(c.req) && Answered(rows, c) && c.req.query == InsertFile(h, true)
    ensures h in Execute(rows, c.req.query) && h !in Effect(rows.Keys, c, None)
  {
  }
}
