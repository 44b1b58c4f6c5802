/** The ledger of references and the worker that keeps the files, on one table: what the messages and pictures use is
    on disk. */
module FilesInUse {
  import opened Sequences
  import opened PipelineRing
  import FL = FileLedger
  import UF = UserFiles

  /** The statement that a step of the ledger sends, if it sends one. */
  function StatementOf(l: FL.Ledger, s: FL.Step): Option<UF.Query>
    requires FL.Enabled(l, s)
  {
    match s
    case Attach(_, _, h, insertOk, _) => Some(UF.InsertFile(h, insertOk))
    case UploadPicture(_, h, insertOk, _) => Some(UF.InsertFile(h, insertOk))
    case ReleaseFile(i, ok) => Some(UF.DecrementFile(l.owed[i], ok && !FL.Blocked(l, l.owed[i]), true))
    case _ => None
  }

  function Listed(q: Option<UF.Query>): seq<UF.Query> {
    match q case None => [] case Some(x) => [x]
  }

  /** The statements of a run of the ledger, in order. */
  function Statements(l: FL.Ledger, steps: seq<FL.Step>): seq<UF.Query>
    decreases |steps|
  {
    if steps == [] || !FL.Enabled(l, steps[0]) then []
    else Listed(StatementOf(l, steps[0])) + Statements(FL.Apply(l, steps[0]), steps[1..])
  }

  /** The statements among these requests that change the table. */
  function Changes(sent: seq<Request<UF.Query>>): seq<UF.Query> {
    if sent == [] then []
    else
      var last := sent[|sent| - 1].query;
      Changes(sent[..|sent| - 1]) + if last.InsertFile? || last.DecrementFile? then [last] else []
  }

  function ExecuteAll(rows: UF.Rows, qs: seq<UF.Query>): UF.Rows
    decreases |qs|
  {
    if qs == [] then rows else ExecuteAll(UF.Execute(rows, qs[0]), qs[1..])
  }

  lemma {:induction false} ExecuteSnoc(rows: UF.Rows, qs: seq<UF.Query>, q: UF.Query)
    ensures ExecuteAll(rows, qs + [q]) == UF.Execute(ExecuteAll(rows, qs), q)
    decreases |qs|
  {
    if qs == [] {
      assert [q][1..] == [];
    } else {
      assert (qs + [q])[1..] == qs[1..] + [q];
      ExecuteSnoc(UF.Execute(rows, qs[0]), qs[1..], q);
    }
  }

  /** The requests that change nothing play no part in it. */
  lemma {:induction false} RowsAreChanges(rows: UF.Rows, sent: seq<Request<UF.Query>>)
    ensures UF.RowsAfter(rows, sent) == ExecuteAll(rows, Changes(sent))
  {
    if sent != [] {
      var before, last := sent[..|sent| - 1], sent[|sent| - 1].query;
      RowsAreChanges(rows, before);
      ExecuteSnoc(rows, Changes(before), last);
      assert Changes(before) + [] == Changes(before);
    }
  }

  lemma StepExecutes(l: FL.Ledger, s: FL.Step)
    requires FL.Enabled(l, s)
    ensures FL.Apply(l, s).rows == match StatementOf(l, s) case None => l.rows case Some(q) => UF.Execute(l.rows, q)
  {
  }

  /** The table of the ledger is that of its statements. */
  lemma {:induction false} LedgerRows(l: FL.Ledger, steps: seq<FL.Step>)
    ensures FL.Run(l, steps).rows == ExecuteAll(l.rows, Statements(l, steps))
    decreases |steps|
  {
    if steps != [] && FL.Enabled(l, steps[0]) {
      var l' := FL.Apply(l, steps[0]);
      StepExecutes(l, steps[0]);
      LedgerRows(l', steps[1..]);
      match StatementOf(l, steps[0])
      case None => assert [] + Statements(l', steps[1..]) == Statements(l', steps[1..]);
      case Some(q) => assert ([q] + Statements(l', steps[1..]))[1..] == Statements(l', steps[1..]);
    }
  }

  /** In every run that counts what it refers to, and whose statements a worker has sent in this order and dealt
      with, with counts that were asked for and could be read, every file that a stored message or a user's picture
      uses is on disk. */
  lemma UsedFilesAreOnDisk(users: nat, steps: seq<FL.Step>, size: nat, work: seq<UF.Step>, h: UF.Hash)
    requires FL.AllCount(FL.Start(users), steps) && h != "" && size > 0
    requires UF.Possible(map[], UF.Start(map[], size), work) && UF.AllSuccessful(work)
    requires var w := UF.Run(UF.Start(map[], size), work);
      UF.AtRest(w.pipe) && Changes(w.pipe.log.sent) == Statements(FL.Start(users), steps)
    ensures var l := FL.Run(FL.Start(users), steps); var disk := UF.Run(UF.Start(map[], size), work).disk;
      && (forall i, j | 0 <= i < |l.messages| && 0 <= j < |l.messages[i]| && l.messages[i][j] == Some(h) :: h in disk)
      && (forall k | 0 <= k < |l.users| && l.users[k].pfp == h :: h in disk)
  {
    var w := UF.Run(UF.Start(map[], size), work);
    FL.UsedFilesAreKept(users, steps, h);
    UF.FilesFollowRows(map[], size, work);
    RowsAreChanges(map[], w.pipe.log.sent);
    LedgerRows(FL.Start(users), steps);
  }
}
