/** What saving, releasing and their statements do, one step at a time and field by field. */
module FileSteps {
  import opened Sequences
  import opened PipelineRing
  import PM = PipelineMachine
  import UF = UserFiles
  import opened FileLedger

  // ---- Statements ----

  /** What a statement makes of the count of a file: an insert adds one, or starts with one; a release takes one away,
      and the row with the last one; nothing else changes a count, and no other file's count changes. */
  lemma StatementCounts(rows: UF.Rows, q: UF.Query, h: UF.Hash)
    requires UF.Counted(rows)
    ensures var after := UF.Execute(rows, q);
      && (h in after ==> after[h] > 0)
      && (if h in after then after[h] else 0) ==
         (if h in rows then rows[h] else 0)
         + if q.InsertFile? && q.ok && q.hash == h then 1
           else if q.DecrementFile? && q.ok && q.hash == h && h in rows then -1 else 0
  {
    UF.ExecuteKeepsCounted(rows, q);
  }

  /** A save sends an insert with a callback and, if the connection takes it, a reference count without one. */
  lemma SaveSends(w: UF.World, h: UF.Hash, insertOk: bool, selectOk: bool, counted: bool)
    requires Shape(w.pipe.ring)
    ensures var after := UF.Apply(w, UF.Save(h, insertOk, selectOk, counted)); var sent := after.pipe.log.sent;
      var n := |w.pipe.log.sent|;
      && |sent| == n + (if counted then 2 else 1) && sent[..n] == w.pipe.log.sent
      && sent[n].query == UF.InsertFile(h, insertOk) && sent[n].handler.CommandResult? && sent[n].exec == Some([])
      && (counted ==>
            && sent[n + 1].query == UF.RefCount(h, selectOk) && sent[n + 1].handler.TuplesResult?
            && sent[n + 1].exec == None)
      && PM.Requests(after.pipe.current) == PM.Requests(w.pipe.current) + sent[n..] && after.disk == w.disk
  {
    var reqs := UF.SaveRequests(h, insertOk, selectOk);
    PairSends(w.pipe, reqs, counted);
  }

  /** A release sends a decrement in the same way. */
  lemma ReleaseSends(w: UF.World, h: UF.Hash, ok: bool, image: bool, selectOk: bool, counted: bool)
    requires Shape(w.pipe.ring)
    ensures var after := UF.Apply(w, UF.Release(h, ok, image, selectOk, counted)); var sent := after.pipe.log.sent;
      var n := |w.pipe.log.sent|;
      && |sent| == n + (if counted then 2 else 1) && sent[..n] == w.pipe.log.sent
      && sent[n].query == UF.DecrementFile(h, ok, image) && sent[n].handler.CommandResult? && sent[n].exec == Some([])
      && (counted ==>
            && sent[n + 1].query == UF.RefCount(h, selectOk) && sent[n + 1].handler.TuplesResult?
            && sent[n + 1].exec == None)
      && PM.Requests(after.pipe.current) == PM.Requests(w.pipe.current) + sent[n..] && after.disk == w.disk
  {
    var reqs := UF.ReleaseRequests(h, ok, image, selectOk);
    PairSends(w.pipe, reqs, counted);
  }

  lemma PairSends(p: PM.Worker<UF.Query>, reqs: seq<Request<UF.Query>>, counted: bool)
    requires |reqs| == 2
    ensures var after := UF.SendPair(p, reqs, counted); var sent := if counted then reqs else reqs[..1];
      && after.log.sent == p.log.sent + sent
      && after.log.sent[..|p.log.sent|] == p.log.sent && after.log.sent[|p.log.sent|..] == sent
      && PM.Requests(after.current) == PM.Requests(p.current) + sent
  {
    UF.SendFields(p, reqs[0]);
    UF.SendFields(PM.OnSend(p, reqs[0]), reqs[1]);
    assert reqs == [reqs[0]] + [reqs[1]] && reqs[..1] == [reqs[0]];
    assert p.log.sent + reqs == p.log.sent + [reqs[0]] + [reqs[1]];
    assert PM.Requests(p.current) + reqs == PM.Requests(p.current) + [reqs[0]] + [reqs[1]];
  }

  /** One more step at the end of a run of a worker. */
  lemma {:induction false} WorkerRunSnoc(rows: UF.Rows, w: UF.World, steps: seq<UF.Step>, s: UF.Step)
    requires Shape(w.pipe.ring)
    ensures UF.Run(w, []) == w && UF.Run(w, steps + [s]) == UF.Apply(UF.Run(w, steps), s)
    ensures UF.Possible(rows, w, steps + [s]) <==>
      UF.Possible(rows, w, steps) && UF.Enabled(rows, UF.Run(w, steps), s)
    decreases |steps|
  {
    if steps == [] {
      assert [] + [s] == [s] && [s][1..] == [];
    } else {
      assert (steps + [s])[0] == steps[0] && (steps + [s])[1..] == steps[1..] + [s];
      WorkerRunSnoc(rows, UF.Apply(w, steps[0]), steps[1..], s);
    }
  }

  // ---- Steps of the ledger ----

  /** All of a list but one, in order. */
  ghost predicate AllBut<T>(xs: seq<T>, i: nat, ys: seq<T>) {
    && |ys| + 1 == |xs| && i < |xs|
    && (forall j | 0 <= j < i :: ys[j] == xs[j])
    && (forall j | i <= j < |ys| :: ys[j] == xs[j + 1])
  }

  lemma WithoutIs<T>(xs: seq<T>, i: nat)
    requires i < |xs|
    ensures AllBut(xs, i, Without(xs, i))
  {
  }

  lemma Announced(l: Ledger, given: Attachments)
    requires given != []
    ensures var l' := Apply(l, StartMessage(given));
      && l'.uploads == l.uploads + [Upload(given, 0)]
      && l'.rows == l.rows && l'.messages == l.messages && l'.users == l.users && l'.owed == l.owed
      && l'.leaked == l.leaked
  {
  }

  /** An upload is noted in its place; the message is stored, with all its attachments, if as many uploads have come as
      it has attachments and the database takes it. */
  lemma Attached(l: Ledger, t: nat, i: nat, h: UF.Hash, insertOk: bool, msgOk: bool)
    requires t < |l.uploads| && i < |l.uploads[t].atts| && h != ""
    ensures var l' := Apply(l, Attach(t, i, h, insertOk, msgOk)); var u, u' := l.uploads[t], l'.uploads[t];
      && |l'.uploads| == |l.uploads| && (forall j | 0 <= j < |l.uploads| && j != t :: l'.uploads[j] == l.uploads[j])
      && u'.current == u.current + 1 && |u'.atts| == |u.atts| && u'.atts[i] == Some(h)
      && (forall j | 0 <= j < |u.atts| && j != i :: u'.atts[j] == u.atts[j])
      && l'.messages == l.messages + (if u.current + 1 >= |u.atts| && msgOk then [u'.atts] else [])
      && l'.rows == UF.Execute(l.rows, UF.InsertFile(h, insertOk)) && l'.users == l.users && l'.owed == l.owed
  {
  }

  /** What an upload leaves without anyone to release it: the hash it takes the place of, unless a stored message has
      that, and, if the message cannot be stored, all its attachments. */
  lemma AttachedLeaks(l: Ledger, t: nat, i: nat, h: UF.Hash, insertOk: bool, msgOk: bool, k: UF.Hash)
    requires t < |l.uploads| && i < |l.uploads[t].atts| && h != ""
    ensures var l' := Apply(l, Attach(t, i, h, insertOk, msgOk)); var u := l.uploads[t];
      InList(l'.leaked, k) == InList(l.leaked, k)
        + (if u.current < |u.atts| && u.atts[i] == Some(k) then 1 else 0)
        + (if u.current + 1 >= |u.atts| && !msgOk
           then (if u.current < |u.atts| then InAttachments(u.atts[i := None], k) else 0)
                + (if insertOk && h == k then 1 else 0)
           else 0)
  {
    var u := l.uploads[t];
    OneFile(u.atts[i], k);
    FilesCounted(u.atts[i := None], k);
    AttachLeaks(l.leaked, if Sent(u) then [] else FilesOf([u.atts[i]]),
                if Sent(u) then [] else FilesOf(u.atts[i := None]), h, insertOk, k);
  }

  /** A token that is dropped leaks what has been uploaded, unless its message is stored. */
  lemma Expired(l: Ledger, t: nat, k: UF.Hash)
    requires t < |l.uploads|
    ensures var l' := Apply(l, Expire(t)); var u := l.uploads[t];
      && AllBut(l.uploads, t, l'.uploads)
      && InList(l'.leaked, k) == InList(l.leaked, k) + (if u.current < |u.atts| then InAttachments(u.atts, k) else 0)
      && l'.rows == l.rows && l'.messages == l.messages && l'.users == l.users && l'.owed == l.owed
  {
    var u := l.uploads[t];
    WithoutIs(l.uploads, t);
    FilesCounted(u.atts, k);
    SumAppend(l.leaked, if Sent(u) then [] else FilesOf(u.atts), Is, k);
  }

  /** The files of a message whose attachments have all been uploaded are these, in order. */
  lemma {:induction false} FilesInOrder(atts: Attachments)
    requires None !in atts
    ensures |FilesOf(atts)| == |atts| && forall i | 0 <= i < |atts| :: Some(FilesOf(atts)[i]) == atts[i]
  {
    if atts != [] {
      assert atts[0] in atts && forall a | a in atts[1..] :: a in atts;
      FilesInOrder(atts[1..]);
    }
  }

  /** A message that goes leaves the others; its files are to be released, behind those that already are. */
  lemma MessageGone(l: Ledger, i: nat)
    requires i < |l.messages|
    ensures var l' := Apply(l, DeleteMessage(i)); var n := |l.owed|;
      && AllBut(l.messages, i, l'.messages)
      && |l'.owed| >= n && l'.owed[..n] == l.owed
      && (None !in l.messages[i] ==>
            && |l'.owed| == n + |l.messages[i]|
            && forall j | 0 <= j < |l.messages[i]| :: Some(l'.owed[n + j]) == l.messages[i][j])
      && l'.rows == l.rows && l'.uploads == l.uploads && l'.users == l.users && l'.leaked == l.leaked
  {
    WithoutIs(l.messages, i);
    if None !in l.messages[i] {
      FilesInOrder(l.messages[i]);
    }
  }

  /** A new picture is shown and held, behind those held before; one that the database does not take is leaked. */
  lemma PictureUploaded(l: Ledger, k: nat, h: UF.Hash, insertOk: bool, updateOk: bool)
    requires Enabled(l, UploadPicture(k, h, insertOk, updateOk))
    ensures var l' := Apply(l, UploadPicture(k, h, insertOk, updateOk)); var u, u' := l.users[k], l'.users[k];
      && |l'.users| == |l.users| && (forall j | 0 <= j < |l.users| && j != k :: l'.users[j] == l.users[j])
      && u'.pfp == (if updateOk then h else u.pfp) && u'.held == u.held + (if updateOk then [h] else [])
      && u'.lost == u.lost
      && l'.leaked == l.leaked + (if insertOk && !updateOk then [h] else [])
      && l'.rows == UF.Execute(l.rows, UF.InsertFile(h, insertOk))
      && l'.messages == l.messages && l'.uploads == l.uploads && l'.owed == l.owed
  {
    var u := l.users[k];
    assert u.held + [] == u.held && l.leaked + [] == l.leaked;
    if !insertOk {
      assert UF.Execute(l.rows, UF.InsertFile(h, insertOk)) == l.rows;
    }
  }

  /** The callback of an update releases the oldest picture held. */
  lemma PictureReplaced(l: Ledger, k: nat)
    requires k < |l.users| && |l.users[k].held| > 1
    ensures var l' := Apply(l, PictureUpdated(k)); var u, u' := l.users[k], l'.users[k];
      && |l'.users| == |l.users| && (forall j | 0 <= j < |l.users| && j != k :: l'.users[j] == l.users[j])
      && u'.pfp == u.pfp && AllBut(u.held, 0, u'.held) && u'.lost == u.lost
      && l'.owed == l.owed + [u.held[0]]
      && l'.rows == l.rows && l'.messages == l.messages && l'.uploads == l.uploads && l'.leaked == l.leaked
  {
  }

  /** After a login nothing is held in memory, and the picture held before is lost. */
  lemma LoggedIn(l: Ledger, k: nat)
    requires k < |l.users| && |l.users[k].held| == 1
    ensures var l' := Apply(l, Login(k)); var u, u' := l.users[k], l'.users[k];
      && |l'.users| == |l.users| && (forall j | 0 <= j < |l.users| && j != k :: l'.users[j] == l.users[j])
      && u'.pfp == u.pfp && u'.held == [""] && u'.lost == u.lost + [u.held[0]]
      && l'.rows == l.rows && l'.messages == l.messages && l'.uploads == l.uploads && l'.owed == l.owed
      && l'.leaked == l.leaked
  {
    assert l.users[k].held == [l.users[k].held[0]];
  }

  /** A release takes one off the count, unless the database refuses it: for an error, or for the last reference to a
      picture that a user shows. Then it is leaked. */
  lemma Released(l: Ledger, i: nat, ok: bool)
    requires i < |l.owed|
    ensures var l' := Apply(l, ReleaseFile(i, ok)); var h := l.owed[i];
      var shown := h in l.rows && l.rows[h] == 1 && exists j :: 0 <= j < |l.users| && l.users[j].pfp == h;
      && AllBut(l.owed, i, l'.owed)
      && l'.rows == UF.Execute(l.rows, UF.DecrementFile(h, ok && !shown, true))
      && l'.leaked == l.leaked + (if ok && !shown then [] else [h])
      && l'.messages == l.messages && l'.uploads == l.uploads && l'.users == l.users
  {
    WithoutIs(l.owed, i);
    assert l.leaked + [] == l.leaked;
  }

  /** One more step at the end of a run of the ledger. */
  lemma {:induction false} LedgerRunSnoc(l: Ledger, steps: seq<Step>, s: Step)
    requires AllCount(l, steps)
    ensures Enabled(Run(l, steps), s) ==> Run(l, steps + [s]) == Apply(Run(l, steps), s)
    ensures AllCount(l, steps + [s]) <==> Enabled(Run(l, steps), s) && Counts(Run(l, steps), s)
    decreases |steps|
  {
    if steps == [] {
      assert [] + [s] == [s] && [s][1..] == [];
    } else {
      assert (steps + [s])[0] == steps[0] && (steps + [s])[1..] == steps[1..] + [s];
      LedgerRunSnoc(Apply(l, steps[0]), steps[1..], s);
    }
  }

  // ---- Pictures lost at a login ----

  lemma LostStays(l: Ledger, s: Step, k: nat, h: UF.Hash)
    requires Enabled(l, s) && k < |l.users| && h in l.users[k].lost
    ensures k < |Apply(l, s).users| && h in Apply(l, s).users[k].lost
  {
  }

  /** A picture lost at a login is never removed, whoever still shows it: in no run that counts what it refers to does
      its count reach 0 again. */
  lemma {:induction false} LostIsKept(l: Ledger, steps: seq<Step>, k: nat, h: UF.Hash)
    requires Conserved(l) && AllCount(l, steps) && k < |l.users| && h in l.users[k].lost && h != ""
    ensures h in Run(l, steps).rows && Run(l, steps).rows[h] > 0
    decreases |steps|
  {
    if steps == [] {
      assert BalancedAt(l, h);
      InListIff(l.users[k].lost, h);
      AtLeast(l.users, k, HeldByUser, h);
    } else {
      StepConservesIff(l, steps[0]);
      LostStays(l, steps[0], k, h);
      LostIsKept(Apply(l, steps[0]), steps[1..], k, h);
    }
  }
}
