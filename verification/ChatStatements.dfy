/** What each statement of the chat does to the tables, row by row, and when it is refused. */
module ChatStatements {
  import opened Sequences
  import opened ChatDb

  /** A transaction answers every statement; after one that fails all fail, and no table changes. */
  lemma {:induction false} AllOrNothing(db: Db, ss: seq<Statement>)
    ensures var (after, replies) := Transaction(db, ss);
      && |replies| == |ss|
      && (Failed in replies ==> after == db)
      && (forall i, j | 0 <= i < j < |ss| && replies[i] == Failed :: replies[j] == Failed)
    decreases |ss|
  {
    if ss != [] && Exec(db, ss[0]).1 != Failed {
      var next := Exec(db, ss[0]).0;
      AllOrNothing(next, ss[1..]);
      var replies := Transaction(next, ss[1..]).1;
      assert Transaction(db, ss).1 == [Exec(db, ss[0]).1] + replies;
      forall i, j | 0 <= i < j < |ss| && Transaction(db, ss).1[i] == Failed
        ensures Transaction(db, ss).1[j] == Failed
      {
        assert replies[i - 1] == Failed;
      }
    }
  }

  lemma NewUser(db: Db, u: UserId)
    requires KeysHold(db)
    ensures var (after, reply) := Exec(db, InsertUser(u));
      && (forall v :: v in after.users <==> v in db.users || v == u)
      && after.groups == db.groups && after.members == db.members && after.messages == db.messages
      && after.codes == db.codes && after.created == db.created
      && reply == if u in db.users then Failed else Command
  {
  }

  /** A new group is public if and only if that was asked for, and its owner is its only member. */
  lemma NewGroup(db: Db, g: GroupId, u: UserId, isPublic: bool)
    requires KeysHold(db)
    ensures var (after, reply) := Exec(db, InsertGroup(g, u, isPublic));
      var done := g !in db.groups && u in db.users;
      && (done ==> g in after.groups && after.groups[g].owner == u && after.groups[g].isPublic == isPublic)
      && (forall h | h != g || !done :: h in after.groups <==> h in db.groups)
      && (forall h | h in db.groups :: h in after.groups && after.groups[h] == db.groups[h])
      && (forall m :: m in after.members <==> m in db.members || (done && m.user == u && m.group == g))
      && (forall m | m in db.members :: after.members[m] == db.members[m])
      && (done ==> after.members[Member(u, g)] == AsOwner)
      && after.users == db.users && after.messages == db.messages && after.codes == db.codes
      && after.created == db.created
      && reply == if done then Joined([g]) else Failed
  {
    var done := g !in db.groups && u in db.users;
    var db' := db.(groups := db.groups[g := Group(u, isPublic)], members := db.members[Member(u, g) := AsOwner]);
    assert g in db'.groups;
    if done {
      assert forall m | m in db.members :: m.group != g;
      assert KeysHold(db');
    }
  }

  /** Joining a group that is not public is no error, and does nothing; joining twice is one. */
  lemma NewPublicMember(db: Db, u: UserId, g: GroupId)
    requires KeysHold(db)
    ensures var (after, reply) := Exec(db, JoinPublic(u, g));
      var open := g in db.groups && db.groups[g].isPublic;
      var done := open && u in db.users && Member(u, g) !in db.members;
      && (forall m :: m in after.members <==> m in db.members || (done && m.user == u && m.group == g))
      && (forall m | m in db.members :: after.members[m] == db.members[m])
      && (done ==> after.members[Member(u, g)] == Publicly)
      && after.users == db.users && after.groups == db.groups && after.messages == db.messages
      && after.codes == db.codes && after.created == db.created
      && reply == if done || !open then Command else Failed
  {
    var db' := db.(members := db.members[Member(u, g) := Publicly]);
    assert Member(u, g) in db'.members;
  }

  /** A code lets its user into its own group, and is counted; all codes that are used up go. */
  lemma NewMemberByCode(db: Db, u: UserId, c: Code)
    requires KeysHold(db)
    ensures var (after, reply) := Exec(db, JoinByCode(u, c));
      var done := c in db.codes && u in db.users && Member(u, db.codes[c].group) !in db.members;
      && (forall m :: m in after.members <==>
            m in db.members || (done && m.user == u && m.group == db.codes[c].group))
      && (forall m | m in db.members :: after.members[m] == db.members[m])
      && (done ==> after.members[Member(u, db.codes[c].group)] == WithCode(db.codes[c].id))
      && after.users == db.users && after.groups == db.groups && after.messages == db.messages
      && after.created == db.created
      && reply == if done then Joined([db.codes[c].group]) else Failed
  {
    if c in db.codes && Member(u, db.codes[c].group) !in db.members {
      JoinByCodeFields(db, u, c);
      var db' := OnJoinByCode(db, u, c).value.0;
      assert Member(u, db.codes[c].group) in db'.members;
    }
  }

  lemma UsedCodes(db: Db, u: UserId, c: Code, d: Code)
    requires KeysHold(db)
    ensures var (after, reply) := Exec(db, JoinByCode(u, c));
      var uses := if d in db.codes then db.codes[d].uses + (if d == c then 1 else 0) else 0;
      && (reply == Failed ==> after.codes == db.codes)
      && (reply != Failed ==>
            && (d in after.codes <==> d in db.codes && (db.codes[d].maxUses == -1 || uses < db.codes[d].maxUses))
            && (d in after.codes ==> after.codes[d] == db.codes[d].(uses := uses)))
  {
  }

  /** A new code belongs to the group, is unused and has the limit asked for. */
  lemma NewCode(db: Db, c: Code, g: GroupId, maxUses: int, u: UserId)
    requires KeysHold(db)
    ensures var (after, reply) := Exec(db, CreateCode(c, g, maxUses, u));
      var done := Member(u, g) in db.members && c !in db.codes;
      && (forall d :: d in after.codes <==> d in db.codes || (done && d == c))
      && (forall d | d in db.codes :: after.codes[d] == db.codes[d])
      && (done ==>
            && after.codes[c].group == g && after.codes[c].uses == 0 && after.codes[c].maxUses == maxUses
            && after.codes[c].id == |db.created| && after.created == db.created + [Creation(g, maxUses)])
      && (!done ==> after.created == db.created)
      && after.users == db.users && after.groups == db.groups && after.members == db.members
      && after.messages == db.messages
      && reply == if done then Codes([c]) else if Member(u, g) in db.members then Failed else Codes([])
  {
    if Member(u, g) in db.members && c !in db.codes {
      var db' := Effect(db, CreateCode(c, g, maxUses, u)).value.0;
      assert KeysHold(db');
    }
  }

  /** A code goes for any member of its group. */
  lemma CodeIsDeleted(db: Db, c: Code, u: UserId)
    requires KeysHold(db)
    ensures var (after, reply) := Exec(db, DeleteCode(c, u));
      && (forall d :: d in after.codes <==>
            d in db.codes && !(d == c && Member(u, db.codes[c].group) in db.members))
      && (forall d | d in after.codes :: after.codes[d] == db.codes[d])
      && after.users == db.users && after.groups == db.groups && after.members == db.members
      && after.messages == db.messages && after.created == db.created
      && reply == Command
  {
  }

  lemma NewMessage(db: Db, i: MsgId, u: UserId, g: GroupId, atts: Attachments)
    requires KeysHold(db)
    ensures var (after, reply) := Exec(db, InsertMsg(i, u, g, atts));
      var done := i !in db.messages && Member(u, g) in db.members;
      && (forall j :: j in after.messages <==> j in db.messages || (done && j == i))
      && (forall j | j in db.messages :: after.messages[j] == db.messages[j])
      && (done ==>
            && after.messages[i].user == u && after.messages[i].group == g && after.messages[i].attachments == atts)
      && after.users == db.users && after.groups == db.groups && after.members == db.members
      && after.codes == db.codes && after.created == db.created
      && reply == if done then Command else Failed
  {
    var db' := db.(messages := db.messages[i := Message(u, g, atts)]);
    assert i in db'.messages;
  }

  /** A message goes for its author or the owner of its group; every other message stays as it is, and the reply
      gives the group and the attachments of the message that went. */
  lemma MessageIsDeleted(db: Db, i: MsgId, u: UserId)
    requires KeysHold(db)
    ensures var (after, reply) := Exec(db, DeleteMsg(i, u));
      var gone := i in db.messages && (u == db.messages[i].user || u == db.groups[db.messages[i].group].owner);
      && (forall j :: j in after.messages <==> j in db.messages && !(gone && j == i))
      && (forall j | j in after.messages :: after.messages[j] == db.messages[j])
      && after.users == db.users && after.groups == db.groups && after.members == db.members
      && after.codes == db.codes && after.created == db.created
      && reply == if gone then Deleted([(db.messages[i].group, db.messages[i].attachments)]) else Deleted([])
  {
  }

  /** The replies to the deletion of a group: the attachments of its messages that have any, and its members. */
  lemma DeletionAnswers(db: Db, g: GroupId)
    requires KeysHold(db)
    ensures var replies := Transaction(db, DeleteGroupStatements(g)).1;
      && |replies| == 6 && replies[0].AllAttachments? && replies[1].MemberIds?
      && (forall i :: i in replies[0].attachments <==>
            i in db.messages && db.messages[i].group == g && db.messages[i].attachments != [])
      && (forall i | i in replies[0].attachments :: replies[0].attachments[i] == db.messages[i].attachments)
      && (forall u :: u in replies[1].users <==> Member(u, g) in db.members)
      && replies[2..] == [Command, Command, Command, Command]
  {
    GroupIsDeleted(db, g);
    forall u
      ensures u in MembersOf(db, g) <==> Member(u, g) in db.members
    {
      if Member(u, g) in db.members {
        assert Member(u, g).user in MembersOf(db, g);
      }
    }
  }

  /** The rows that the deletion of a group leaves: all that are not the group's, as they are. */
  lemma DeletionRows(db: Db, g: GroupId)
    requires KeysHold(db)
    ensures var after := Transaction(db, DeleteGroupStatements(g)).0;
      && (forall h :: h in after.groups <==> h in db.groups && h != g)
      && (forall h | h in after.groups :: after.groups[h] == db.groups[h])
      && (forall m :: m in after.members <==> m in db.members && m.group != g)
      && (forall m | m in after.members :: after.members[m] == db.members[m])
      && (forall i :: i in after.messages <==> i in db.messages && db.messages[i].group != g)
      && (forall i | i in after.messages :: after.messages[i] == db.messages[i])
      && (forall c :: c in after.codes <==> c in db.codes && db.codes[c].group != g)
      && (forall c | c in after.codes :: after.codes[c] == db.codes[c])
      && after.users == db.users && after.created == db.created
  {
    GroupIsDeleted(db, g);
  }

  /** What a client asks for is what is done, but for two things: a code for no uses is made for one, and a group is
      deleted for its owner only. */
  lemma ActionsIff(db: Db, a: Action)
    requires KeysHold(db)
    ensures a.One? && !(a.statement.CreateCode? && a.statement.maxUses == 0) ==>
      Act(db, a) == (Exec(db, a.statement).0, [Exec(db, a.statement).1])
    ensures a.One? && a.statement.CreateCode? && a.statement.maxUses == 0 ==>
      var s := CreateCode(a.statement.code, a.statement.group, 1, a.statement.user);
      Act(db, a) == (Exec(db, s).0, [Exec(db, s).1])
    ensures a.RemoveGroup? ==>
      (a.group !in Act(db, a).0.groups <==> a.group !in db.groups || db.groups[a.group].owner == a.user)
  {
    if a.RemoveGroup? {
      DeletionRows(db, a.group);
    }
  }

  /** A run does its actions one after the other. */
  lemma {:induction false} RunStep(db: Db, acts: seq<Action>, a: Action)
    ensures Run(db, []) == db && Run(db, acts + [a]) == Act(Run(db, acts), a).0
    decreases |acts|
  {
    if acts == [] {
      assert ([] + [a])[1..] == [];
    } else {
      RunStep(Act(db, acts[0]).0, acts[1..], a);
      assert (acts + [a])[1..] == acts[1..] + [a];
    }
  }

  // ---- How long a message lasts ----

  /** The actions that delete a message: its own deletion for its author or the owner of its group, and the deletion of
      the group for that owner. */
  predicate Deletes(a: Action, i: MsgId, m: Message, owner: UserId) {
    match a
    case One(s) => s.DeleteMsg? && s.msg == i && (s.user == m.user || s.user == owner)
    case RemoveGroup(g, u) => g == m.group && u == owner
  }

  predicate Stores(a: Action, i: MsgId) {
    a.One? && a.statement.InsertMsg? && a.statement.msg == i
  }

  /** One action, for a message that is there. */
  lemma MessageStaysOnce(db: Db, a: Action, i: MsgId)
    requires Inv(db) && FromClient(a) && i in db.messages
    ensures var after := Act(db, a).0; var m := db.messages[i];
      && (i in after.messages <==> !Deletes(a, i, m, db.groups[m.group].owner))
      && (i in after.messages ==>
            && after.messages[i] == m && m.group in after.groups
            && after.groups[m.group].owner == db.groups[m.group].owner)
  {
    ActionsIff(db, a);
    match a
    case One(s) => StatementKeepsMessage(db, if s.CreateCode? then s.(maxUses := ServerMaxUses(s.maxUses)) else s, i);
    case RemoveGroup(g, u) => DeletionRows(db, g);
  }

  lemma StatementKeepsMessage(db: Db, s: Statement, i: MsgId)
    requires KeysHold(db) && FromClient(One(s)) && i in db.messages
    ensures var after := Exec(db, s).0; var m := db.messages[i];
      && (i in after.messages <==> !Deletes(One(s), i, m, db.groups[m.group].owner))
      && (i in after.messages ==> after.messages[i] == m)
      && (forall g | g in db.groups :: g in after.groups && after.groups[g] == db.groups[g])
  {
  }

  lemma MessageStaysAway(db: Db, a: Action, i: MsgId)
    requires KeysHold(db) && FromClient(a) && i !in db.messages && !Stores(a, i)
    ensures i !in Act(db, a).0.messages
  {
    ActionsIff(db, a);
    if a.RemoveGroup? {
      DeletionRows(db, a.group);
    }
  }

  lemma {:induction false} GoneForGood(db: Db, acts: seq<Action>, i: MsgId)
    requires Inv(db) && i !in db.messages && forall a | a in acts :: FromClient(a) && !Stores(a, i)
    ensures i !in Run(db, acts).messages
    decreases |acts|
  {
    if acts != [] {
      var a := acts[0];
      assert FromClient(a);
      ActionKeepsInv(db, a);
      MessageStaysAway(db, a, i);
      GoneForGood(Act(db, a).0, acts[1..], i);
    }
  }

  /** In every run a message that is there stays, as it is, if and only if its author or the owner of its group does
      not delete it, and that owner does not delete the group. */
  lemma {:induction false} MessageStaysIff(db: Db, acts: seq<Action>, i: MsgId)
    requires Inv(db) && i in db.messages && forall a | a in acts :: FromClient(a) && !Stores(a, i)
    ensures var after := Run(db, acts); var m := db.messages[i];
      && (i in after.messages <==> forall a | a in acts :: !Deletes(a, i, m, db.groups[m.group].owner))
      && (i in after.messages ==> after.messages[i] == m)
    decreases |acts|
  {
    if acts != [] {
      var a := acts[0];
      assert FromClient(a);
      ActionKeepsInv(db, a);
      MessageStaysOnce(db, a, i);
      var next := Act(db, a).0;
      if i in next.messages {
        MessageStaysIff(next, acts[1..], i);
        assert forall b :: b in acts <==> b == a || b in acts[1..];
      } else {
        GoneForGood(next, acts[1..], i);
      }
    }
  }
}
