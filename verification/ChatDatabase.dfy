/** The database's tables as they change: the statements and triggers of the chat, row by row. */
module ChatDatabase {
  import opened Sequences
  import opened ChatDb

  /** A membership keeps the foreign keys if and only if its user and its group exist. */
  lemma NewMemberKeys(db: Db, db': Db, m: Member, via: Via)
    requires KeysHold(db) && db'.members == db.members[m := via] && db'.users == db.users && db'.groups == db.groups
    requires db'.messages == db.messages
    requires forall c | c in db'.codes :: c in db.codes && db'.codes[c].group == db.codes[c].group
    ensures KeysHold(db') <==> m.user in db.users && m.group in db.groups
  {
    assert m in db'.members;
  }

  lemma NewMessageKeys(db: Db, i: MsgId, m: Message)
    requires KeysHold(db)
    ensures KeysHold(db.(messages := db.messages[i := m])) <==> Member(m.user, m.group) in db.members
  {
    var db' := db.(messages := db.messages[i := m]);
    assert i in db'.messages;
  }

  lemma NewGroupKeys(db: Db, g: GroupId, owner: UserId, isPublic: bool)
    requires KeysHold(db) && g !in db.groups
    ensures KeysHold(db.(groups := db.groups[g := Group(owner, isPublic)],
                         members := db.members[Member(owner, g) := AsOwner]))
      <==> owner in db.users
  {
    var db' := db.(groups := db.groups[g := Group(owner, isPublic)],
                   members := db.members[Member(owner, g) := AsOwner]);
    assert g in db'.groups;
  }

  class Database {
    var users: set<UserId>
    var groups: map<GroupId, Group>
    var members: map<Member, Via>
    var messages: map<MsgId, Message>
    var codes: map<Code, Invite>
    var created: seq<Creation>

    ghost function Value(): Db
      reads this
    {
      Db(users, groups, members, messages, codes, created)
    }

    constructor ()
      ensures Value() == EMPTY && KeysHold(Value())
    {
      users, groups, members, messages, codes, created := {}, map[], map[], map[], map[], [];
    }

    /** A new group; the trigger makes its owner a member. */
    method InsertGroup(g: GroupId, owner: UserId, isPublic: bool) returns (reply: Reply)
      requires KeysHold(Value()) && g !in groups
      modifies this
      ensures (Value(), reply) == Exec(old(Value()), Statement.InsertGroup(g, owner, isPublic))
      ensures KeysHold(Value())
    {
      NewGroupKeys(Value(), g, owner, isPublic);
      if owner !in users {
        return Failed;
      }
      groups := groups[g := Group(owner, isPublic)];
      InsertOwnerGroupMember(g);
      reply := Joined([g]);
    }

    method InsertOwnerGroupMember(g: GroupId)
      requires g in groups
      modifies this
      ensures Value() == old(Value()).(members := old(members)[Member(old(groups[g].owner), g) := AsOwner])
    {
      members := members[Member(groups[g].owner, g) := AsOwner];
    }

    /** Joins a public group; for any other group nothing happens, and that is no error. */
    method JoinPublic(u: UserId, g: GroupId) returns (reply: Reply)
      requires KeysHold(Value())
      modifies this
      ensures (Value(), reply) == Exec(old(Value()), Statement.JoinPublic(u, g))
      ensures KeysHold(Value())
    {
      if g !in groups || !groups[g].isPublic {
        return Command;
      }
      if Member(u, g) in members {
        return Failed;
      }
      NewMemberKeys(Value(), Value().(members := members[Member(u, g) := Publicly]), Member(u, g), Publicly);
      if u !in users {
        return Failed;
      }
      members := members[Member(u, g) := Publicly];
      reply := Command;
    }

    /** Deletes every code that is used up. */
    method DeleteGroupcodeIfOverMax()
      modifies this
      ensures Value() == old(Value()).(codes := WithoutUsedUp(old(codes)))
    {
      ghost var all := codes;
      var todo := codes.Keys;
      while todo != {}
        invariant todo <= all.Keys && Value() == old(Value()).(codes := codes)
        invariant forall c | c in codes :: c in all && codes[c] == all[c]
        invariant forall c | c in todo :: c in codes
        invariant forall c | c in all && c !in todo ::
          c in codes <==> all[c].maxUses == NO_LIMIT || all[c].uses < all[c].maxUses
        decreases |todo|
      {
        var c :| c in todo;
        if codes[c].maxUses != NO_LIMIT && codes[c].uses >= codes[c].maxUses {
          codes := codes - {c};
        }
        todo := todo - {c};
      }
      assert codes == WithoutUsedUp(all);
    }

    /** Joins with a code, counts the use, and lets the trigger sweep. */
    method JoinByCode(u: UserId, c: Code) returns (reply: Reply)
      requires KeysHold(Value())
      modifies this
      ensures (Value(), reply) == Exec(old(Value()), Statement.JoinByCode(u, c))
      ensures KeysHold(Value())
    {
      if c !in codes || Member(u, codes[c].group) in members {
        return Failed;
      }
      ghost var after := OnJoinByCode(Value(), u, c).value.0;
      JoinByCodeFields(Value(), u, c);
      NewMemberKeys(Value(), after, Member(u, codes[c].group), WithCode(codes[c].id));
      if u !in users {
        return Failed;
      }
      var g := codes[c].group;
      members := members[Member(u, g) := WithCode(codes[c].id)];
      codes := codes[c := codes[c].(uses := codes[c].uses + 1)];
      DeleteGroupcodeIfOverMax();
      reply := Joined([g]);
    }

    /** A code, for members of the group only. */
    method CreateCode(c: Code, g: GroupId, maxUses: int, u: UserId) returns (reply: Reply)
      requires KeysHold(Value())
      modifies this
      ensures (Value(), reply) == Exec(old(Value()), Statement.CreateCode(c, g, maxUses, u))
      ensures KeysHold(Value())
    {
      if Member(u, g) !in members {
        return Codes([]);
      }
      if c in codes {
        return Failed;
      }
      codes := codes[c := Invite(|created|, g, 0, maxUses)];
      created := created + [Creation(g, maxUses)];
      reply := Codes([c]);
    }

    /** A message, for members of the group only. */
    method InsertMsg(i: MsgId, u: UserId, g: GroupId, atts: Attachments) returns (reply: Reply)
      requires KeysHold(Value()) && i !in messages
      modifies this
      ensures (Value(), reply) == Exec(old(Value()), Statement.InsertMsg(i, u, g, atts))
      ensures KeysHold(Value())
    {
      NewMessageKeys(Value(), i, Message(u, g, atts));
      if Member(u, g) !in members {
        return Failed;
      }
      messages := messages[i := Message(u, g, atts)];
      reply := Command;
    }

    /** Deletes a message for its author or the owner of its group, and returns its attachments. */
    method DeleteMsg(i: MsgId, u: UserId) returns (reply: Reply)
      requires KeysHold(Value())
      modifies this
      ensures (Value(), reply) == Exec(old(Value()), Statement.DeleteMsg(i, u))
      ensures KeysHold(Value())
    {
      if i !in messages {
        return Deleted([]);
      }
      var m := messages[i];
      if m.user != u && groups[m.group].owner != u {
        return Deleted([]);
      }
      messages := messages - {i};
      reply := Deleted([(m.group, m.attachments)]);
    }

    method DeleteMessagesOf(g: GroupId)
      modifies this
      ensures Value() == NoMessages(old(Value()), g)
    {
      ghost var all := messages;
      var todo := messages.Keys;
      while todo != {}
        invariant todo <= all.Keys && Value() == old(Value()).(messages := messages)
        invariant forall i | i in messages :: i in all && messages[i] == all[i]
        invariant forall i | i in todo :: i in messages
        invariant forall i | i in all && i !in todo :: i in messages <==> all[i].group != g
        decreases |todo|
      {
        var i :| i in todo;
        if messages[i].group == g {
          messages := messages - {i};
        }
        todo := todo - {i};
      }
      assert messages == NoMessages(old(Value()), g).messages;
    }

    method DeleteMembersOf(g: GroupId)
      modifies this
      ensures Value() == NoMembers(old(Value()), g)
    {
      ghost var all := members;
      var todo := members.Keys;
      while todo != {}
        invariant todo <= all.Keys && Value() == old(Value()).(members := members)
        invariant forall m | m in members :: m in all && members[m] == all[m]
        invariant forall m | m in todo :: m in members
        invariant forall m | m in all && m !in todo :: m in members <==> m.group != g
        decreases |todo|
      {
        var m :| m in todo;
        if m.group == g {
          members := members - {m};
        }
        todo := todo - {m};
      }
      assert members == NoMembers(old(Value()), g).members;
    }

    method DeleteCodesOf(g: GroupId)
      modifies this
      ensures Value() == NoCodes(old(Value()), g)
    {
      ghost var all := codes;
      var todo := codes.Keys;
      while todo != {}
        invariant todo <= all.Keys && Value() == old(Value()).(codes := codes)
        invariant forall c | c in codes :: c in all && codes[c] == all[c]
        invariant forall c | c in todo :: c in codes
        invariant forall c | c in all && c !in todo :: c in codes <==> all[c].group != g
        decreases |todo|
      {
        var c :| c in todo;
        if codes[c].group == g {
          codes := codes - {c};
        }
        todo := todo - {c};
      }
      assert codes == NoCodes(old(Value()), g).codes;
    }

    /** Deletes a group with everything in it, and returns its attachments and members from before. Every statement
        leaves the foreign keys whole, so the transaction commits. */
    method DeleteGroup(g: GroupId) returns (attachments: map<MsgId, Attachments>, memberIds: set<UserId>)
      requires KeysHold(Value())
      modifies this
      ensures Value() == Transaction(old(Value()), DeleteGroupStatements(g)).0 == Without(old(Value()), g)
      ensures attachments == AttachmentsOf(old(Value()), g) && memberIds == MembersOf(old(Value()), g)
      ensures KeysHold(Value())
    {
      GroupIsDeleted(Value(), g);
      NothingLeft(Value(), g);
      attachments := map i | i in messages && messages[i].group == g && messages[i].attachments != []
        :: messages[i].attachments;
      memberIds := set m | m in members && m.group == g :: m.user;
      DeleteMessagesOf(g);
      assert KeysHold(Value());
      DeleteMembersOf(g);
      assert KeysHold(Value());
      DeleteCodesOf(g);
      assert KeysHold(Value());
      groups := groups - {g};
    }
  }
}
