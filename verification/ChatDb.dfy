/** The tables of groups, members, messages and invite codes, with their keys and triggers. */
module ChatDb {
  import opened Sequences

  type UserId = nat
  type GroupId = nat
  type MsgId = nat
  type Code = string
  type Attachments = seq<string>

  datatype Group = Group(owner: UserId, isPublic: bool)
  datatype Member = Member(user: UserId, group: GroupId)
  datatype Message = Message(user: UserId, group: GroupId, attachments: Attachments)

  /** An invite code; `id` tells codes apart that happen to read the same at different times. */
  datatype Invite = Invite(id: nat, group: GroupId, uses: int, maxUses: int)

  /** What a code was created for. */
  datatype Creation = Creation(group: GroupId, maxUses: int)

  /** How a member came in. */
  datatype Via = AsOwner | Publicly | WithCode(id: nat)

  datatype Db = Db(
    users: set<UserId>,
    groups: map<GroupId, Group>,
    members: map<Member, Via>,
    messages: map<MsgId, Message>,
    codes: map<Code, Invite>,
    created: seq<Creation>  // every code there has been, by its `id`
  )

  const NO_LIMIT: int := -1

  datatype Statement =
    | InsertUser(user: UserId)
    | InsertGroup(group: GroupId, owner: UserId, isPublic: bool)
    | JoinPublic(user: UserId, group: GroupId)
    | JoinByCode(user: UserId, code: Code)
    | CreateCode(code: Code, group: GroupId, maxUses: int, user: UserId)
    | DeleteCode(code: Code, user: UserId)
    | InsertMsg(msg: MsgId, user: UserId, group: GroupId, attachments: Attachments)
    | DeleteMsg(msg: MsgId, user: UserId)
    | SelectAttachments(group: GroupId)
    | SelectMembers(group: GroupId)
    | DeleteMessagesOf(group: GroupId)
    | DeleteMembersOf(group: GroupId)
    | DeleteCodesOf(group: GroupId)
    | DeleteGroup(group: GroupId)

  datatype Reply =
    | Failed
    | Command
    | Joined(groups: seq<GroupId>)
    | Codes(codes: seq<Code>)
    | Deleted(rows: seq<(GroupId, Attachments)>)
    | AllAttachments(attachments: map<MsgId, Attachments>)
    | MemberIds(users: set<UserId>)

  // ---- Foreign keys ----

  ghost predicate GroupKeys(db: Db) {
    forall g | g in db.groups :: db.groups[g].owner in db.users
  }

  ghost predicate MemberKeys(db: Db) {
    forall m | m in db.members :: m.user in db.users && m.group in db.groups
  }

  ghost predicate MessageKeys(db: Db) {
    forall i | i in db.messages ::
      var m := db.messages[i];
      m.user in db.users && m.group in db.groups && Member(m.user, m.group) in db.members
  }

  ghost predicate CodeKeys(db: Db) {
    forall c | c in db.codes :: db.codes[c].group in db.groups
  }

  ghost predicate KeysHold(db: Db) {
    GroupKeys(db) && MemberKeys(db) && MessageKeys(db) && CodeKeys(db)
  }

  // ---- What a statement does before its foreign keys are checked; `None` if a primary key is violated ----

  /** The trigger behind every use of a code: it deletes all codes that are used up. */
  function WithoutUsedUp(codes: map<Code, Invite>): map<Code, Invite> {
    map c | c in codes && (codes[c].maxUses == NO_LIMIT || codes[c].uses < codes[c].maxUses) :: codes[c]
  }

  function MembersOf(db: Db, g: GroupId): set<UserId> {
    set m | m in db.members && m.group == g :: m.user
  }

  function AttachmentsOf(db: Db, g: GroupId): map<MsgId, Attachments> {
    map i | i in db.messages && db.messages[i].group == g && db.messages[i].attachments != []
      :: db.messages[i].attachments
  }

  function OnJoinByCode(db: Db, u: UserId, c: Code): Option<(Db, Reply)> {
    if c !in db.codes then None
    else
      var invite := db.codes[c];
      var m := Member(u, invite.group);
      if m in db.members then None
      else
        var used := db.codes[c := invite.(uses := invite.uses + 1)];
        Some((db.(members := db.members[m := WithCode(invite.id)], codes := WithoutUsedUp(used)),
              Joined([invite.group])))
  }

  function OnDeleteMsg(db: Db, i: MsgId, u: UserId): (Db, Reply) {
    if i !in db.messages || db.messages[i].group !in db.groups then (db, Deleted([]))
    else
      var m := db.messages[i];
      if m.user == u || db.groups[m.group].owner == u
      then (db.(messages := db.messages - {i}), Deleted([(m.group, m.attachments)]))
      else (db, Deleted([]))
  }

  function NoMessages(db: Db, g: GroupId): Db {
    db.(messages := map i | i in db.messages && db.messages[i].group != g :: db.messages[i])
  }

  function NoMembers(db: Db, g: GroupId): Db {
    db.(members := map m | m in db.members && m.group != g :: db.members[m])
  }

  function NoCodes(db: Db, g: GroupId): Db {
    db.(codes := map c | c in db.codes && db.codes[c].group != g :: db.codes[c])
  }

  function NoGroup(db: Db, g: GroupId): Db {
    db.(groups := db.groups - {g})
  }

  function Effect(db: Db, s: Statement): Option<(Db, Reply)> {
    match s
    case InsertUser(u) => if u in db.users then None else Some((db.(users := db.users + {u}), Command))
    case InsertGroup(g, owner, isPublic) =>
      if g in db.groups || Member(owner, g) in db.members then None
      else
        Some((db.(groups := db.groups[g := Group(owner, isPublic)], members := db.members[Member(owner, g) := AsOwner]),
              Joined([g])))
    case JoinPublic(u, g) =>
      if !(g in db.groups && db.groups[g].isPublic) then Some((db, Command))
      else if Member(u, g) in db.members then None
      else Some((db.(members := db.members[Member(u, g) := Publicly]), Command))
    case JoinByCode(u, c) => OnJoinByCode(db, u, c)
    case CreateCode(c, g, maxUses, u) =>
      if Member(u, g) !in db.members then Some((db, Codes([])))
      else if c in db.codes then None
      else 
        Some((db.(codes := db.codes[c := Invite(|db.created|, g, 0, maxUses)],
                  created := db.created + [Creation(g, maxUses)]),
              Codes([c])))
    case DeleteCode(c, u) =>
      if c in db.codes && Member(u, db.codes[c].group) in db.members
      then Some((db.(codes := db.codes - {c}), Command))
      else Some((db, Command))
    case InsertMsg(i, u, g, atts) =>
      if i in db.messages then None else Some((db.(messages := db.messages[i := Message(u, g, atts)]), Command))
    case DeleteMsg(i, u) => Some(OnDeleteMsg(db, i, u))
    case SelectAttachments(g) => Some((db, AllAttachments(AttachmentsOf(db, g))))
    case SelectMembers(g) => Some((db, MemberIds(MembersOf(db, g))))
    case DeleteMessagesOf(g) => Some((NoMessages(db, g), Command))
    case DeleteMembersOf(g) => Some((NoMembers(db, g), Command))
    case DeleteCodesOf(g) => Some((NoCodes(db, g), Command))
    case DeleteGroup(g) => Some((NoGroup(db, g), Command))
  }

  /** One statement, all or nothing. */
  ghost function Exec(db: Db, s: Statement): (Db, Reply) {
    match Effect(db, s)
    case None => (db, Failed)
    case Some((db', reply)) => if KeysHold(db') then (db', reply) else (db, Failed)
  }

  /** A transaction: a failure makes all later statements fail and undoes the earlier ones. */
  ghost function ExecAll(db: Db, ss: seq<Statement>): (Db, seq<Reply>)
    decreases |ss|
  {
    if ss == [] then (db, [])
    else
      var (next, reply) := Exec(db, ss[0]);
      if reply == Failed then (db, seq(|ss|, _ => Failed))
      else
        var (after, replies) := ExecAll(next, ss[1..]);
        (after, [reply] + replies)
  }

  ghost function Transaction(db: Db, ss: seq<Statement>): (Db, seq<Reply>) {
    var (after, replies) := ExecAll(db, ss);
    (if Failed in replies then db else after, replies)
  }

  // ---- Deleting a group ----

  function DeleteGroupStatements(g: GroupId): seq<Statement> {
    [SelectAttachments(g), SelectMembers(g), DeleteMessagesOf(g), DeleteMembersOf(g), DeleteCodesOf(g), DeleteGroup(g)]
  }

  /** The tables without a group. */
  function Without(db: Db, g: GroupId): Db {
    db.(groups := db.groups - {g},
        members := map m | m in db.members && m.group != g :: db.members[m],
        messages := map i | i in db.messages && db.messages[i].group != g :: db.messages[i],
        codes := map c | c in db.codes && db.codes[c].group != g :: db.codes[c])
  }

  ghost predicate HasMessages(db: Db, g: GroupId) {
    exists i :: i in db.messages && db.messages[i].group == g
  }

  ghost predicate HasMembers(db: Db, g: GroupId) {
    exists m :: m in db.members && m.group == g
  }

  ghost predicate HasCodes(db: Db, g: GroupId) {
    exists c :: c in db.codes && db.codes[c].group == g
  }

  /** Members can go only when their messages are gone, and a group only when everything in it is. */
  lemma DeletionsIff(db: Db, g: GroupId)
    requires KeysHold(db)
    ensures KeysHold(NoMessages(db, g)) && KeysHold(NoCodes(db, g))
    ensures KeysHold(NoMembers(db, g)) <==> !HasMessages(db, g)
    ensures g in db.groups ==>
      (KeysHold(NoGroup(db, g)) <==> !HasMembers(db, g) && !HasMessages(db, g) && !HasCodes(db, g))
  {
    NoMembersIff(db, g);
    NoGroupIff(db, g);
  }

  lemma NoMembersIff(db: Db, g: GroupId)
    requires KeysHold(db)
    ensures KeysHold(NoMembers(db, g)) <==> !HasMessages(db, g)
  {
    if i :| i in db.messages && db.messages[i].group == g {
      assert Member(db.messages[i].user, g) !in NoMembers(db, g).members;
      assert i in NoMembers(db, g).messages;
    }
  }

  lemma NoGroupIff(db: Db, g: GroupId)
    requires KeysHold(db)
    ensures KeysHold(NoGroup(db, g)) <==> !HasMembers(db, g) && !HasMessages(db, g) && !HasCodes(db, g)
  {
    var db' := NoGroup(db, g);
    assert GroupKeys(db');
    if m :| m in db.members && m.group == g {
      assert !MemberKeys(db');
    }
    if i :| i in db.messages && db.messages[i].group == g {
      assert i in db'.messages && !MessageKeys(db');
    }
    if c :| c in db.codes && db.codes[c].group == g {
      assert c in db'.codes && !CodeKeys(db');
    }
  }

  /** A statement in front of others. */
  lemma ExecNext(db: Db, s: Statement, db': Db, reply: Reply, rest: seq<Statement>, after: Db, replies: seq<Reply>)
    requires Effect(db, s) == Some((db', reply)) && reply != Failed && KeysHold(db')
    requires ExecAll(db', rest) == (after, replies)
    ensures ExecAll(db, [s] + rest) == (after, [reply] + replies)
  {
    assert ([s] + rest)[1..] == rest;
  }

  /** The deletions after that of the messages, one by one. */
  lemma DeletionsRun(db1: Db, db2: Db, db3: Db, db4: Db, g: GroupId)
    requires db2 == NoMembers(db1, g) && db3 == NoCodes(db2, g) && db4 == NoGroup(db3, g)
    requires KeysHold(db2) && KeysHold(db3) && KeysHold(db4)
    ensures ExecAll(db1, [DeleteMembersOf(g)] + ([DeleteCodesOf(g)] + ([DeleteGroup(g)] + [])))
      == (db4, [Command] + ([Command] + ([Command] + [])))
  {
    ExecNext(db3, DeleteGroup(g), db4, Command, [], db4, []);
    ExecNext(db2, DeleteCodesOf(g), db3, Command, [DeleteGroup(g)] + [], db4, [Command] + []);
    ExecNext(db1, DeleteMembersOf(g), db2, Command, [DeleteCodesOf(g)] + ([DeleteGroup(g)] + []), db4,
             [Command] + ([Command] + []));
  }

  lemma NothingLeft(db: Db, g: GroupId)
    requires KeysHold(db)
    ensures var db' := NoCodes(NoMembers(NoMessages(db, g), g), g);
      && KeysHold(NoMessages(db, g)) && KeysHold(NoMembers(NoMessages(db, g), g)) && KeysHold(db')
        && KeysHold(NoGroup(db', g))
      && NoGroup(db', g) == Without(db, g)
  {
    DeletionsIff(db, g);
    var db1 := NoMessages(db, g);
    assert !HasMessages(db1, g);
    DeletionsIff(db1, g);
    var db2 := NoMembers(db1, g);
    assert !HasMembers(db2, g) && !HasMessages(db2, g);
    DeletionsIff(db2, g);
    var db3 := NoCodes(db2, g);
    assert !HasMembers(db3, g) && !HasMessages(db3, g) && !HasCodes(db3, g);
    NoGroupIff(db3, g);
  }

  /** The deletion of a group, in the order of its statements, breaks no foreign key on the way, removes just that
      group with its members, messages and codes, and returns the attachments and members from before. */
  lemma GroupIsDeleted(db: Db, g: GroupId)
    requires KeysHold(db)
    ensures Transaction(db, DeleteGroupStatements(g))
      == (Without(db, g),
          [AllAttachments(AttachmentsOf(db, g)), MemberIds(MembersOf(db, g)), Command, Command, Command, Command])
    ensures KeysHold(Without(db, g))
  {
    NothingLeft(db, g);
    var db1 := NoMessages(db, g);
    var db2 := NoMembers(db1, g);
    DeletionsRun(db1, db2, NoCodes(db2, g), Without(db, g), g);
    SelectsRun(db, db1, g, [DeleteMembersOf(g)] + ([DeleteCodesOf(g)] + ([DeleteGroup(g)] + [])), Without(db, g),
               [Command] + ([Command] + ([Command] + [])));
    var replies :=
      [AllAttachments(AttachmentsOf(db, g)), MemberIds(MembersOf(db, g)), Command, Command, Command, Command];
    var rest := [DeleteMembersOf(g)] + ([DeleteCodesOf(g)] + ([DeleteGroup(g)] + []));
    var first := [SelectAttachments(g), SelectMembers(g), DeleteMessagesOf(g)];
    var said := [AllAttachments(AttachmentsOf(db, g)), MemberIds(MembersOf(db, g)), Command];
    assert first + rest == DeleteGroupStatements(g);
    assert said + ([Command] + ([Command] + ([Command] + []))) == replies;
    Committed(db, DeleteGroupStatements(g), Without(db, g), replies);
  }

  lemma SelectsRun(db: Db, db1: Db, g: GroupId, rest: seq<Statement>, after: Db, replies: seq<Reply>)
    requires KeysHold(db) && db1 == NoMessages(db, g) && KeysHold(db1) && ExecAll(db1, rest) == (after, replies)
    ensures ExecAll(db, [SelectAttachments(g), SelectMembers(g), DeleteMessagesOf(g)] + rest)
      == (after, [AllAttachments(AttachmentsOf(db, g)), MemberIds(MembersOf(db, g)), Command] + replies)
  {
    ExecNext(db, DeleteMessagesOf(g), db1, Command, rest, after, replies);
    ExecNext(db, SelectMembers(g), db, MemberIds(MembersOf(db, g)), [DeleteMessagesOf(g)] + rest, after,
      [Command] + replies);
    var atts, ids := AllAttachments(AttachmentsOf(db, g)), MemberIds(MembersOf(db, g));
    ExecNext(db, SelectAttachments(g), db, atts, [SelectMembers(g)] + ([DeleteMessagesOf(g)] + rest), after,
             [ids] + ([Command] + replies));
    ThreeInFront(SelectAttachments(g), SelectMembers(g), DeleteMessagesOf(g), rest);
    ThreeInFront(atts, ids, Command, replies);
  }

  lemma ThreeInFront<T>(a: T, b: T, c: T, rest: seq<T>)
    ensures [a] + ([b] + ([c] + rest)) == [a, b, c] + rest
  {
  }

  lemma Committed(db: Db, ss: seq<Statement>, after: Db, replies: seq<Reply>)
    requires ExecAll(db, ss) == (after, replies) && Failed !in replies
    ensures Transaction(db, ss) == (after, replies)
  {
  }

  /** With members deleted before messages, the same deletion works if and only if the group has no messages. */
  lemma MembersFirstIff(db: Db, g: GroupId)
    requires KeysHold(db)
    ensures Transaction(db, [DeleteMembersOf(g), DeleteMessagesOf(g), DeleteCodesOf(g), DeleteGroup(g)]).0
      == Without(db, g)
      <==> !HasMessages(db, g)
  {
    var ss := [DeleteMembersOf(g), DeleteMessagesOf(g), DeleteCodesOf(g), DeleteGroup(g)];
    DeletionsIff(db, g);
    if HasMessages(db, g) {
      MembersFirstFails(db, g, ss);
    } else {
      MembersFirstWorks(db, g, ss);
    }
  }

  lemma MembersFirstWorks(db: Db, g: GroupId, ss: seq<Statement>)
    requires KeysHold(db) && !HasMessages(db, g)
    requires ss == [DeleteMembersOf(g), DeleteMessagesOf(g), DeleteCodesOf(g), DeleteGroup(g)]
    ensures Transaction(db, ss).0 == Without(db, g)
  {
    var db1 := NoMembers(db, g);
    NoMessagesStays(db, g);
    MembersFirstRuns(db, db1, NoCodes(db1, g), Without(db, g), g);
    FourInFront(DeleteMembersOf(g), DeleteMessagesOf(g), DeleteCodesOf(g), DeleteGroup(g));
    Committed(db, ss, Without(db, g), [Command] + ([Command] + ([Command] + ([Command] + []))));
  }

  lemma NoMessagesStays(db: Db, g: GroupId)
    requires KeysHold(db) && !HasMessages(db, g)
    ensures var db1 := NoMembers(db, g); var db2 := NoCodes(db1, g);
      && NoMessages(db1, g) == db1 && NoGroup(db2, g) == Without(db, g)
      && KeysHold(db1) && KeysHold(db2) && KeysHold(Without(db, g))
  {
    NothingLeft(db, g);
    assert NoMessages(db, g) == db;
  }

  /** The deletions with members first, one by one. */
  lemma MembersFirstRuns(db: Db, db1: Db, db2: Db, db3: Db, g: GroupId)
    requires db1 == NoMembers(db, g) && NoMessages(db1, g) == db1 && db2 == NoCodes(db1, g) && db3 == NoGroup(db2, g)
    requires KeysHold(db1) && KeysHold(db2) && KeysHold(db3)
    ensures ExecAll(db, [DeleteMembersOf(g)] + ([DeleteMessagesOf(g)] + ([DeleteCodesOf(g)] + ([DeleteGroup(g)] + []))))
      == (db3, [Command] + ([Command] + ([Command] + ([Command] + []))))
  {
    ExecNext(db2, DeleteGroup(g), db3, Command, [], db3, []);
    ExecNext(db1, DeleteCodesOf(g), db2, Command, [DeleteGroup(g)] + [], db3, [Command] + []);
    ExecNext(db1, DeleteMessagesOf(g), db1, Command, [DeleteCodesOf(g)] + ([DeleteGroup(g)] + []), db3,
             [Command] + ([Command] + []));
    ExecNext(db, DeleteMembersOf(g), db1, Command,
      [DeleteMessagesOf(g)] + ([DeleteCodesOf(g)] + ([DeleteGroup(g)] + [])),
             db3, [Command] + ([Command] + ([Command] + [])));
  }

  lemma FourInFront<T>(a: T, b: T, c: T, d: T)
    ensures [a] + ([b] + ([c] + ([d] + []))) == [a, b, c, d]
  {
  }

  lemma MembersFirstFails(db: Db, g: GroupId, ss: seq<Statement>)
    requires HasMessages(db, g) && !KeysHold(NoMembers(db, g)) && ss != [] && ss[0] == DeleteMembersOf(g)
    ensures Transaction(db, ss).0 == db != Without(db, g)
  {
    assert Exec(db, ss[0]).1 == Failed;
    assert ExecAll(db, ss).1[0] == Failed;
    var i :| i in db.messages && db.messages[i].group == g;
    assert i !in Without(db, g).messages;
  }

  // ---- Runs ----

  /** What the server does: one statement, or, for the owner of a group, its deletion. */
  datatype Action = One(statement: Statement) | RemoveGroup(group: GroupId, user: UserId)

  /** The number of uses a code is created with; a client's 0 becomes 1. */
  function ServerMaxUses(maxUses: int): int {
    if maxUses == 0 then 1 else maxUses
  }

  ghost function Act(db: Db, a: Action): (Db, seq<Reply>) {
    match a
    case One(CreateCode(c, g, maxUses, u)) =>
      var (db', reply) := Exec(db, CreateCode(c, g, ServerMaxUses(maxUses), u));
      (db', [reply])
    case One(s) =>
      var (db', reply) := Exec(db, s);
      (db', [reply])
    case RemoveGroup(g, u) =>
      if g in db.groups && db.groups[g].owner == u then Transaction(db, DeleteGroupStatements(g)) else (db, [])
  }

  /** Rows of a group are deleted by the deletion of the group only. */
  predicate FromClient(a: Action) {
    a.One? ==>
      var s := a.statement;
      !(s.DeleteMessagesOf? || s.DeleteMembersOf? || s.DeleteCodesOf? || s.DeleteGroup?)
  }

  ghost function Run(db: Db, acts: seq<Action>): Db
    decreases |acts|
  {
    if acts == [] then db else Run(Act(db, acts[0]).0, acts[1..])
  }

  const EMPTY := Db({}, map[], map[], map[], map[], [])

  /** The members that a code has let in. */
  function JoinedWith(db: Db, id: nat): set<Member> {
    set m | m in db.members && db.members[m] == WithCode(id)
  }

  ghost predicate OwnersAreMembers(db: Db) {
    forall g | g in db.groups :: Member(db.groups[g].owner, g) in db.members
  }

  ghost predicate MembersCameIn(db: Db) {
    forall m | m in db.members ::
      && m.group in db.groups
      && match db.members[m]
         case AsOwner => m.user == db.groups[m.group].owner
         case Publicly => db.groups[m.group].isPublic
         case WithCode(id) => id < |db.created| && db.created[id].group == m.group
  }

  /** How many a limited code can let in: a limit below one is noticed at the first use. */
  function Bound(maxUses: int): int {
    if maxUses > 1 then maxUses else 1
  }

  ghost predicate CodeIsTrue(db: Db, c: Code)
    requires c in db.codes
  {
    var k := db.codes[c];
    && k.id < |db.created| && db.created[k.id] == Creation(k.group, k.maxUses)
    && k.uses == |JoinedWith(db, k.id)|
    && (k.maxUses != NO_LIMIT ==> k.uses < Bound(k.maxUses))
    && (forall d | d in db.codes && d != c :: db.codes[d].id != k.id)
  }

  ghost predicate CodesAreTrue(db: Db) {
    forall c | c in db.codes :: CodeIsTrue(db, c)
  }

  ghost predicate LimitHolds(db: Db, id: nat)
    requires id < |db.created|
  {
    db.created[id].maxUses != NO_LIMIT ==> |JoinedWith(db, id)| <= Bound(db.created[id].maxUses)
  }

  ghost predicate LimitsHold(db: Db) {
    forall id | 0 <= id < |db.created| :: LimitHolds(db, id)
  }

  ghost predicate Inv(db: Db) {
    KeysHold(db) && OwnersAreMembers(db) && MembersCameIn(db) && CodesAreTrue(db) && LimitsHold(db)
  }

  lemma SameMembersInv(db: Db, db': Db)
    requires Inv(db) && KeysHold(db') && db'.members == db.members && db'.groups == db.groups
      && db'.created == db.created
    requires forall c | c in db'.codes :: c in db.codes && db'.codes[c] == db.codes[c]
    ensures Inv(db')
  {
    assert forall id :: JoinedWith(db', id) == JoinedWith(db, id);
    forall c | c in db'.codes
      ensures CodeIsTrue(db', c)
    {
      assert CodeIsTrue(db, c);
    }
    forall id | 0 <= id < |db'.created|
      ensures LimitHolds(db', id)
    {
      assert LimitHolds(db, id);
    }
  }

  lemma JoinAdds(db: Db, m: Member, via: Via, id: nat)
    requires m !in db.members
    ensures JoinedWith(db.(members := db.members[m := via]), id)
      == JoinedWith(db, id) + (if via == WithCode(id) then {m} else {})
    ensures m !in JoinedWith(db, id)
  {
  }

  /** A new member who has used no code. */
  lemma NewMemberInv(db: Db, db': Db, m: Member, via: Via)
    requires Inv(db) && m !in db.members && !via.WithCode?
    requires db'.members == db.members[m := via] && db'.codes == db.codes && db'.created == db.created
    requires KeysHold(db') && OwnersAreMembers(db') && MembersCameIn(db')
    ensures Inv(db')
  {
    forall id: nat
      ensures JoinedWith(db', id) == JoinedWith(db, id)
    {
      JoinAdds(db, m, via, id);
      assert JoinedWith(db', id) == JoinedWith(db.(members := db.members[m := via]), id);
    }
    forall c | c in db'.codes
      ensures CodeIsTrue(db', c)
    {
      assert CodeIsTrue(db, c);
    }
    forall id | 0 <= id < |db'.created|
      ensures LimitHolds(db', id)
    {
      assert LimitHolds(db, id);
    }
  }

  lemma InsertGroupInv(db: Db, g: GroupId, owner: UserId, isPublic: bool)
    requires Inv(db)
    ensures Inv(Exec(db, InsertGroup(g, owner, isPublic)).0)
  {
    var s := InsertGroup(g, owner, isPublic);
    if Effect(db, s).Some? && KeysHold(Effect(db, s).value.0) {
      NewMemberInv(db, Effect(db, s).value.0, Member(owner, g), AsOwner);
    }
  }

  lemma JoinPublicInv(db: Db, u: UserId, g: GroupId)
    requires Inv(db)
    ensures Inv(Exec(db, JoinPublic(u, g)).0)
  {
    var s := JoinPublic(u, g);
    if Effect(db, s).Some? && KeysHold(Effect(db, s).value.0) && Effect(db, s).value.0 != db {
      NewMemberInv(db, Effect(db, s).value.0, Member(u, g), Publicly);
    }
  }

  lemma CreateCodeInv(db: Db, c: Code, g: GroupId, maxUses: int, u: UserId)
    requires Inv(db)
    ensures Inv(Exec(db, CreateCode(c, g, maxUses, u)).0)
  {
    var db' := Exec(db, CreateCode(c, g, maxUses, u)).0;
    if db' != db {
      NewCodeInv(db, db', c, g, maxUses);
    }
  }

  /** No member has come in with a code that has not been created yet. */
  lemma NobodyCameBefore(db: Db)
    requires MembersCameIn(db)
    ensures JoinedWith(db, |db.created|) == {}
  {
    assert forall m | m in db.members :: db.members[m] != WithCode(|db.created|);
  }

  lemma NewCodeInv(db: Db, db': Db, c: Code, g: GroupId, maxUses: int)
    requires Inv(db) && KeysHold(db') && c !in db.codes
    requires db'.codes == db.codes[c := Invite(|db.created|, g, 0, maxUses)]
      && db'.created == db.created + [Creation(g, maxUses)]
    requires db'.members == db.members && db'.groups == db.groups
    ensures Inv(db')
  {
    NobodyCameBefore(db);
    assert forall id :: JoinedWith(db', id) == JoinedWith(db, id);
    NewCodeIsTrue(db, db', c, g, maxUses);
    forall id | 0 <= id < |db'.created|
      ensures LimitHolds(db', id)
    {
      if id < |db.created| {
        assert LimitHolds(db, id);
      }
    }
  }

  lemma NewCodeIsTrue(db: Db, db': Db, c: Code, g: GroupId, maxUses: int)
    requires CodesAreTrue(db) && c !in db.codes && JoinedWith(db', |db.created|) == {}
    requires db'.codes == db.codes[c := Invite(|db.created|, g, 0, maxUses)]
      && db'.created == db.created + [Creation(g, maxUses)]
    requires forall id :: JoinedWith(db', id) == JoinedWith(db, id)
    ensures CodesAreTrue(db')
  {
    forall d | d in db'.codes
      ensures CodeIsTrue(db', d)
    {
      if d != c {
        assert CodeIsTrue(db, d);
      }
      assert forall e | e in db.codes :: CodeIsTrue(db, e);
    }
  }

  lemma JoinByCodeFields(db: Db, u: UserId, c: Code)
    requires c in db.codes && Member(u, db.codes[c].group) !in db.members
    ensures OnJoinByCode(db, u, c).Some?
    ensures JoinedByCode(db, OnJoinByCode(db, u, c).value.0, c, Member(u, db.codes[c].group))
  {
  }

  /** One more member through a code, which is swept away if that was its last use. */
  ghost predicate JoinedByCode(db: Db, db': Db, c: Code, m: Member)
    requires c in db.codes
  {
    var k := db.codes[c];
    && m !in db.members && m.group == k.group && db'.members == db.members[m := WithCode(k.id)]
    && db'.groups == db.groups && db'.created == db.created
    && (forall d | d in db'.codes ::
          d in db.codes && db'.codes[d] == if d == c then k.(uses := k.uses + 1) else db.codes[d])
    && (c in db'.codes ==> k.maxUses == NO_LIMIT || k.uses + 1 < k.maxUses)
  }

  lemma JoinedByCodeCounts(db: Db, db': Db, c: Code, m: Member, id: nat)
    requires c in db.codes && JoinedByCode(db, db', c, m)
    ensures |JoinedWith(db', id)| == |JoinedWith(db, id)| + if id == db.codes[c].id then 1 else 0
  {
    var via := WithCode(db.codes[c].id);
    JoinAdds(db, m, via, id);
    assert JoinedWith(db', id) == JoinedWith(db.(members := db.members[m := via]), id);
  }

  lemma JoinedCodesAreTrue(db: Db, db': Db, c: Code, m: Member)
    requires CodesAreTrue(db) && c in db.codes && JoinedByCode(db, db', c, m)
    ensures CodesAreTrue(db')
  {
    forall d | d in db'.codes
      ensures CodeIsTrue(db', d)
    {
      assert CodeIsTrue(db, c) && CodeIsTrue(db, d);
      JoinedByCodeCounts(db, db', c, m, db.codes[d].id);
    }
  }

  lemma JoinedByCodeInv(db: Db, db': Db, c: Code, m: Member)
    requires Inv(db) && c in db.codes && JoinedByCode(db, db', c, m) && KeysHold(db')
    ensures Inv(db')
  {
    assert CodeIsTrue(db, c);
    JoinedCodesAreTrue(db, db', c, m);
    forall id | 0 <= id < |db'.created|
      ensures LimitHolds(db', id)
    {
      assert LimitHolds(db, id);
      JoinedByCodeCounts(db, db', c, m, id);
    }
  }

  lemma JoinByCodeInv(db: Db, u: UserId, c: Code)
    requires Inv(db)
    ensures Inv(Exec(db, JoinByCode(u, c)).0)
  {
    var r := OnJoinByCode(db, u, c);
    if r.Some? && KeysHold(r.value.0) {
      JoinByCodeFields(db, u, c);
      JoinedByCodeInv(db, r.value.0, c, Member(u, db.codes[c].group));
    }
  }

  lemma WithoutInv(db: Db, g: GroupId)
    requires Inv(db) && KeysHold(Without(db, g))
    ensures Inv(Without(db, g))
  {
    var db' := Without(db, g);
    forall id | 0 <= id < |db.created|
      ensures JoinedWith(db', id) == if db.created[id].group == g then {} else JoinedWith(db, id)
    {
    }
    forall d | d in db'.codes
      ensures CodeIsTrue(db', d)
    {
      assert CodeIsTrue(db, d);
    }
    forall id | 0 <= id < |db'.created|
      ensures LimitHolds(db', id)
    {
      assert LimitHolds(db, id);
    }
  }

  predicate IsPlain(s: Statement) {
    s.InsertUser? || s.DeleteCode? || s.InsertMsg? || s.DeleteMsg? || s.SelectAttachments? || s.SelectMembers?
  }

  /** These statements leave members and groups alone, and no code changes. */
  lemma PlainStatement(db: Db, s: Statement)
    requires IsPlain(s) && KeysHold(db)
    ensures var db' := Exec(db, s).0;
      && KeysHold(db') && db'.members == db.members && db'.groups == db.groups && db'.created == db.created
      && forall c | c in db'.codes :: c in db.codes && db'.codes[c] == db.codes[c]
  {
  }

  lemma PlainInv(db: Db, s: Statement)
    requires Inv(db) && IsPlain(s)
    ensures Inv(Exec(db, s).0)
  {
    PlainStatement(db, s);
    SameMembersInv(db, Exec(db, s).0);
  }

  lemma StatementInv(db: Db, s: Statement)
    requires Inv(db) && FromClient(One(s))
    ensures Inv(Exec(db, s).0)
  {
    match s
    case InsertGroup(g, owner, isPublic) => InsertGroupInv(db, g, owner, isPublic);
    case JoinPublic(u, g) => JoinPublicInv(db, u, g);
    case JoinByCode(u, c) => JoinByCodeInv(db, u, c);
    case CreateCode(c, g, maxUses, u) => CreateCodeInv(db, c, g, maxUses, u);
    case _ => PlainInv(db, s);
  }

  lemma ActionKeepsInv(db: Db, a: Action)
    requires Inv(db) && FromClient(a)
    ensures Inv(Act(db, a).0)
  {
    match a
    case One(s) =>
      if s.CreateCode? {
        StatementInv(db, s.(maxUses := ServerMaxUses(s.maxUses)));
      } else {
        StatementInv(db, s);
      }
    case RemoveGroup(g, u) =>
      GroupIsDeleted(db, g);
      WithoutInv(db, g);
  }

  lemma {:induction false} RunKeepsInv(db: Db, acts: seq<Action>)
    requires Inv(db) && forall a | a in acts :: FromClient(a)
    ensures Inv(Run(db, acts))
    decreases |acts|
  {
    if acts != [] {
      assert FromClient(acts[0]);
      ActionKeepsInv(db, acts[0]);
      RunKeepsInv(Act(db, acts[0]).0, acts[1..]);
    }
  }

  lemma EmptyInv()
    ensures Inv(EMPTY)
  {
  }

  /** In every reachable state no foreign key is broken, each group's owner is a member of it, and the author of
      each message is a member of its group. */
  lemma OwnersAndAuthorsAreMembers(acts: seq<Action>)
    requires forall a | a in acts :: FromClient(a)
    ensures var db := Run(EMPTY, acts);
      && KeysHold(db)
      && (forall g | g in db.groups :: Member(db.groups[g].owner, g) in db.members)
      && (forall i | i in db.messages :: Member(db.messages[i].user, db.messages[i].group) in db.members)
  {
    EmptyInv();
    RunKeepsInv(EMPTY, acts);
  }

  /** In every reachable state a code created for `n` uses, 1 or more, has let in at most `n` of the members there are;
      a code that is still there counts exactly the members it has let in and has uses left; and every member of a
      private group who is not its owner came in with a code of that group. */
  lemma CodesAdmitAtMost(acts: seq<Action>)
    requires forall a | a in acts :: FromClient(a)
    ensures var db := Run(EMPTY, acts);
      && (forall id | 0 <= id < |db.created| && db.created[id].maxUses >= 1 ::
            |JoinedWith(db, id)| <= db.created[id].maxUses)
      && (forall c | c in db.codes :: db.codes[c].uses == |JoinedWith(db, db.codes[c].id)|
            && (db.codes[c].maxUses >= 1 ==> db.codes[c].uses < db.codes[c].maxUses))
      && (forall m | m in db.members && m.group in db.groups
                     && !db.groups[m.group].isPublic && db.groups[m.group].owner != m.user ::
            db.members[m].WithCode? && db.members[m].id < |db.created| && db.created[db.members[m].id].group == m.group)
  {
    EmptyInv();
    RunKeepsInv(EMPTY, acts);
    var db := Run(EMPTY, acts);
    forall id | 0 <= id < |db.created| && db.created[id].maxUses >= 1
      ensures |JoinedWith(db, id)| <= db.created[id].maxUses
    {
      assert LimitHolds(db, id);
    }
    forall c | c in db.codes
      ensures db.codes[c].uses == |JoinedWith(db, db.codes[c].id)|
      ensures db.codes[c].maxUses >= 1 ==> db.codes[c].uses < db.codes[c].maxUses
    {
      assert CodeIsTrue(db, c);
    }
  }

  /** In every reachable state a use of a code deletes another one, of whatever group, if and only if that one's limit
      is neither -1 nor positive; so a code with a limit below -1 lives until the next use of any code. */
  lemma UseSweepsAll(acts: seq<Action>, u: UserId, c: Code, d: Code)
    requires forall a | a in acts :: FromClient(a)
    requires Exec(Run(EMPTY, acts), JoinByCode(u, c)).1 != Failed && d in Run(EMPTY, acts).codes && d != c
    ensures var db := Run(EMPTY, acts);
      d in Exec(db, JoinByCode(u, c)).0.codes <==> db.codes[d].maxUses == NO_LIMIT || db.codes[d].maxUses >= 1
  {
    EmptyInv();
    RunKeepsInv(EMPTY, acts);
    UseSweeps(Run(EMPTY, acts), u, c, d);
  }

  lemma UseSweeps(db: Db, u: UserId, c: Code, d: Code)
    requires CodesAreTrue(db) && Exec(db, JoinByCode(u, c)).1 != Failed && d in db.codes && d != c
    ensures d in Exec(db, JoinByCode(u, c)).0.codes <==> db.codes[d].maxUses == NO_LIMIT || db.codes[d].maxUses >= 1
  {
    assert CodeIsTrue(db, d);
  }

  /** When a statement lets a user in: through a public group, or with a code that is there. */
  lemma JoinsIff(db: Db, u: UserId, g: GroupId, c: Code)
    requires KeysHold(db) && Member(u, g) !in db.members
    ensures Member(u, g) in Exec(db, JoinPublic(u, g)).0.members
      <==> u in db.users && g in db.groups && db.groups[g].isPublic
    ensures Member(u, g) in Exec(db, JoinByCode(u, c)).0.members
      <==> u in db.users && c in db.codes && db.codes[c].group == g
  {
  }

  /** A message is stored exactly for a member, and deleted exactly for its author or the owner of its group. */
  lemma MessagesIff(db: Db, i: MsgId, u: UserId, g: GroupId, atts: Attachments)
    requires KeysHold(db)
    ensures i !in db.messages ==> (i in Exec(db, InsertMsg(i, u, g, atts)).0.messages <==> Member(u, g) in db.members)
    ensures i in db.messages ==>
      var m := db.messages[i];
      (i !in Exec(db, DeleteMsg(i, u)).0.messages <==> u == m.user || u == db.groups[m.group].owner)
  {
  }
}
