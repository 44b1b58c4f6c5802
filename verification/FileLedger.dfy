/** Who holds references to a file, against the reference counts in the database. */
module FileLedger {
  import opened Sequences
  import opened UserFiles

  // ---- References ----

  /** How often something is counted in a list. */
  function SumOf<T>(xs: seq<T>, f: (T, Hash) -> nat, h: Hash): nat {
    if xs == [] then 0 else f(xs[0], h) + SumOf(xs[1..], f, h)
  }

  function Is(x: Hash, h: Hash): nat {
    if x == h then 1 else 0
  }

  function InList(xs: seq<Hash>, h: Hash): nat {
    SumOf(xs, Is, h)
  }

  /** The attachments of a message, as the hashes they have been given so far. */
  type Attachments = seq<Option<Hash>>

  function HasHash(a: Option<Hash>, h: Hash): nat {
    if a == Some(h) then 1 else 0
  }

  function InAttachments(atts: Attachments, h: Hash): nat {
    SumOf(atts, HasHash, h)
  }

  /** The files that are released when a message goes, one for each attachment. */
  function FilesOf(atts: Attachments): seq<Hash> {
    if atts == [] then []
    else (match atts[0] case None => [] case Some(h) => [h]) + FilesOf(atts[1..])
  }

  /** A message whose attachments are being uploaded. It is stored when as many uploads have come as it has
      attachments, and again at every upload after that. */
  datatype Upload = Upload(atts: Attachments, current: nat)

  predicate Sent(u: Upload) {
    u.current >= |u.atts|
  }

  function HeldByUpload(u: Upload, h: Hash): nat {
    if Sent(u) then 0 else InAttachments(u.atts, h)
  }

  /** A user's stored picture; the hash kept in memory and then those of updates whose callbacks are still to come;
      and pictures that nothing will release. */
  datatype User = User(pfp: Hash, held: seq<Hash>, lost: seq<Hash>)

  function HeldByUser(u: User, h: Hash): nat {
    InList(u.held, h) + InList(u.lost, h)
  }

  datatype Ledger = Ledger(
    rows: Rows,
    messages: seq<Attachments>,
    uploads: seq<Upload>,
    users: seq<User>,
    owed: seq<Hash>,   // releases that have been asked for
    leaked: seq<Hash>  // references that nothing will release
  )

  /** Every reference there is to a file. */
  function Refs(l: Ledger, h: Hash): nat {
    SumOf(l.messages, InAttachments, h) + SumOf(l.uploads, HeldByUpload, h) + SumOf(l.users, HeldByUser, h)
    + InList(l.owed, h) + InList(l.leaked, h)
  }

  function CountOf(rows: Rows, h: Hash): int {
    if h in rows then rows[h] else 0
  }

  ghost predicate BalancedAt(l: Ledger, h: Hash) {
    h != "" ==> CountOf(l.rows, h) == Refs(l, h)
  }

  /** A user's stored picture is the last one held for the user, or one of the lost ones. */
  predicate PfpHeld(u: User) {
    u.held != [] && (u.pfp == "" || u.pfp == u.held[|u.held| - 1] || u.pfp in u.lost)
  }

  /** The count of every file is the number of references to it; the empty hash is no file. */
  ghost predicate Conserved(l: Ledger) {
    && Counted(l.rows) && (forall h :: BalancedAt(l, h))
    && forall i | 0 <= i < |l.users| :: PfpHeld(l.users[i])
  }

  // ---- Steps ----

  datatype Step =
    | StartMessage(given: Attachments)                                          // a client announces attachments
    | Attach(upload: nat, index: nat, hash: Hash, insertOk: bool, msgOk: bool)  // one of them is uploaded
    | Expire(upload: nat)                                                       // the upload token is dropped
    | DeleteMessage(index: nat)                                                 // its attachments are to be released
    | UploadPicture(user: nat, hash: Hash, insertOk: bool, updateOk: bool)
    | PictureUpdated(user: nat)                                                 // the callback of such an update
    | Login(user: nat)                                                          // the picture is not read back
    | ReleaseFile(index: nat, ok: bool)                                         // a release reaches the table

  predicate Enabled(l: Ledger, s: Step) {
    match s
    case StartMessage(given) => given != []
    case Attach(t, i, h, _, _) => t < |l.uploads| && i < |l.uploads[t].atts| && h != ""
    case Expire(t) => t < |l.uploads|
    case DeleteMessage(i) => i < |l.messages|
    case UploadPicture(k, h, insertOk, updateOk) => k < |l.users| && h != "" && (updateOk ==> insertOk || h in l.rows)
    case PictureUpdated(k) => k < |l.users| && |l.users[k].held| > 1
    case Login(k) => k < |l.users| && |l.users[k].held| == 1
    case ReleaseFile(i, _) => i < |l.owed|
  }

  /** The foreign key from users' pictures keeps the row of a picture from being deleted. */
  predicate Blocked(l: Ledger, h: Hash) {
    CountOf(l.rows, h) == 1 && exists i :: 0 <= i < |l.users| && l.users[i].pfp == h
  }

  function Without<T>(xs: seq<T>, i: nat): seq<T>
    requires i < |xs|
  {
    xs[..i] + xs[i + 1..]
  }

  function OnAttach(l: Ledger, t: nat, i: nat, h: Hash, insertOk: bool, msgOk: bool): Ledger
    requires t < |l.uploads| && i < |l.uploads[t].atts|
  {
    var u := l.uploads[t];
    var u' := Upload(u.atts[i := Some(h)], u.current + 1);
    var counted := l.(rows := Execute(l.rows, InsertFile(h, insertOk)), uploads := l.uploads[t := u']);
    var overwritten := if Sent(u) then [] else FilesOf([u.atts[i]]);
    var others := if Sent(u) then [] else FilesOf(u.atts[i := None]);
    if !Sent(u') then counted.(leaked := l.leaked + overwritten)
    else if msgOk then counted.(messages := l.messages + [u'.atts], leaked := l.leaked + overwritten)
    else counted.(leaked := l.leaked + overwritten + others + if insertOk then [h] else [])
  }

  function OnPicture(l: Ledger, k: nat, h: Hash, insertOk: bool, updateOk: bool): Ledger
    requires k < |l.users|
  {
    var u := l.users[k];
    var counted := l.(rows := Execute(l.rows, InsertFile(h, insertOk)));
    if updateOk then counted.(users := l.users[k := u.(pfp := h, held := u.held + [h])])
    else if insertOk then counted.(leaked := l.leaked + [h])
    else l
  }

  function OnRelease(l: Ledger, i: nat, ok: bool): Ledger
    requires i < |l.owed|
  {
    var h := l.owed[i];
    if ok && !Blocked(l, h)
    then l.(rows := Execute(l.rows, DecrementFile(h, true, true)), owed := Without(l.owed, i))
    else l.(owed := Without(l.owed, i), leaked := l.leaked + [h])
  }

  function Apply(l: Ledger, s: Step): Ledger
    requires Enabled(l, s)
  {
    match s
    case StartMessage(given) => l.(uploads := l.uploads + [Upload(given, 0)])
    case Attach(t, i, h, insertOk, msgOk) => OnAttach(l, t, i, h, insertOk, msgOk)
    case Expire(t) =>
      l.(uploads := Without(l.uploads, t),
         leaked := l.leaked + if Sent(l.uploads[t]) then [] else FilesOf(l.uploads[t].atts))
    case DeleteMessage(i) => l.(messages := Without(l.messages, i), owed := l.owed + FilesOf(l.messages[i]))
    case UploadPicture(k, h, insertOk, updateOk) => OnPicture(l, k, h, insertOk, updateOk)
    case PictureUpdated(k) =>
      var u := l.users[k];
      l.(users := l.users[k := u.(held := u.held[1..])], owed := l.owed + [u.held[0]])
    case Login(k) =>
      var u := l.users[k];
      l.(users := l.users[k := u.(held := [""], lost := u.lost + u.held)])
    case ReleaseFile(i, ok) => OnRelease(l, i, ok)
  }

  ghost predicate NoFiles(atts: Attachments) {
    forall h | h != "" :: InAttachments(atts, h) == 0
  }

  /** When a step keeps every reference counted: a client gives no hashes of its own, an insert that fails leaves no
      reference behind, and a message that has been stored is not stored again with other attachments. */
  ghost predicate Counts(l: Ledger, s: Step)
    requires Enabled(l, s)
  {
    match s
    case StartMessage(given) => NoFiles(given)
    case Attach(t, i, h, insertOk, msgOk) =>
      var u := l.uploads[t];
      && (insertOk || (u.current + 1 >= |u.atts| && !msgOk))
      && (Sent(u) && msgOk ==> NoFiles(u.atts[i := None]))
    case UploadPicture(_, _, insertOk, updateOk) => updateOk ==> insertOk
    case _ => true
  }

  // ---- Sums ----

  lemma {:induction false} SumAppend<T>(a: seq<T>, b: seq<T>, f: (T, Hash) -> nat, h: Hash)
    ensures SumOf(a + b, f, h) == SumOf(a, f, h) + SumOf(b, f, h)
  {
    if a == [] {
      assert a + b == b;
    } else {
      assert (a + b)[1..] == a[1..] + b;
      SumAppend(a[1..], b, f, h);
    }
  }

  lemma SumSnoc<T>(xs: seq<T>, x: T, f: (T, Hash) -> nat, h: Hash)
    ensures SumOf(xs + [x], f, h) == SumOf(xs, f, h) + f(x, h)
  {
    SumAppend(xs, [x], f, h);
    assert [x][1..] == [];
  }

  lemma SumSplit<T>(xs: seq<T>, i: nat, f: (T, Hash) -> nat, h: Hash)
    requires i < |xs|
    ensures SumOf(xs, f, h) == SumOf(xs[..i], f, h) + f(xs[i], h) + SumOf(xs[i + 1..], f, h)
  {
    assert xs == xs[..i] + xs[i..];
    SumAppend(xs[..i], xs[i..], f, h);
    assert xs[i..][1..] == xs[i + 1..];
  }

  lemma SumUpdate<T>(xs: seq<T>, i: nat, x: T, f: (T, Hash) -> nat, h: Hash)
    requires i < |xs|
    ensures SumOf(xs[i := x], f, h) + f(xs[i], h) == SumOf(xs, f, h) + f(x, h)
  {
    SumSplit(xs, i, f, h);
    SumSplit(xs[i := x], i, f, h);
    assert xs[i := x][..i] == xs[..i] && xs[i := x][i + 1..] == xs[i + 1..];
  }

  lemma SumRemove<T>(xs: seq<T>, i: nat, f: (T, Hash) -> nat, h: Hash)
    requires i < |xs|
    ensures SumOf(xs, f, h) == SumOf(Without(xs, i), f, h) + f(xs[i], h)
  {
    SumSplit(xs, i, f, h);
    SumAppend(xs[..i], xs[i + 1..], f, h);
  }

  /** Releasing a message's files releases each as often as it is attached. */
  lemma {:induction false} FilesCounted(atts: Attachments, h: Hash)
    ensures InList(FilesOf(atts), h) == InAttachments(atts, h)
  {
    if atts != [] {
      FilesCounted(atts[1..], h);
      var first := match atts[0] case None => [] case Some(x) => [x];
      SumAppend(first, FilesOf(atts[1..]), Is, h);
      assert first != [] ==> first[1..] == [];
    }
  }

  lemma {:induction false} InListIff(xs: seq<Hash>, h: Hash)
    ensures InList(xs, h) > 0 <==> h in xs
  {
    if xs != [] {
      InListIff(xs[1..], h);
    }
  }

  // ---- What each step does to the references ----

  /** What a step adds to the references to a file; a release that reaches the table takes one away. */
  function Added(l: Ledger, s: Step, h: Hash): int
    requires Enabled(l, s)
  {
    match s
    case StartMessage(given) => InAttachments(given, h)
    case Attach(t, i, x, insertOk, msgOk) =>
      var u := l.uploads[t];
      if u.current + 1 >= |u.atts| && !msgOk && !insertOk then 0
      else Is(x, h) + if Sent(u) && msgOk then InAttachments(u.atts[i := None], h) else 0
    case UploadPicture(k, x, insertOk, updateOk) => if insertOk || updateOk then Is(x, h) else 0
    case Login(k) => Is("", h)
    case ReleaseFile(i, ok) => if ok && !Blocked(l, l.owed[i]) then 0 - Is(l.owed[i], h) else 0
    case _ => 0
  }

  lemma OneFile(a: Option<Hash>, h: Hash)
    ensures InList(FilesOf([a]), h) == HasHash(a, h)
  {
    FilesCounted([a], h);
    assert [a][1..] == [] && SumOf([], HasHash, h) == 0;
    assert InAttachments([a], h) == HasHash(a, h) + SumOf([a][1..], HasHash, h);
  }

  /** How the uploaded attachment changes what its token holds. */
  lemma AttachHeld(u: Upload, i: nat, x: Hash, h: Hash)
    requires i < |u.atts|
    ensures InAttachments(u.atts[i := Some(x)], h) == InAttachments(u.atts[i := None], h) + Is(x, h)
    ensures InAttachments(u.atts[i := None], h) + HasHash(u.atts[i], h) == InAttachments(u.atts, h)
  {
    SumUpdate(u.atts, i, Some(x), HasHash, h);
    SumUpdate(u.atts, i, None, HasHash, h);
  }

  /** What is leaked: the overwritten hash, and a message that could not be stored. */
  lemma AttachLeaks(leaked: seq<Hash>, overwritten: seq<Hash>, others: seq<Hash>, x: Hash, ok: bool, h: Hash)
    ensures InList(leaked + overwritten, h) == InList(leaked, h) + InList(overwritten, h)
    ensures InList(leaked + overwritten + others + if ok then [x] else [], h)
      == InList(leaked, h) + InList(overwritten, h) + InList(others, h) + if ok then Is(x, h) else 0
  {
    SumAppend(leaked, overwritten, Is, h);
    SumAppend(leaked + overwritten, others, Is, h);
    SumAppend(leaked + overwritten + others, if ok then [x] else [], Is, h);
    assert [x][1..] == [];
  }

  lemma AttachWaits(l: Ledger, t: nat, i: nat, x: Hash, insertOk: bool, msgOk: bool, h: Hash)
    requires t < |l.uploads| && i < |l.uploads[t].atts| && l.uploads[t].current + 1 < |l.uploads[t].atts|
    ensures Refs(OnAttach(l, t, i, x, insertOk, msgOk), h) == Refs(l, h) + Is(x, h)
  {
    var u := l.uploads[t];
    AttachHeld(u, i, x, h);
    SumUpdate(l.uploads, t, Upload(u.atts[i := Some(x)], u.current + 1), HeldByUpload, h);
    OneFile(u.atts[i], h);
    SumAppend(l.leaked, FilesOf([u.atts[i]]), Is, h);
  }

  lemma AttachStores(l: Ledger, t: nat, i: nat, x: Hash, insertOk: bool, h: Hash)
    requires t < |l.uploads| && i < |l.uploads[t].atts| && l.uploads[t].current + 1 >= |l.uploads[t].atts|
    ensures var u := l.uploads[t];
      Refs(OnAttach(l, t, i, x, insertOk, true), h)
        == Refs(l, h) + Is(x, h) + if Sent(u) then InAttachments(u.atts[i := None], h) else 0
  {
    var u := l.uploads[t];
    var u' := Upload(u.atts[i := Some(x)], u.current + 1);
    AttachHeld(u, i, x, h);
    SumUpdate(l.uploads, t, u', HeldByUpload, h);
    SumSnoc(l.messages, u'.atts, InAttachments, h);
    OneFile(u.atts[i], h);
    SumAppend(l.leaked, if Sent(u) then [] else FilesOf([u.atts[i]]), Is, h);
  }

  lemma AttachFails(l: Ledger, t: nat, i: nat, x: Hash, insertOk: bool, h: Hash)
    requires t < |l.uploads| && i < |l.uploads[t].atts| && l.uploads[t].current + 1 >= |l.uploads[t].atts|
    ensures Refs(OnAttach(l, t, i, x, insertOk, false), h) == Refs(l, h) + if insertOk then Is(x, h) else 0
  {
    var u := l.uploads[t];
    AttachHeld(u, i, x, h);
    SumUpdate(l.uploads, t, Upload(u.atts[i := Some(x)], u.current + 1), HeldByUpload, h);
    OneFile(u.atts[i], h);
    FilesCounted(u.atts[i := None], h);
    AttachLeaks(l.leaked, if Sent(u) then [] else FilesOf([u.atts[i]]),
                if Sent(u) then [] else FilesOf(u.atts[i := None]),
                x, insertOk, h);
  }

  lemma AttachRefs(l: Ledger, t: nat, i: nat, x: Hash, insertOk: bool, msgOk: bool, h: Hash)
    requires t < |l.uploads| && i < |l.uploads[t].atts|
    ensures var u := l.uploads[t];
      Refs(OnAttach(l, t, i, x, insertOk, msgOk), h) == Refs(l, h) +
        if u.current + 1 >= |u.atts| && !msgOk && !insertOk then 0
        else Is(x, h) + if Sent(u) && msgOk then InAttachments(u.atts[i := None], h) else 0
  {
    if l.uploads[t].current + 1 < |l.uploads[t].atts| {
      AttachWaits(l, t, i, x, insertOk, msgOk, h);
    } else if msgOk {
      AttachStores(l, t, i, x, insertOk, h);
    } else {
      AttachFails(l, t, i, x, insertOk, h);
    }
  }

  lemma PictureRefs(l: Ledger, k: nat, x: Hash, insertOk: bool, updateOk: bool, h: Hash)
    requires k < |l.users|
    ensures Refs(OnPicture(l, k, x, insertOk, updateOk), h) == Refs(l, h) + if insertOk || updateOk then Is(x, h) else 0
  {
    var u := l.users[k];
    SumSnoc(u.held, x, Is, h);
    SumUpdate(l.users, k, u.(pfp := x, held := u.held + [x]), HeldByUser, h);
    SumSnoc(l.leaked, x, Is, h);
  }

  lemma UpdatedRefs(l: Ledger, k: nat, h: Hash)
    requires k < |l.users| && |l.users[k].held| > 1
    ensures Refs(Apply(l, PictureUpdated(k)), h) == Refs(l, h)
  {
    var u := l.users[k];
    SumUpdate(l.users, k, u.(held := u.held[1..]), HeldByUser, h);
    SumSnoc(l.owed, u.held[0], Is, h);
  }

  lemma LoginRefs(l: Ledger, k: nat, h: Hash)
    requires k < |l.users| && |l.users[k].held| == 1
    ensures Refs(Apply(l, Login(k)), h) == Refs(l, h) + Is("", h)
  {
    var u := l.users[k];
    SumAppend(u.lost, u.held, Is, h);
    assert [""][1..] == [] && InList([""], h) == Is("", h) + InList([""][1..], h);
    SumUpdate(l.users, k, u.(held := [""], lost := u.lost + u.held), HeldByUser, h);
  }

  lemma ReleaseRefs(l: Ledger, i: nat, ok: bool, h: Hash)
    requires i < |l.owed|
    ensures Refs(OnRelease(l, i, ok), h) == Refs(l, h) - if ok && !Blocked(l, l.owed[i]) then Is(l.owed[i], h) else 0
  {
    SumRemove(l.owed, i, Is, h);
    SumSnoc(l.leaked, l.owed[i], Is, h);
  }

  lemma StepRefs(l: Ledger, s: Step, h: Hash)
    requires Enabled(l, s)
    ensures Refs(Apply(l, s), h) == Refs(l, h) + Added(l, s, h)
  {
    match s
    case StartMessage(given) => SumSnoc(l.uploads, Upload(given, 0), HeldByUpload, h);
    case Attach(t, i, x, insertOk, msgOk) => AttachRefs(l, t, i, x, insertOk, msgOk, h);
    case Expire(t) =>
      var u := l.uploads[t];
      SumRemove(l.uploads, t, HeldByUpload, h);
      FilesCounted(u.atts, h);
      SumAppend(l.leaked, if Sent(u) then [] else FilesOf(u.atts), Is, h);
    case DeleteMessage(i) =>
      SumRemove(l.messages, i, InAttachments, h);
      FilesCounted(l.messages[i], h);
      SumAppend(l.owed, FilesOf(l.messages[i]), Is, h);
    case UploadPicture(k, x, insertOk, updateOk) => PictureRefs(l, k, x, insertOk, updateOk, h);
    case PictureUpdated(k) => UpdatedRefs(l, k, h);
    case Login(k) => LoginRefs(l, k, h);
    case ReleaseFile(i, ok) => ReleaseRefs(l, i, ok, h);
  }

  // ---- What each step does to the counts ----

  function Charged(l: Ledger, s: Step, h: Hash): int
    requires Enabled(l, s)
  {
    match s
    case Attach(_, _, x, insertOk, _) => if insertOk then Is(x, h) else 0
    case UploadPicture(_, x, insertOk, _) => if insertOk then Is(x, h) else 0
    case ReleaseFile(i, ok) => if ok && !Blocked(l, l.owed[i]) && h in l.rows then 0 - Is(l.owed[i], h) else 0
    case _ => 0
  }

  ghost predicate AddsUp(l: Ledger, s: Step, h: Hash)
    requires Enabled(l, s)
  {
    h == "" || Added(l, s, h) == Charged(l, s, h)
  }

  lemma InsertCounts(rows: Rows, x: Hash, ok: bool, h: Hash)
    requires Counted(rows)
    ensures var rows' := Execute(rows, InsertFile(x, ok));
      Counted(rows') && CountOf(rows', h) == CountOf(rows, h) + if ok then Is(x, h) else 0
  {
  }

  lemma DecrementCounts(rows: Rows, x: Hash, h: Hash)
    requires Counted(rows)
    ensures var rows' := Execute(rows, DecrementFile(x, true, true));
      Counted(rows') && CountOf(rows', h) == CountOf(rows, h) - if h in rows then Is(x, h) else 0
  {
    ExecuteKeepsCounted(rows, DecrementFile(x, true, true));
  }

  lemma StepCounts(l: Ledger, s: Step, h: Hash)
    requires Enabled(l, s) && Counted(l.rows)
    ensures Counted(Apply(l, s).rows) && CountOf(Apply(l, s).rows, h) == CountOf(l.rows, h) + Charged(l, s, h)
  {
    match s
    case Attach(_, _, x, insertOk, _) => InsertCounts(l.rows, x, insertOk, h);
    case UploadPicture(_, x, insertOk, _) => InsertCounts(l.rows, x, insertOk, h);
    case ReleaseFile(i, _) => DecrementCounts(l.rows, l.owed[i], h);
    case _ =>
  }

  lemma {:induction false} AtLeast<T>(xs: seq<T>, i: nat, f: (T, Hash) -> nat, h: Hash)
    requires i < |xs|
    ensures SumOf(xs, f, h) >= f(xs[i], h)
  {
    SumSplit(xs, i, f, h);
  }

  lemma PfpHeldCounts(u: User, h: Hash)
    requires PfpHeld(u) && u.pfp == h != ""
    ensures HeldByUser(u, h) > 0
  {
    InListIff(u.held, h);
    InListIff(u.lost, h);
  }

  /** While references are conserved, no release that is owed is blocked. */
  lemma NeverBlocked(l: Ledger, i: nat)
    requires Conserved(l) && i < |l.owed| && l.owed[i] != ""
    ensures !Blocked(l, l.owed[i]) && l.owed[i] in l.rows
  {
    var h := l.owed[i];
    assert BalancedAt(l, h);
    AtLeast(l.owed, i, Is, h);
    if k :| 0 <= k < |l.users| && l.users[k].pfp == h {
      PfpHeldCounts(l.users[k], h);
      AtLeast(l.users, k, HeldByUser, h);
    }
  }

  lemma StepKeepsPictures(l: Ledger, s: Step)
    requires Enabled(l, s) && forall i | 0 <= i < |l.users| :: PfpHeld(l.users[i])
    ensures forall i | 0 <= i < |Apply(l, s).users| :: PfpHeld(Apply(l, s).users[i])
  {
    match s
    case PictureUpdated(k) =>
      var u := l.users[k];
      assert PfpHeld(u);
      assert u.held[1..][|u.held| - 2] == u.held[|u.held| - 1];
    case Login(k) =>
      var u := l.users[k];
      assert PfpHeld(u);
      assert u.held[0] in u.lost + u.held;
    case _ =>
  }

  lemma BalanceStepsIff(l: Ledger, s: Step, h: Hash)
    requires Enabled(l, s) && Conserved(l)
    ensures BalancedAt(Apply(l, s), h) <==> AddsUp(l, s, h)
  {
    assert BalancedAt(l, h);
    StepRefs(l, s, h);
    StepCounts(l, s, h);
  }

  /** A step keeps every count equal to the number of references if and only if it counts what it refers to. */
  lemma StepConservesIff(l: Ledger, s: Step)
    requires Enabled(l, s) && Conserved(l)
    ensures Conserved(Apply(l, s)) <==> Counts(l, s)
  {
    StepKeepsPictures(l, s);
    StepCounts(l, s, "");
    forall h
      ensures BalancedAt(Apply(l, s), h) <==> AddsUp(l, s, h)
    {
      BalanceStepsIff(l, s, h);
    }
    CountsIff(l, s);
  }

  lemma CountsIff(l: Ledger, s: Step)
    requires Enabled(l, s) && Conserved(l)
    ensures (forall h :: AddsUp(l, s, h)) <==> Counts(l, s)
  {
    match s
    case StartMessage(given) =>
      assert forall h :: AddsUp(l, s, h) <==> h == "" || InAttachments(given, h) == 0;
    case Attach(t, i, x, insertOk, msgOk) =>
      AttachCountsIff(l, t, i, x, insertOk, msgOk);
    case UploadPicture(k, x, insertOk, updateOk) =>
      assert AddsUp(l, s, x) <==> insertOk || !updateOk;
    case ReleaseFile(i, ok) =>
      if l.owed[i] != "" {
        NeverBlocked(l, i);
      }
    case _ =>
  }

  lemma AttachCountsIff(l: Ledger, t: nat, i: nat, x: Hash, insertOk: bool, msgOk: bool)
    requires t < |l.uploads| && i < |l.uploads[t].atts| && x != ""
    ensures var s := Attach(t, i, x, insertOk, msgOk);
      (forall h :: AddsUp(l, s, h)) <==> Counts(l, s)
  {
    var s, u := Attach(t, i, x, insertOk, msgOk), l.uploads[t];
    if forall h :: AddsUp(l, s, h) {
      assert AddsUp(l, s, x);
      var rest := u.atts[i := None];
      if Sent(u) && msgOk {
        forall h | h != ""
          ensures InAttachments(rest, h) == 0
        {
          assert AddsUp(l, s, h);
        }
      }
    }
  }

  // ---- Whole runs ----

  function Run(l: Ledger, steps: seq<Step>): Ledger
    decreases |steps|
  {
    if steps == [] || !Enabled(l, steps[0]) then l else Run(Apply(l, steps[0]), steps[1..])
  }

  ghost predicate AllCount(l: Ledger, steps: seq<Step>)
    decreases |steps|
  {
    steps == [] || (Enabled(l, steps[0]) && Counts(l, steps[0]) && AllCount(Apply(l, steps[0]), steps[1..]))
  }

  /** No files, no messages, and users without pictures. */
  function Start(users: nat): Ledger {
    Ledger(map[], [], [], seq(users, _ => User("", [""], [])), [], [])
  }

  lemma {:induction false} NoPictures(users: seq<User>, h: Hash)
    requires h != "" && forall i | 0 <= i < |users| :: users[i] == User("", [""], [])
    ensures SumOf(users, HeldByUser, h) == 0
  {
    if users != [] {
      assert [""][1..] == [] && InList([""], h) == Is("", h) + InList([""][1..], h);
      NoPictures(users[1..], h);
    }
  }

  lemma StartConserved(users: nat)
    ensures Conserved(Start(users))
  {
    forall h
      ensures BalancedAt(Start(users), h)
    {
      if h != "" {
        NoPictures(Start(users).users, h);
      }
    }
  }

  lemma {:induction false} RunConserves(l: Ledger, steps: seq<Step>)
    requires Conserved(l) && AllCount(l, steps)
    ensures Conserved(Run(l, steps))
    decreases |steps|
  {
    if steps != [] {
      StepConservesIff(l, steps[0]);
      RunConserves(Apply(l, steps[0]), steps[1..]);
    }
  }

  function HasPfp(u: User, h: Hash): nat {
    if u.pfp == h then 1 else 0
  }

  lemma {:induction false} PicturesCounted(users: seq<User>, h: Hash)
    requires h != "" && forall i | 0 <= i < |users| :: PfpHeld(users[i])
    ensures SumOf(users, HasPfp, h) <= SumOf(users, HeldByUser, h)
  {
    if users != [] {
      if users[0].pfp == h {
        PfpHeldCounts(users[0], h);
      }
      PicturesCounted(users[1..], h);
    }
  }

  /** How many stored messages and pictures use a file. */
  function Uses(l: Ledger, h: Hash): nat {
    SumOf(l.messages, InAttachments, h) + SumOf(l.users, HasPfp, h)
  }

  /** A stored message has it attached, or a user shows it as a picture. */
  ghost predicate InUse(l: Ledger, h: Hash) {
    || (exists i, j :: 0 <= i < |l.messages| && 0 <= j < |l.messages[i]| && l.messages[i][j] == Some(h))
    || (exists k :: 0 <= k < |l.users| && l.users[k].pfp == h)
  }

  lemma UsesOfUsed(l: Ledger, h: Hash)
    requires InUse(l, h)
    ensures Uses(l, h) > 0
  {
    if i, j :| 0 <= i < |l.messages| && 0 <= j < |l.messages[i]| && l.messages[i][j] == Some(h) {
      AtLeast(l.messages[i], j, HasHash, h);
      AtLeast(l.messages, i, InAttachments, h);
    } else {
      var k :| 0 <= k < |l.users| && l.users[k].pfp == h;
      AtLeast(l.users, k, HasPfp, h);
    }
  }

  /** In every run that counts what it refers to, the count of a file is at least the number of stored messages and
      pictures that use it; so the row of a file in use, and with it the file, is never removed, and no release
      that is owed is refused. */
  lemma UsedFilesAreKept(users: nat, steps: seq<Step>, h: Hash)
    requires AllCount(Start(users), steps) && h != ""
    ensures var l := Run(Start(users), steps);
      && CountOf(l.rows, h) >= Uses(l, h)
      && (InUse(l, h) ==> h in l.rows)
      && (forall i | 0 <= i < |l.owed| && l.owed[i] == h :: !Blocked(l, h))
  {
    StartConserved(users);
    RunConserves(Start(users), steps);
    var l := Run(Start(users), steps);
    assert BalancedAt(l, h);
    PicturesCounted(l.users, h);
    if InUse(l, h) {
      UsesOfUsed(l, h);
    }
    forall i | 0 <= i < |l.owed| && l.owed[i] == h
      ensures !Blocked(l, h)
    {
      NeverBlocked(l, i);
    }
  }

  // ---- A run that does not count ----

  lemma PlainAttach(l: Ledger, i: nat, x: Hash, atts: Attachments)
    requires |l.uploads| == 1 && i < |l.uploads[0].atts| && atts == l.uploads[0].atts[i := Some(x)] && x !in l.rows
    requires l.uploads[0].atts[i] == None || Sent(l.uploads[0])
    ensures var n := l.uploads[0].current + 1;
      OnAttach(l, 0, i, x, true, true) ==
        l.(rows := l.rows[x := 1], uploads := [Upload(atts, n)],
           messages := if n >= |atts| then l.messages + [atts] else l.messages)
  {
    FilesOne(l.uploads[0].atts[i]);
    assert l.leaked + [] == l.leaked;
  }

  lemma FilesOne(a: Option<Hash>)
    ensures FilesOf([a]) == match a case None => [] case Some(h) => [h]
  {
    assert [a][1..] == [];
  }

  lemma FilesTwo(a: Hash, b: Hash)
    ensures FilesOf([Some(a), Some(b)]) == [a, b]
  {
    assert [Some(a), Some(b)][1..] == [Some(b)];
    FilesOne(Some(b));
  }

  lemma AttachTo(l: Ledger, i: nat, x: Hash, atts: Attachments, l': Ledger)
    requires |l.uploads| == 1 && i < |l.uploads[0].atts| && atts == l.uploads[0].atts[i := Some(x)] && x !in l.rows
    requires (l.uploads[0].atts[i] == None || Sent(l.uploads[0])) && x != ""
    requires var n := l.uploads[0].current + 1;
      l' == l.(rows := l.rows[x := 1], uploads := [Upload(atts, n)],
               messages := if n >= |atts| then l.messages + [atts] else l.messages)
    ensures Enabled(l, Attach(0, i, x, true, true)) && Apply(l, Attach(0, i, x, true, true)) == l'
  {
    PlainAttach(l, i, x, atts);
  }

  lemma PlainRelease(l: Ledger, h: Hash, rows: Rows, owed: seq<Hash>)
    requires l.owed == [h] + owed && l.users == [] && h in l.rows && l.rows[h] == 1 && Counted(l.rows)
    requires rows == l.rows - {h}
    ensures OnRelease(l, 0, true) == l.(rows := rows, owed := owed)
  {
    assert Without(l.owed, 0) == owed;
    assert Execute(l.rows, DecrementFile(h, true, true)) == rows;
  }

  lemma RunOne(l: Ledger, s: Step, rest: seq<Step>)
    requires Enabled(l, s)
    ensures Run(l, [s] + rest) == Run(Apply(l, s), rest)
  {
    assert ([s] + rest)[1..] == rest;
  }

  /** Two messages that share an attachment counted once. */
  function Shared(a: Hash, b: Hash, c: Hash): Ledger {
    Ledger(map[a := 1, b := 1, c := 1], [[Some(a), Some(b)], [Some(c), Some(b)]], [Upload([Some(c), Some(b)], 3)],
           [], [], [])
  }

  /** The first two uploads store a message. */
  function Stored(a: Hash, b: Hash): Ledger {
    Ledger(map[a := 1, b := 1], [[Some(a), Some(b)]], [Upload([Some(a), Some(b)], 2)], [], [], [])
  }

  lemma UploadedOnce(a: Hash, b: Hash, rest: seq<Step>)
    requires a != b && a != "" && b != ""
    ensures Run(Start(0), [StartMessage([None, None])] + ([Attach(0, 0, a, true, true)] +
                          ([Attach(0, 1, b, true, true)] + rest))) == Run(Stored(a, b), rest)
  {
    var l1 := Ledger(map[], [], [Upload([None, None], 0)], [], [], []);
    var l2 := Ledger(map[a := 1], [], [Upload([Some(a), None], 1)], [], [], []);
    AttachTo(l1, 0, a, [Some(a), None], l2);
    AttachTo(l2, 1, b, [Some(a), Some(b)], Stored(a, b));
    assert Apply(Start(0), StartMessage([None, None])) == l1;
    RunOne(Start(0), StartMessage([None, None]),
      [Attach(0, 0, a, true, true)] + ([Attach(0, 1, b, true, true)] + rest));
    RunOne(l1, Attach(0, 0, a, true, true), [Attach(0, 1, b, true, true)] + rest);
    RunOne(l2, Attach(0, 1, b, true, true), rest);
  }

  lemma UploadedAgain(a: Hash, b: Hash, c: Hash, rest: seq<Step>)
    requires a != b && b != c && a != c && a != "" && b != "" && c != ""
    ensures Run(Start(0), [StartMessage([None, None])] +
                          ([Attach(0, 0, a, true, true)] + ([Attach(0, 1, b, true, true)] +
                          ([Attach(0, 0, c, true, true)] + rest)))) == Run(Shared(a, b, c), rest)
  {
    UploadedOnce(a, b, [Attach(0, 0, c, true, true)] + rest);
    AttachTo(Stored(a, b), 0, c, [Some(c), Some(b)], Shared(a, b, c));
    RunOne(Stored(a, b), Attach(0, 0, c, true, true), rest);
  }

  lemma FirstDeleted(a: Hash, b: Hash, c: Hash)
    requires a != b && b != c && a != c
    ensures Run(Shared(a, b, c), [DeleteMessage(0)] + ([ReleaseFile(0, true)] + ([ReleaseFile(0, true)] + [])))
      == Shared(a, b, c).(messages := [[Some(c), Some(b)]], rows := map[c := 1])
  {
    var l := Shared(a, b, c);
    var l1 := l.(messages := [[Some(c), Some(b)]], owed := [a, b]);
    var l2 := l1.(rows := map[b := 1, c := 1], owed := [b]);
    var l3 := l1.(rows := map[c := 1], owed := []);
    FilesTwo(a, b);
    assert [] + [a, b] == [a, b] && Without(l.messages, 0) == [[Some(c), Some(b)]];
    assert Apply(l, DeleteMessage(0)) == l1;
    PlainRelease(l1, a, map[b := 1, c := 1], [b]);
    PlainRelease(l2, b, map[c := 1], []);
    RunOne(l, DeleteMessage(0), [ReleaseFile(0, true)] + ([ReleaseFile(0, true)] + []));
    RunOne(l1, ReleaseFile(0, true), [ReleaseFile(0, true)] + []);
    RunOne(l2, ReleaseFile(0, true), []);
    assert Run(l3, []) == l3;
  }

  /** A message with two attachments is stored; the first is uploaded again before the token goes, so a second
      message is stored that shares the other attachment without counting it; then the first message is deleted,
      and the second is left without that file. */
  lemma UploadedAgainLosesFile(a: Hash, b: Hash, c: Hash) returns (steps: seq<Step>)
    requires a != b && b != c && a != c && a != "" && b != "" && c != ""
    ensures var l := Run(Start(0), steps); l.messages == [[Some(c), Some(b)]] && b !in l.rows
  {
    var rest := [DeleteMessage(0)] + ([ReleaseFile(0, true)] + ([ReleaseFile(0, true)] + []));
    steps := [StartMessage([None, None])] + ([Attach(0, 0, a, true, true)] + ([Attach(0, 1, b, true, true)] +
             ([Attach(0, 0, c, true, true)] + rest)));
    UploadedAgain(a, b, c, rest);
    FirstDeleted(a, b, c);
  }
}
