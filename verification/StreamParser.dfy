/**
 * A byte stream taken apart item by item, for any way of reading one item: in one go, and through a receive
 * buffer that is filled read by read, rewritten in place as items are found, and resized for a cut item.
 */
module StreamParser {
  import opened Sequences

  /** The first item of a byte string and its size, or `Short` if it is not all there. */
  datatype Item<+T> = Short | Item(value: T, size: nat)

  type Reader<!B, !T> = seq<B> -> Item<T>

  datatype Parsed<+B, +T> = Parsed(items: seq<T>, rest: seq<B>, stopped: bool)

  ghost predicate FairAt<B, T>(first: Reader<B, T>, s: seq<B>) {
    first(s).Item? ==> 0 < first(s).size <= |s|
  }

  /** An item takes at least one byte and none that is not there. */
  ghost predicate Fair<B(!new), T>(first: Reader<B, T>) {
    forall s :: FairAt(first, s)
  }

  ghost predicate StableAt<B, T>(first: Reader<B, T>, a: seq<B>, b: seq<B>) {
    first(a).Item? ==> first(a + b) == first(a)
  }

  /** An item that is all there is not changed by what follows. */
  ghost predicate Stable<B(!new), T>(first: Reader<B, T>) {
    Fair(first) && forall a, b :: StableAt(first, a, b)
  }

  /** All items, up to and including the first that stops the stream. */
  ghost function ParseWith<B(!new), T>(s: seq<B>, first: Reader<B, T>, stops: T -> bool): Parsed<B, T>
    requires Fair(first)
    decreases |s|
  {
    assert FairAt(first, s);
    match first(s)
    case Short => Parsed([], s, false)
    case Item(x, size) =>
      if stops(x) then Parsed([x], s[size..], true)
      else
        var p := ParseWith(s[size..], first, stops);
        Parsed([x] + p.items, p.rest, p.stopped)
  }

  lemma {:induction false} ParseLeaves<B(!new), T>(s: seq<B>, first: Reader<B, T>, stops: T -> bool)
    requires Fair(first)
    ensures var p := ParseWith(s, first, stops);
      && (!p.stopped ==> first(p.rest).Short?)
      && |p.rest| <= |s| && p.rest == s[|s| - |p.rest|..]
      && (p.items == [] ==> p.rest == s && !p.stopped)
    decreases |s|
  {
    assert FairAt(first, s);
    match first(s)
    case Short =>
    case Item(x, size) =>
      if !stops(x) {
        ParseLeaves(s[size..], first, stops);
      }
  }

  /** Parsing what came first and then the leftover with what came later is parsing it all. */
  lemma {:induction false} ParseAppend<B(!new), T>(a: seq<B>, b: seq<B>, first: Reader<B, T>, stops: T -> bool)
    requires Stable(first)
    ensures var p := ParseWith(a, first, stops); var q := ParseWith(p.rest + b, first, stops);
      var r := ParseWith(a + b, first, stops);
      if p.stopped then r.items == p.items && r.stopped
      else r.items == p.items + q.items && r.rest == q.rest && r.stopped == q.stopped
    decreases |a|
  {
    assert FairAt(first, a) && StableAt(first, a, b);
    match first(a)
    case Short =>
    case Item(x, size) =>
      assert (a + b)[size..] == a[size..] + b;
      if !stops(x) {
        ParseMore(a, x, size, first, stops);
        ParseMore(a + b, x, size, first, stops);
        ParseAppend(a[size..], b, first, stops);
        var p := ParseWith(a[size..], first, stops);
        if !p.stopped {
          var q := ParseWith(p.rest + b, first, stops);
          assert [x] + (p.items + q.items) == ([x] + p.items) + q.items;
        }
      }
  }

  // ---- One run over the buffer ----

  /** What a run leaves: the buffer, the items dispatched, whether the client is to be disconnected, and how
      many bytes of an incomplete last item there are. */
  datatype Outcome<+B, +T> = Outcome(mem: seq<B>, items: seq<T>, stopped: bool, left: nat)

  ghost predicate SameLength<B>(rewrite: seq<B> -> seq<B>, s: seq<B>) {
    |rewrite(s)| == |s|
  }

  /** A rewriting of the bytes of an item in place. */
  ghost predicate InPlace<B(!new)>(rewrite: seq<B> -> seq<B>) {
    forall s :: SameLength(rewrite, s)
  }

  function Overwrite<B>(mem: seq<B>, at: nat, item: seq<B>): (m: seq<B>)
    requires at + |item| <= |mem|
    ensures |m| == |mem|
  {
    mem[..at] + item + mem[at + |item|..]
  }

  /** Takes the items out of `n` bytes from `at` on, rewriting each where it lies. */
  ghost function RunOver<B(!new), T>(mem: seq<B>, at: nat, n: nat, first: Reader<B, T>, rewrite: seq<B> -> seq<B>,
                                     stops: T -> bool): (o: Outcome<B, T>)
    requires Fair(first) && InPlace(rewrite) && at + n <= |mem|
    ensures |o.mem| == |mem| && o.left <= n
    decreases n
  {
    assert FairAt(first, mem[at..at + n]);
    match first(mem[at..at + n])
    case Short => Outcome(mem, [], false, n)
    case Item(x, size) =>
      assert SameLength(rewrite, mem[at..at + size]);
      var mem' := Overwrite(mem, at, rewrite(mem[at..at + size]));
      if stops(x) then Outcome(mem', [x], true, 0)
      else if size < n then
        var o := RunOver(mem', at + size, n - size, first, rewrite, stops);
        o.(items := [x] + o.items)
      else Outcome(mem', [x], false, 0)
  }

  lemma Overwritten<B>(mem: seq<B>, at: nat, n: nat, s: seq<B>, size: nat, item: seq<B>)
    requires |item| == size <= n && at + n <= |mem| && mem[at..at + n] == s
    ensures Overwrite(mem, at, item)[at + size..at + size + (n - size)] == s[size..]
  {
  }

  /** The bytes of a stream with each item rewritten, up to and including the first that stops the stream. */
  ghost function Rewritten<B(!new), T>(s: seq<B>, first: Reader<B, T>, rewrite: seq<B> -> seq<B>,
                                       stops: T -> bool): (w: seq<B>)
    requires Fair(first) && InPlace(rewrite)
    ensures |w| == |s|
    decreases |s|
  {
    assert FairAt(first, s);
    match first(s)
    case Short => s
    case Item(x, size) =>
      assert SameLength(rewrite, s[..size]);
      rewrite(s[..size]) + if stops(x) then s[size..] else Rewritten(s[size..], first, rewrite, stops)
  }

  /** A run over the buffer dispatches the items of the bytes in it, and leaves these bytes rewritten and the others
      as they were. */
  ghost predicate RunAgrees<B(!new), T>(mem: seq<B>, at: nat, o: Outcome<B, T>, p: Parsed<B, T>, w: seq<B>)
    requires at + |w| <= |mem|
  {
    && o.items == p.items && o.stopped == p.stopped
    && (!p.stopped ==> o.left == |p.rest|)
    && o.mem == Overwrite(mem, at, w)
  }

  lemma OverwriteTwice<B>(mem: seq<B>, at: nat, a: seq<B>, b: seq<B>)
    requires at + |a| + |b| <= |mem|
    ensures Overwrite(Overwrite(mem, at, a), at + |a|, b) == Overwrite(mem, at, a + b)
  {
  }

  lemma OverwriteItem<B>(mem: seq<B>, at: nat, n: nat, item: seq<B>)
    requires |item| <= n && at + n <= |mem|
    ensures Overwrite(mem, at, item) == Overwrite(mem, at, item + mem[at..at + n][|item|..])
    ensures Overwrite(mem, at, mem[at..at + n]) == mem
  {
  }

  lemma RunAgreesNext<B(!new), T>(mem: seq<B>, at: nat, item: seq<B>, x: T, mem': seq<B>, next: nat,
                                  o: Outcome<B, T>, p: Parsed<B, T>, w: seq<B>)
    requires at + |item| + |w| <= |mem| && mem' == Overwrite(mem, at, item) && next == at + |item|
    requires RunAgrees(mem', next, o, p, w)
    ensures RunAgrees(mem, at, o.(items := [x] + o.items), Parsed([x] + p.items, p.rest, p.stopped), item + w)
  {
    OverwriteTwice(mem, at, item, w);
  }

  lemma ParseMore<B(!new), T>(s: seq<B>, x: T, size: nat, first: Reader<B, T>, stops: T -> bool)
    requires Fair(first) && first(s) == Item(x, size) && size <= |s| && !stops(x)
    ensures var q := ParseWith(s[size..], first, stops);
      ParseWith(s, first, stops) == Parsed([x] + q.items, q.rest, q.stopped)
  {
  }

  lemma RunShort<B(!new), T>(mem: seq<B>, at: nat, n: nat, first: Reader<B, T>, rewrite: seq<B> -> seq<B>,
                             stops: T -> bool)
    requires Fair(first) && InPlace(rewrite) && at + n <= |mem| && first(mem[at..at + n]).Short?
    ensures RunOver(mem, at, n, first, rewrite, stops) == Outcome(mem, [], false, n)
  {
  }

  lemma RunLast<B(!new), T>(mem: seq<B>, at: nat, n: nat, first: Reader<B, T>, rewrite: seq<B> -> seq<B>,
                            stops: T -> bool, x: T, size: nat, item: seq<B>)
    requires Fair(first) && InPlace(rewrite) && at + n <= |mem| && first(mem[at..at + n]) == Item(x, size)
    requires size <= n && (size < n ==> stops(x)) && item == rewrite(mem[at..at + size]) && |item| == size
    ensures RunOver(mem, at, n, first, rewrite, stops) == Outcome(Overwrite(mem, at, item), [x], stops(x), 0)
  {
  }

  lemma RunMore<B(!new), T>(mem: seq<B>, at: nat, n: nat, first: Reader<B, T>, rewrite: seq<B> -> seq<B>,
                            stops: T -> bool, x: T, size: nat, item: seq<B>)
    requires Fair(first) && InPlace(rewrite) && at + n <= |mem| && first(mem[at..at + n]) == Item(x, size)
    requires size < n && !stops(x) && item == rewrite(mem[at..at + size]) && |item| == size
    ensures var o := RunOver(Overwrite(mem, at, item), at + size, n - size, first, rewrite, stops);
      RunOver(mem, at, n, first, rewrite, stops) == o.(items := [x] + o.items)
  {
  }

  lemma RewrittenMore<B(!new), T>(s: seq<B>, x: T, size: nat, item: seq<B>, first: Reader<B, T>,
                                  rewrite: seq<B> -> seq<B>, stops: T -> bool)
    requires Fair(first) && InPlace(rewrite) && first(s) == Item(x, size) && size <= |s| && item == rewrite(s[..size])
    ensures Rewritten(s, first, rewrite, stops) ==
      item + if stops(x) then s[size..] else Rewritten(s[size..], first, rewrite, stops)
  {
  }

  lemma {:induction false} RunOverParses<B(!new), T>(mem: seq<B>, at: nat, n: nat, s: seq<B>, first: Reader<B, T>,
                                                     rewrite: seq<B> -> seq<B>, stops: T -> bool)
    requires Fair(first) && InPlace(rewrite) && at + n <= |mem| && mem[at..at + n] == s
    ensures RunAgrees(mem, at, RunOver(mem, at, n, first, rewrite, stops), ParseWith(s, first, stops),
                      Rewritten(s, first, rewrite, stops))
    decreases n
  {
    assert FairAt(first, s);
    match first(s)
    case Short =>
      OverwriteItem(mem, at, n, []);
    case Item(x, size) =>
      var item := rewrite(s[..size]);
      assert SameLength(rewrite, s[..size]) && mem[at..at + size] == s[..size];
      if stops(x) || size == n {
        RunOverParsesLast(mem, at, n, s, first, rewrite, stops, x, size, item);
      } else {
        RunOverParsesMore(mem, at, n, s, first, rewrite, stops, x, size, item);
      }
  }

  lemma RunOverParsesLast<B(!new), T>(mem: seq<B>, at: nat, n: nat, s: seq<B>, first: Reader<B, T>,
                                      rewrite: seq<B> -> seq<B>, stops: T -> bool, x: T, size: nat, item: seq<B>)
    requires Fair(first) && InPlace(rewrite) && at + n <= |mem| && mem[at..at + n] == s
    requires first(s) == Item(x, size) && 0 < size <= n && (stops(x) || size == n)
    requires mem[at..at + size] == s[..size] && item == rewrite(s[..size]) && |item| == size
    ensures RunAgrees(mem, at, RunOver(mem, at, n, first, rewrite, stops), ParseWith(s, first, stops),
                      Rewritten(s, first, rewrite, stops))
  {
    RunLast(mem, at, n, first, rewrite, stops, x, size, item);
    RewrittenMore(s, x, size, item, first, rewrite, stops);
    OverwriteItem(mem, at, n, item);
    if !stops(x) {
      ParseMore(s, x, size, first, stops);
      assert s[size..] == [] && FairAt(first, s[size..]);
    }
  }

  lemma {:induction false} RunOverParsesMore<B(!new), T>(mem: seq<B>, at: nat, n: nat, s: seq<B>, first: Reader<B, T>,
                                    rewrite: seq<B> -> seq<B>, stops: T -> bool, x: T, size: nat, item: seq<B>)
    requires Fair(first) && InPlace(rewrite) && at + n <= |mem| && mem[at..at + n] == s
    requires first(s) == Item(x, size) && 0 < size < n && !stops(x)
    requires mem[at..at + size] == s[..size] && item == rewrite(s[..size]) && |item| == size
    ensures RunAgrees(mem, at, RunOver(mem, at, n, first, rewrite, stops), ParseWith(s, first, stops),
                      Rewritten(s, first, rewrite, stops))
    decreases n, 0
  {
    var mem', rest := Overwrite(mem, at, item), s[size..];
    Overwritten(mem, at, n, s, size, item);
    RunMore(mem, at, n, first, rewrite, stops, x, size, item);
    RunOverParses(mem', at + size, n - size, rest, first, rewrite, stops);
    ParseMore(s, x, size, first, stops);
    RewrittenMore(s, x, size, item, first, rewrite, stops);
    RunAgreesNext(mem, at, item, x, mem', at + size, RunOver(mem', at + size, n - size, first, rewrite, stops),
                  ParseWith(rest, first, stops), Rewritten(rest, first, rewrite, stops));
  }

  /** A stream is stopped by its last item or not at all, and its rewriting leaves the rest. */
  lemma {:induction false} ParseEnds<B(!new), T>(s: seq<B>, first: Reader<B, T>, rewrite: seq<B> -> seq<B>,
                                                 stops: T -> bool)
    requires Fair(first) && InPlace(rewrite)
    ensures var p := ParseWith(s, first, stops); var w := Rewritten(s, first, rewrite, stops);
      && StopsLast(p.items, p.stopped, stops)
      && (!p.stopped ==> |p.rest| <= |s| && w[|s| - |p.rest|..] == p.rest)
    decreases |s|
  {
    assert FairAt(first, s);
    match first(s)
    case Short =>
    case Item(x, size) =>
      var item := rewrite(s[..size]);
      assert SameLength(rewrite, s[..size]);
      if !stops(x) {
        ParseEnds(s[size..], first, rewrite, stops);
        ParseMore(s, x, size, first, stops);
        RewrittenMore(s, x, size, item, first, rewrite, stops);
        var p := ParseWith(s[size..], first, stops);
        LastOfMore(x, p.items, p.stopped, stops);
        if !p.stopped {
          TailOf(item, Rewritten(s[size..], first, rewrite, stops), |s| - |p.rest|);
        }
      }
  }

  lemma TailOf<B>(a: seq<B>, b: seq<B>, i: nat)
    requires |a| <= i <= |a| + |b|
    ensures (a + b)[i..] == b[i - |a|..]
  {
  }

  /** So is a run over the buffer, which leaves all from a cut item on. */
  lemma RunEnds<B(!new), T>(mem: seq<B>, at: nat, n: nat, first: Reader<B, T>, rewrite: seq<B> -> seq<B>,
                            stops: T -> bool)
    requires Fair(first) && InPlace(rewrite) && at + n <= |mem|
    ensures var o := RunOver(mem, at, n, first, rewrite, stops);
      && StopsLast(o.items, o.stopped, stops)
      && (!o.stopped ==> o.mem[at + n - o.left..] == mem[at + n - o.left..])
  {
    var s := mem[at..at + n];
    RunOverParses(mem, at, n, s, first, rewrite, stops);
    ParseEnds(s, first, rewrite, stops);
    var p, w := ParseWith(s, first, stops), Rewritten(s, first, rewrite, stops);
    if !p.stopped {
      ParseLeaves(s, first, stops);
      SameBehind(mem, at, w, n - |p.rest|);
    }
  }

  lemma SameBehind<B>(mem: seq<B>, at: nat, item: seq<B>, i: nat)
    requires at + |item| <= |mem| && i <= |item| && item[i..] == mem[at..at + |item|][i..]
    ensures Overwrite(mem, at, item)[at + i..] == mem[at + i..]
  {
    assert mem[at + i..] == mem[at..at + |item|][i..] + mem[at + |item|..];
  }

  /** Only the last item can be one that stops, and that is what stopping means. */
  ghost predicate StopsLast<T>(items: seq<T>, stopped: bool, stops: T -> bool) {
    && (stopped <==> items != [] && stops(items[|items| - 1]))
    && forall i | 0 <= i < |items| - 1 :: !stops(items[i])
  }

  lemma LastOfMore<T>(x: T, items: seq<T>, stopped: bool, stops: T -> bool)
    requires !stops(x) && StopsLast(items, stopped, stops)
    ensures StopsLast([x] + items, stopped, stops)
  {
  }

  lemma LastOfBoth<T>(a: seq<T>, b: seq<T>, stopped: bool, stops: T -> bool)
    requires StopsLast(a, false, stops) && StopsLast(b, stopped, stops)
    ensures StopsLast(a + b, stopped, stops)
  {
  }

  // ---- Reads ----

  /** A connection between reads: no buffer, a buffer with `offset` bytes of a cut item, or disconnected. */
  datatype Conn<+B> = Idle | Partial(data: seq<B>, offset: nat) | Closed

  /** One read: the bytes received, the size to which the buffer is set if an item is cut, and what new memory
      happens to hold. */
  datatype Read<!B> = Read(chunk: seq<B>, page: seq<B>, total: nat, fill: nat -> B)

  function Resized<B>(data: seq<B>, total: nat, fill: nat -> B): (s: seq<B>)
    ensures |s| == total
  {
    if total <= |data| then data[..total] else data + seq(total - |data|, i requires i >= 0 => fill(i))
  }

  function Buffer<B>(c: Conn<B>, r: Read<B>): seq<B> {
    if c.Partial? then c.data else r.page
  }

  function Offset<B>(c: Conn<B>): nat {
    if c.Partial? then c.offset else 0
  }

  /** The receive call returns at least one byte and no more than there is room for; the last byte of a
      first page is never filled. */
  predicate Fits<B>(c: Conn<B>, r: Read<B>) {
    var room := if c.Partial? then |c.data| - c.offset else |r.page| - 1;
    0 < |r.chunk| <= room
  }

  function Received<B>(c: Conn<B>, r: Read<B>): (s: seq<B>)
    requires Fits(c, r)
    ensures |s| == |Buffer(c, r)|
  {
    var b := Buffer(c, r);
    b[..Offset(c)] + r.chunk + b[Offset(c) + |r.chunk|..]
  }

  function After<B, T>(o: Outcome<B, T>, r: Read<B>): Conn<B> {
    if o.stopped then Closed
    else if o.left == 0 then Idle
    else Partial(Resized(o.mem, r.total, r.fill), o.left)
  }

  /** What a read makes of a connection, and the items it dispatches. The buffer is run over from its front;
      if an item is cut, the buffer is resized for it and its bytes are taken to be at the front. */
  ghost function ReadStep<B(!new), T>(c: Conn<B>, r: Read<B>, first: Reader<B, T>, rewrite: seq<B> -> seq<B>,
                                      stops: T -> bool): (Conn<B>, seq<T>)
    requires Fair(first) && InPlace(rewrite) && !c.Closed? && Fits(c, r)
  {
    var o := Ran(c, r, first, rewrite, stops);
    (After(o, r), o.items)
  }

  /** The connection holds exactly these bytes, of one cut item, at the front of its buffer. */
  ghost predicate Holds<B(!new), T>(c: Conn<B>, pending: seq<B>, first: Reader<B, T>) {
    && !c.Closed? && first(pending).Short?
    && (c.Idle? ==> pending == [])
    && (c.Partial? ==> pending != [] && c.offset == |pending| < |c.data| && c.data[..c.offset] == pending)
  }

  /** What a run over the received bytes of a read leaves. */
  ghost function Ran<B(!new), T>(c: Conn<B>, r: Read<B>, first: Reader<B, T>, rewrite: seq<B> -> seq<B>,
                                 stops: T -> bool): Outcome<B, T>
    requires Fair(first) && InPlace(rewrite) && !c.Closed? && Fits(c, r)
  {
    RunOver(Received(c, r), 0, Offset(c) + |r.chunk|, first, rewrite, stops)
  }

  /** A cut item behind other items: its bytes are not at the front of the buffer. */
  predicate CutBehind<B, T>(p: Parsed<B, T>) {
    !p.stopped && p.items != [] && p.rest != []
  }

  ghost predicate ReadAgrees<B(!new), T>(c: Conn<B>, r: Read<B>, o: Outcome<B, T>, p: Parsed<B, T>, w: seq<B>)
    requires Fits(c, r)
  {
    && |o.mem| == |Received(c, r)| && o.left <= |w| <= |o.mem| && o.mem[..|w|] == w
    && o.items == p.items && o.stopped == p.stopped
    && (!p.stopped ==> o.left == |p.rest|)
  }

  lemma ReadParses<B(!new), T>(c: Conn<B>, pending: seq<B>, r: Read<B>, first: Reader<B, T>, rewrite: seq<B> -> seq<B>,
                               stops: T -> bool)
    requires Fair(first) && InPlace(rewrite) && Holds(c, pending, first) && Fits(c, r)
    ensures ReadAgrees(c, r, Ran(c, r, first, rewrite, stops), ParseWith(pending + r.chunk, first, stops),
                       Rewritten(pending + r.chunk, first, rewrite, stops))
  {
    var n := Offset(c) + |r.chunk|;
    var mem := Received(c, r);
    assert mem[..n] == pending + r.chunk;
    RunOverParses(mem, 0, n, pending + r.chunk, first, rewrite, stops);
  }

  lemma AfterHolds<B(!new), T>(c: Conn<B>, o: Outcome<B, T>, p: Parsed<B, T>, r: Read<B>, w: seq<B>,
                               first: Reader<B, T>)
    requires Fits(c, r) && ReadAgrees(c, r, o, p, w) && !p.stopped && first(p.rest).Short? && |p.rest| < r.total
    ensures Holds(After(o, r), p.rest, first) <==> p.rest <= w
  {
    KeptByResize(o.mem, o.left, r.total, r.fill);
    assert o.mem[..o.left] == o.mem[..|w|][..o.left] == w[..o.left];
  }

  /** A read dispatches the items that the bytes waiting and received make up. It leaves the connection with
      exactly the leftover at the front of its buffer if and only if these bytes, with the items in them rewritten,
      start with the leftover. */
  lemma ReadStepIff<B(!new), T>(c: Conn<B>, pending: seq<B>, r: Read<B>, first: Reader<B, T>, rewrite: seq<B> -> seq<B>,
                                stops: T -> bool, p: Parsed<B, T>)
    requires Fair(first) && InPlace(rewrite) && Holds(c, pending, first) && Fits(c, r)
    requires p == ParseWith(pending + r.chunk, first, stops) && (!p.stopped ==> |p.rest| < r.total)
    ensures var s := ReadStep(c, r, first, rewrite, stops);
      && s.1 == p.items && (s.0.Closed? <==> p.stopped)
      && (!p.stopped ==> (Holds(s.0, p.rest, first) <==> p.rest <= Rewritten(pending + r.chunk, first, rewrite, stops)))
  {
    ReadParses(c, pending, r, first, rewrite, stops);
    ParseLeaves(pending + r.chunk, first, stops);
    if !p.stopped {
      AfterHolds(c, Ran(c, r, first, rewrite, stops), p, r, Rewritten(pending + r.chunk, first, rewrite, stops), first);
    }
  }

  /** So it does unless an item is cut behind others. */
  lemma NotCutBehind<B(!new), T>(s: seq<B>, first: Reader<B, T>, rewrite: seq<B> -> seq<B>, stops: T -> bool)
    requires Fair(first) && InPlace(rewrite)
    ensures var p := ParseWith(s, first, stops);
      !p.stopped && !CutBehind(p) ==> p.rest <= Rewritten(s, first, rewrite, stops)
  {
    assert FairAt(first, s);
  }

  lemma KeptByResize<B>(data: seq<B>, k: nat, total: nat, fill: nat -> B)
    requires k <= |data| && k <= total
    ensures Resized(data, total, fill)[..k] == data[..k]
  {
  }

  // ---- Many reads ----

  function Chunks<B>(rs: seq<Read<B>>): seq<B> {
    if rs == [] then [] else rs[0].chunk + Chunks(rs[1..])
  }

  /** A connection after some reads, and everything dispatched on the way; a closed one is read no more. */
  ghost function RunReads<B(!new), T>(c: Conn<B>, rs: seq<Read<B>>, first: Reader<B, T>, rewrite: seq<B> -> seq<B>,
                                      stops: T -> bool): (Conn<B>, seq<T>)
    requires Fair(first) && InPlace(rewrite)
    decreases rs
  {
    if rs == [] || c.Closed? || !Fits(c, rs[0]) then (c, [])
    else
      var s := ReadStep(c, rs[0], first, rewrite, stops);
      var more := RunReads(s.0, rs[1..], first, rewrite, stops);
      (more.0, s.1 + more.1)
  }

  /** However the bytes come, a connection is closed by the last item dispatched or not at all. */
  lemma {:induction false} ReadsEnd<B(!new), T>(c: Conn<B>, rs: seq<Read<B>>, first: Reader<B, T>,
                                                rewrite: seq<B> -> seq<B>, stops: T -> bool)
    requires Fair(first) && InPlace(rewrite) && !c.Closed?
    ensures var s := RunReads(c, rs, first, rewrite, stops); StopsLast(s.1, s.0.Closed?, stops)
    decreases rs
  {
    if rs != [] && Fits(c, rs[0]) {
      RunEnds(Received(c, rs[0]), 0, Offset(c) + |rs[0].chunk|, first, rewrite, stops);
      var s := ReadStep(c, rs[0], first, rewrite, stops);
      if s.0.Closed? {
        assert RunReads(s.0, rs[1..], first, rewrite, stops) == (s.0, []);
        assert s.1 + [] == s.1;
      } else {
        ReadsEnd(s.0, rs[1..], first, rewrite, stops);
        var more := RunReads(s.0, rs[1..], first, rewrite, stops);
        LastOfBoth(s.1, more.1, more.0.Closed?, stops);
      }
    }
  }

  lemma TwoReads<B(!new), T>(c: Conn<B>, a: Read<B>, b: Read<B>, c': Conn<B>, x: seq<T>, first: Reader<B, T>,
                             rewrite: seq<B> -> seq<B>, stops: T -> bool)
    requires Fair(first) && InPlace(rewrite) && !c.Closed? && Fits(c, a) && !c'.Closed? && Fits(c', b)
    requires ReadStep(c, a, first, rewrite, stops) == (c', x)
    ensures RunReads(c, [a, b], first, rewrite, stops).1 == x + ReadStep(c', b, first, rewrite, stops).1
    ensures Chunks([a, b]) == a.chunk + b.chunk
  {
    assert [a, b][1..] == [b] && [b][1..] == [];
    assert RunReads(c', [b], first, rewrite, stops).1 == ReadStep(c', b, first, rewrite, stops).1 + [];
    assert Chunks([b]) == b.chunk + [];
  }

  /** Reads that fit their buffers, of which none cuts an item behind others and each cut makes room. */
  ghost predicate Clean<B(!new), T>(c: Conn<B>, pending: seq<B>, rs: seq<Read<B>>, first: Reader<B, T>,
                                    rewrite: seq<B> -> seq<B>, stops: T -> bool)
    requires Fair(first) && InPlace(rewrite)
    decreases rs
  {
    rs == [] || c.Closed? ||
    (&& Fits(c, rs[0])
     && var p := ParseWith(pending + rs[0].chunk, first, stops);
        && !CutBehind(p) && (!p.stopped ==> |p.rest| < rs[0].total)
        && Clean(ReadStep(c, rs[0], first, rewrite, stops).0, p.rest, rs[1..], first, rewrite, stops))
  }

  /** Parsing the bytes of one read and then those of the others. */
  lemma ParseChunks<B(!new), T>(pending: seq<B>, rs: seq<Read<B>>, p: Parsed<B, T>, q: Parsed<B, T>,
                                first: Reader<B, T>, stops: T -> bool)
    requires Stable(first) && rs != []
    requires p == ParseWith(pending + rs[0].chunk, first, stops)
      && q == ParseWith(p.rest + Chunks(rs[1..]), first, stops)
    ensures var r := ParseWith(pending + Chunks(rs), first, stops);
      if p.stopped then r.items == p.items && r.stopped
      else r.items == p.items + q.items && r.rest == q.rest && r.stopped == q.stopped
  {
    ParseAppend(pending + rs[0].chunk, Chunks(rs[1..]), first, stops);
    assert pending + Chunks(rs) == pending + rs[0].chunk + Chunks(rs[1..]);
  }

  /** However the bytes are cut into clean reads, what is dispatched is what parsing them at once gives. */
  lemma {:induction false} CleanReadsParse<B(!new), T>(
      c: Conn<B>, pending: seq<B>, rs: seq<Read<B>>, first: Reader<B, T>, rewrite: seq<B> -> seq<B>, stops: T -> bool)
    requires Stable(first) && InPlace(rewrite) && Holds(c, pending, first)
      && Clean(c, pending, rs, first, rewrite, stops)
    ensures var s := RunReads(c, rs, first, rewrite, stops); var p := ParseWith(pending + Chunks(rs), first, stops);
      && s.1 == p.items && (s.0.Closed? <==> p.stopped)
      && (!p.stopped ==> Holds(s.0, p.rest, first))
    decreases rs
  {
    if rs == [] {
      assert pending + [] == pending && FairAt(first, pending);
    } else {
      var r := rs[0];
      var p := ParseWith(pending + r.chunk, first, stops);
      ReadStepIff(c, pending, r, first, rewrite, stops, p);
      NotCutBehind(pending + r.chunk, first, rewrite, stops);
      ParseChunks(pending, rs, p, ParseWith(p.rest + Chunks(rs[1..]), first, stops), first, stops);
      var c' := ReadStep(c, r, first, rewrite, stops).0;
      if !p.stopped {
        CleanReadsParse(c', p.rest, rs[1..], first, rewrite, stops);
      }
    }
  }

  /** Two ways of cutting the same bytes into clean reads dispatch the same items. */
  lemma CutsDoNotMatter<B(!new), T>(a: seq<Read<B>>, b: seq<Read<B>>, first: Reader<B, T>,
                                    rewrite: seq<B> -> seq<B>, stops: T -> bool)
    requires Stable(first) && InPlace(rewrite) && first([]).Short? && Chunks(a) == Chunks(b)
    requires Clean(Idle, [], a, first, rewrite, stops) && Clean(Idle, [], b, first, rewrite, stops)
    ensures RunReads(Idle, a, first, rewrite, stops).1 == RunReads(Idle, b, first, rewrite, stops).1
  {
    CleanReadsParse(Idle, [], a, first, rewrite, stops);
    CleanReadsParse(Idle, [], b, first, rewrite, stops);
  }
}
