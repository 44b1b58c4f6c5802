/** A connection that speaks HTTP: a message that arrives with one read, and a body that takes several. */
module HttpConnection {
  import opened Sequences
  import opened CStrings
  import opened HttpMessage
  import opened HttpRoundTrip
  import opened HttpServer

  const RECV_PAGE: nat := 4096

  /** Between reads: nothing, a message of whose body some bytes are still missing, handed over to the WebSocket
      parser, disconnected, or gone with the server, which followed a null pointer. */
  datatype Conn = Idle(flags: Flags) | Pending(top: Top, have: text, need: nat) | Upgraded | Closed | Crash

  /** Whether the handler of a message keeps the connection. */
  type Accepts = Parsed -> bool

  predicate Open(c: Conn) {
    c.Idle? || c.Pending?
  }

  predicate Fits(c: Conn, chunk: text) {
    && 0 < |chunk|
    && (c.Idle? ==> |chunk| < RECV_PAGE)
    && (c.Pending? ==> |c.have| + |chunk| <= c.need)
  }

  /** The connection after a message has been dealt with; an upgrade that was asked for has been answered. */
  function Next(f: Flags): Conn {
    if f.websocket then Upgraded else Idle(f.(upgrade := false))
  }

  /** A whole message goes to the upgrade, if one is asked for, else to its handler. */
  function Handle(p: Parsed, accepts: Accepts): Conn {
    if p.top.flags.upgrade || accepts(p) then Next(p.top.flags) else Closed
  }

  /** What comes of a message that has just been parsed. */
  function FirstStep(parsed: Outcome<Parsed>, accepts: Accepts): (Conn, seq<Parsed>) {
    match parsed
    case Refused => (Closed, [])
    case Crashed => (Crash, [])
    case Yields(p) =>
      match p.body
      case Waiting(have, need) => (Pending(p.top, have, need), [])
      case _ => (Handle(p, accepts), [p])
  }

  /** What comes of more bytes of a body; it is handled when it is complete, and the verdict is not looked at. */
  function BodyStep(top: Top, have: text, need: nat, chunk: text): (Conn, seq<Parsed>) {
    if |have| + |chunk| >= need then (Next(top.flags), [Parsed(top, Whole(have + chunk))])
    else (Pending(top, have + chunk, need), [])
  }

  /** What a read makes of the connection, and the messages handed to their handler. */
  function ReadStep(c: Conn, chunk: text, accepts: Accepts): (Conn, seq<Parsed>)
    requires Open(c) && Fits(c, chunk)
  {
    match c
    case Idle(f) => FirstStep(Parse(chunk + Nuls(RECV_PAGE - |chunk|), |chunk|, f), accepts)
    case Pending(top, have, need) => BodyStep(top, have, need, chunk)
  }

  /** A connection after some reads, and what was handed to handlers on the way. */
  function Run(c: Conn, chunks: seq<text>, accepts: Accepts): (Conn, seq<Parsed>)
    decreases |chunks|
  {
    if chunks == [] || !Open(c) || !Fits(c, chunks[0]) then (c, [])
    else
      var (c', now) := ReadStep(c, chunks[0], accepts);
      var (last, later) := Run(c', chunks[1..], accepts);
      (last, now + later)
  }

  /** Whatever upgrade the headers ask for, the connection waits for the next message without one. */
  lemma {:induction false} UpgradesAreAnswered(c: Conn, chunks: seq<text>, accepts: Accepts)
    requires c.Idle? ==> !c.flags.upgrade
    ensures var last := Run(c, chunks, accepts).0; last.Idle? ==> !last.flags.upgrade
    decreases |chunks|
  {
    if chunks != [] && Open(c) && Fits(c, chunks[0]) {
      UpgradesAreAnswered(ReadStep(c, chunks[0], accepts).0, chunks[1..], accepts);
    }
  }

  lemma PageIs(chunk: text)
    requires |chunk| <= 4096
    ensures chunk + Nuls(RECV_PAGE - |chunk|) == chunk + seq(4096 - |chunk|, _ => '\0')
  {
  }

  /** A first read is parsed in a page of 4096 bytes, of which it fills at most all but the last. */
  lemma FirstReadIs(f: Flags, chunk: text, page: text, accepts: Accepts)
    requires 0 < |chunk| < 4096 && page == chunk + seq(4096 - |chunk|, _ => '\0')
    ensures Fits(Idle(f), chunk)
    ensures ReadStep(Idle(f), chunk, accepts) == FirstStep(Parse(page, |chunk|, f), accepts)
  {
    PageIs(chunk);
  }

  /** A message that is refused closes the connection, as does one whose handler refuses it; any other leaves it waiting
      for the rest of a body, upgraded if it is a WebSocket now, or waiting for the next message. */
  lemma FirstReadSays(p: Outcome<Parsed>, accepts: Accepts)
    ensures var (c, handled) := FirstStep(p, accepts);
      && (p.Refused? ==> c == Closed && handled == [])
      && (p.Crashed? ==> c == Crash && handled == [])
      && (p.Yields? && p.value.body.Waiting? ==>
            c == Pending(p.value.top, p.value.body.have, p.value.body.need) && handled == [])
      && (p.Yields? && !p.value.body.Waiting? ==>
            && handled == [p.value]
            && (c.Closed? <==> !p.value.top.flags.upgrade && !accepts(p.value))
            && (c.Upgraded? <==> !c.Closed? && p.value.top.flags.websocket)
            && (c.Idle? <==> !c.Closed? && !p.value.top.flags.websocket)
            && (c.Idle? ==> c.flags == Flags(false, false, p.value.top.flags.keepAlive)))
  {
  }

  /** The next reads add to the body until it has the announced length; then the message is handled, and whatever its
      handler says the connection stays. */
  lemma NextReadSays(top: Top, have: text, need: nat, chunk: text, accepts: Accepts)
    requires |have| < need && Fits(Pending(top, have, need), chunk)
    ensures 0 < |chunk| <= need - |have|
    ensures var (c, handled) := ReadStep(Pending(top, have, need), chunk, accepts);
      && (|have| + |chunk| < need ==> c == Pending(top, have + chunk, need) && handled == [])
      && (|have| + |chunk| == need ==>
            && handled == [Parsed(top, Whole(have + chunk))]
            && (if top.flags.websocket then c == Upgraded else c == Idle(Flags(false, false, top.flags.keepAlive))))
  {
  }

  /** A run reads one chunk after the other, as long as the connection is open. */
  lemma RunIsReads(c: Conn, chunk: text, chunks: seq<text>, accepts: Accepts)
    ensures Run(c, [], accepts) == (c, [])
    ensures Open(c) && Fits(c, chunk) ==>
      var (d, handled) := ReadStep(c, chunk, accepts);
      var (last, later) := Run(d, chunks, accepts);
      Run(c, [chunk] + chunks, accepts) == (last, handled + later)
    ensures !Open(c) ==> Run(c, chunks, accepts) == (c, [])
  {
    assert ([chunk] + chunks)[1..] == chunks;
  }

  class HttpClient {
    var flags: Flags
    /** What stands in front of the body that is waited for. */
    var top: Top
    /** The body buffer of the message that is waited for. */
    var body: array?<char>
    var totalRecv: nat
    var closed: bool
    ghost var crashed: bool
    ghost var handled: seq<Parsed>

    ghost predicate Valid()
      reads this
    {
      !closed && !crashed && body != null ==> totalRecv < body.Length && flags == top.flags
    }

    ghost function State(): Conn
      reads this, body
      requires Valid()
    {
      if crashed then Crash
      else if closed then Closed
      else if body != null then Pending(top, body[..totalRecv], body.Length)
      else if flags.websocket then Upgraded
      else Idle(flags)
    }

    constructor ()
      ensures Valid() && State() == Idle(Flags(false, false, false)) && handled == []
    {
      flags := Flags(false, false, false);
      top := Top(Request("", "", [], ""), [], None, Flags(false, false, false));
      body, totalRecv, closed, crashed, handled := null, 0, false, false, [];
    }

    /** Hands a whole message to the upgrade that is asked for, or else to its handler. */
    method HandleHttp(p: Parsed, accepts: Accepts) returns (kept: bool)
      requires flags == p.top.flags
      modifies this`flags, this`handled
      ensures handled == old(handled) + [p] && kept == (old(flags).upgrade || accepts(p))
      ensures flags == old(flags).(upgrade := false)
    {
      handled := handled + [p];
      if flags.upgrade {
        kept := true;
        flags := flags.(upgrade := false);
      } else {
        kept := accepts(p);
      }
    }

    /** Keeps what has come of a message: nothing, a body to wait for, or a message to handle. */
    method TakeMessage(parsed: Outcome<Parsed>, accepts: Accepts)
      requires Valid() && State().Idle?
      requires parsed.Yields? && parsed.value.body.Waiting? ==> |parsed.value.body.have| < parsed.value.body.need
      modifies this
      ensures Valid() && (body == null || fresh(body))
      ensures (State(), handled) == (FirstStep(parsed, accepts).0, old(handled) + FirstStep(parsed, accepts).1)
    {
      assert handled + [] == handled;
      match parsed
      case Refused =>
        closed := true;
      case Crashed =>
        crashed := true;
      case Yields(p) =>
        flags := p.top.flags;
        match p.body
        case Waiting(have, need) =>
          body := new char[need](i requires 0 <= i => if i < |have| then have[i] else NUL);
          totalRecv := |have|;
          top := p.top;
          assert body[..totalRecv] == have;
        case _ =>
          var kept := HandleHttp(p, accepts);
          closed := !kept;
    }

    /** The first read of a message: parses it in a fresh page. */
    method ReadMessage(chunk: text, accepts: Accepts)
      requires Valid() && State().Idle? && Fits(State(), chunk)
      modifies this
      ensures Valid() && (body == null || fresh(body))
      ensures var s := ReadStep(old(State()), chunk, accepts); State() == s.0 && handled == old(handled) + s.1
    {
      var page := new char[RECV_PAGE](i requires 0 <= i => if i < |chunk| then chunk[i] else NUL);
      assert page[..] == chunk + Nuls(RECV_PAGE - |chunk|);
      var parsed := ParseHttp(page, |chunk|, flags);
      TakeMessage(parsed, accepts);
    }

    /** Reads on into the body; when it is complete the message is handled. */
    method ReadBody(chunk: text, accepts: Accepts)
      requires Valid() && State().Pending? && Fits(State(), chunk)
      modifies this, body
      ensures Valid() && (body == null || body == old(body))
      ensures var s := BodyStep(old(top), old(State().have), old(State().need), chunk);
        State() == s.0 && handled == old(handled) + s.1
    {
      ghost var have := body[..totalRecv];
      assert handled + [] == handled;
      var size := body.Length - totalRecv;
      for i := 0 to |chunk|
        invariant body == old(body) && totalRecv == old(totalRecv) && body[..totalRecv + i] == have + chunk[..i]
        invariant top == old(top) && flags == top.flags && handled == old(handled) && !closed && !crashed
      {
        body[totalRecv + i] := chunk[i];
      }
      totalRecv := totalRecv + |chunk|;
      assert chunk[..|chunk|] == chunk;
      assert body[..totalRecv] == have + chunk;
      if |chunk| >= size {
        assert body[..] == have + chunk;
        var _ := HandleHttp(Parsed(top, Whole(body[..])), accepts);
        body := null;
      }
    }

    /** Reads what the socket has, into the body that is waited for or into a new page. */
    method ReadClient(chunk: text, accepts: Accepts)
      requires Valid() && Open(State()) && (chunk != [] ==> Fits(State(), chunk))
      modifies this, body
      ensures Valid()
      ensures chunk == [] ==> closed && handled == old(handled)
      ensures chunk != [] ==>
        var s := ReadStep(old(State()), chunk, accepts); State() == s.0 && handled == old(handled) + s.1
    {
      if chunk == [] {
        closed := true;
      } else if body != null {
        ReadBody(chunk, accepts);
      } else {
        ReadMessage(chunk, accepts);
      }
    }
  }

  // ---- Bodies that take several reads ----

  ghost predicate NoneEmpty(chunks: seq<text>) {
    forall i | 0 <= i < |chunks| :: chunks[i] != []
  }

  lemma SomeChunks(chunks: seq<text>)
    requires NoneEmpty(chunks)
    ensures chunks != [] ==> Flatten(chunks) != []
  {
    if chunks != [] {
      assert chunks[0] != [];
    }
  }

  /** However the rest of a body is cut into reads, what has been received never exceeds the announced length,
      and the message is handled once, when the two are equal, with the pieces in order. */
  lemma {:induction false} BodyCollected(top: Top, have: text, need: nat, chunks: seq<text>, accepts: Accepts)
    requires |have| < need && NoneEmpty(chunks) && |have| + |Flatten(chunks)| <= need
    ensures Run(Pending(top, have, need), chunks, accepts) ==
      var all := have + Flatten(chunks);
      if |all| == need then (Next(top.flags), [Parsed(top, Whole(all))]) else (Pending(top, all, need), [])
    decreases |chunks|
  {
    if chunks == [] {
      assert have + [] == have;
    } else {
      var now := have + chunks[0];
      assert chunks[0] != [];
      assert have + Flatten(chunks) == now + Flatten(chunks[1..]);
      if |now| == need {
        SomeChunks(chunks[1..]);
        assert now + [] == now;
        var handled := [Parsed(top, Whole(now))];
        assert Run(Next(top.flags), chunks[1..], accepts).1 == [] && handled + [] == handled;
      } else {
        BodyCollected(top, now, need, chunks[1..], accepts);
        var later := Run(Pending(top, now, need), chunks[1..], accepts).1;
        assert [] + later == later;
      }
    }
  }

  /** The first message to be handled is the one that is waited for, with a body of the announced length. */
  lemma {:induction false} FirstHandled(top: Top, have: text, need: nat, chunks: seq<text>, accepts: Accepts)
    requires |have| < need && NoneEmpty(chunks)
    ensures var handled := Run(Pending(top, have, need), chunks, accepts).1;
      handled == [] || (handled[0].top == top && handled[0].body.Whole? && |handled[0].body.text| == need)
    decreases |chunks|
  {
    var c := Pending(top, have, need);
    if chunks != [] && Fits(c, chunks[0]) {
      var now := have + chunks[0];
      assert chunks[0] != [];
      if |now| < need {
        FirstHandled(top, now, need, chunks[1..], accepts);
        var later := Run(Pending(top, now, need), chunks[1..], accepts).1;
        assert [] + later == later;
      }
    }
  }

  /** What the first read leaves of a body that is cut: its bytes so far, if splitting leaves them alone. */
  lemma PrefixWaits(pre: text, k: nat, need: nat)
    requires |pre| < need
    ensures var b := BodyIn(pre + Nuls(k), |pre|, need);
      && b.Waiting? && b.need == need && (|b.have| == |pre| || b.have == "")
      && (b.have == pre <==> BodySurvives(pre))
  {
    var mem := pre + Nuls(k);
    CStringPadded(pre, k);
    CStringEnds(pre);
    if CString(pre) != "" {
      match Find(CString(pre), END)
      case None => assert mem[..|pre|] == pre;
      case Some(i) => ZeroedDiffers(pre, k, CString(pre), i);
    }
  }

  /** The message up to the first `q` bytes of its body. */
  function Head(h: Http, q: nat): text
    requires q <= |h.body|
  {
    Print(h.(body := h.body[..q]))
  }

  lemma RunFirst(head: text, chunks: seq<text>, f: Flags, p: Outcome<Parsed>, accepts: Accepts)
    requires Fits(Idle(f), head) && p == Parse(head + Nuls(RECV_PAGE - |head|), |head|, f)
    ensures var (c, now) := FirstStep(p, accepts);
      Run(Idle(f), [head] + chunks, accepts) == (Run(c, chunks, accepts).0, now + Run(c, chunks, accepts).1)
  {
    assert ([head] + chunks)[1..] == chunks;
  }

  lemma SameBodyIff(body: text, q: nat, have: text)
    requires q < |body| && |have| == q
    ensures have + body[q..] == body <==> have == body[..q]
  {
    assert (have + body[q..])[..q] == have;
    assert body[..q] + body[q..] == body;
  }

  /** A body that is waited for arrives whole if and only if its length was announced and its bytes so far are the
      first of it. */
  lemma RestArrivesIff(top: Top, have: text, need: nat, body: text, q: nat, chunks: seq<text>, accepts: Accepts)
    requires q < |body| && Flatten(chunks) == body[q..] && NoneEmpty(chunks) && |have| < need
    requires |have| == q || have == ""
    ensures Run(Pending(top, have, need), chunks, accepts).1 == [Parsed(top, Whole(body))]
      <==> need == |body| && have == body[..q]
  {
    FirstHandled(top, have, need, chunks, accepts);
    if need == |body| {
      BodyCollected(top, have, need, chunks, accepts);
      if |have| == q {
        SameBodyIff(body, q, have);
      }
    }
  }

  /** The message that the first read leaves. */
  lemma HeadParses(h: Http, q: nat, k: nat, f: Flags) returns (kept: seq<Header>, tail: text, body: Body)
    requires CleanMessage(h) && q <= |h.body|
    ensures Parse(Head(h, q) + Nuls(k), |Head(h, q)|, f) == Reparsed(Reread(h.start), kept, f, body)
    ensures body == BodyIn(tail + Nuls(k), |tail|, Declared(kept))
    ensures Cuts(kept) == h.headers <==> HeadersFit(h.headers)
    ensures Cuts(kept) == h.headers ==> kept == h.headers && (h.headers != [] ==> tail == h.body[..q])
    ensures h.headers == [] ==> body == Whole("")
  {
    var g := h.(body := h.body[..q]);
    kept, tail := Nineteen(Kept(h.headers, 0)), Extra(h.headers) + g.body;
    body := BodyIn(tail + Nuls(k), |tail|, Declared(kept));
    PrintedParses(g, k, f);
    HeadersReadBackIff(h.headers);
    assert "" + g.body == g.body;
    if h.headers == [] {
      ShiftedBody(g.body, k);
    }
  }

  /** What is handled after a first read. */
  function AfterFirst(parsed: Outcome<Parsed>, chunks: seq<text>, accepts: Accepts): seq<Parsed> {
    FirstStep(parsed, accepts).1 + Run(FirstStep(parsed, accepts).0, chunks, accepts).1
  }

  /** The first message to be handled has the start line and the headers of the first read. */
  lemma TopIsKept(parsed: Outcome<Parsed>, chunks: seq<text>, accepts: Accepts)
    requires NoneEmpty(chunks)
    requires parsed.Yields? && parsed.value.body.Waiting? ==> |parsed.value.body.have| < parsed.value.body.need
    ensures var handled := AfterFirst(parsed, chunks, accepts);
      handled == [] || (parsed.Yields? && handled[0].top == parsed.value.top)
  {
    if parsed.Yields? && parsed.value.body.Waiting? {
      var body := parsed.value.body;
      FirstHandled(parsed.value.top, body.have, body.need, chunks, accepts);
      assert AfterFirst(parsed, chunks, accepts)
        == Run(Pending(parsed.value.top, body.have, body.need), chunks, accepts).1;
    }
  }

  /** A message with the first `q` bytes of its body, and the rest behind it. */
  lemma CutBodyArrivesIff(top: Top, need: nat, k: nat, body: text, q: nat, chunks: seq<text>, accepts: Accepts)
    requires q < |body| && Flatten(chunks) == body[q..] && NoneEmpty(chunks)
    ensures var parsed := Yields(Parsed(top, BodyIn(body[..q] + Nuls(k), q, need)));
      AfterFirst(parsed, chunks, accepts) == [Parsed(top, Whole(body))] <==> need == |body| && BodySurvives(body[..q])
  {
    var first := BodyIn(body[..q] + Nuls(k), q, need);
    if q < need {
      PrefixWaits(body[..q], k, need);
    } else {
      assert first.Waiting? || (first.Whole? && |first.text| == need) || first == NoBody;
    }
    if first.Waiting? {
      RestArrivesIff(top, first.have, need, body, q, chunks, accepts);
      var later := Run(Pending(top, first.have, need), chunks, accepts).1;
      assert [] + later == later;
    } else {
      assert AfterFirst(Yields(Parsed(top, first)), chunks, accepts)[0] == Parsed(top, first);
    }
  }

  /** A message whose header block and the first `q` bytes of whose body come with the first read, and the rest in
      any pieces, is handled once and intact if and only if all of it is read, and those first bytes of its body
      are not split. */
  lemma ArrivesIff(h: Http, q: nat, chunks: seq<text>, f: Flags, accepts: Accepts)
    requires CleanMessage(h) && q < |h.body| && Flatten(chunks) == h.body[q..] && NoneEmpty(chunks)
    requires 0 < |Head(h, q)| < RECV_PAGE
    ensures Run(Idle(f), [Head(h, q)] + chunks, accepts).1 == [Expected(h, f, Whole(h.body))]
      <==> ReadsWhole(h, f) && BodySurvives(h.body[..q])
  {
    var k := RECV_PAGE - |Head(h, q)|;
    var kept, tail, body := HeadParses(h, q, k, f);
    var parsed := Reparsed(Reread(h.start), kept, f, body);
    RunFirst(Head(h, q), chunks, f, parsed, accepts);
    TopReadsBackIff(h, kept, f, body, body);
    if h.headers == [] {
      EmptyBodyIsNot(parsed, h, f, chunks, accepts);
    } else {
      TopArrivesIff(h, q, k, f, body, parsed, chunks, accepts);
    }
  }

  lemma EmptyBodyIsNot(parsed: Outcome<Parsed>, h: Http, f: Flags, chunks: seq<text>, accepts: Accepts)
    requires h.body != "" && (parsed.Yields? ==> parsed.value.body == Whole(""))
    ensures AfterFirst(parsed, chunks, accepts) != [Expected(h, f, Whole(h.body))]
  {
    assert parsed.Yields? ==> AfterFirst(parsed, chunks, accepts)[0] == parsed.value;
  }

  lemma TopArrivesIff(h: Http, q: nat, k: nat, f: Flags, body: Body, parsed: Outcome<Parsed>, chunks: seq<text>,
                      accepts: Accepts)
    requires q < |h.body| && Flatten(chunks) == h.body[q..] && NoneEmpty(chunks)
    requires parsed.Yields? && parsed.value.body.Waiting? ==> |parsed.value.body.have| < parsed.value.body.need
    requires parsed.Yields? ==> parsed.value.body == body
    requires parsed == Yields(Expected(h, f, body)) ==> body == BodyIn(h.body[..q] + Nuls(k), q, Declared(h.headers))
    ensures AfterFirst(parsed, chunks, accepts) == [Expected(h, f, Whole(h.body))]
      <==> && parsed == Yields(Expected(h, f, body))
           && Declared(h.headers) == |h.body| && BodySurvives(h.body[..q])
  {
    if parsed == Yields(Expected(h, f, body)) {
      CutBodyArrivesIff(parsed.value.top, Declared(h.headers), k, h.body, q, chunks, accepts);
    } else {
      TopIsKept(parsed, chunks, accepts);
    }
  }

  /** A message that comes with one read is handled once and intact if and only if all of it is read, and its body
      is not split. */
  lemma ArrivesAtOnceIff(h: Http, f: Flags, accepts: Accepts)
    requires CleanMessage(h) && 0 < |Print(h)| < RECV_PAGE
    ensures Run(Idle(f), [Print(h)], accepts).1 == [Expected(h, f, BodyOf(h))]
      <==> ReadsWhole(h, f) && BodySurvives(h.body)
  {
    var k := RECV_PAGE - |Print(h)|;
    var parsed := Parse(Print(h) + Nuls(k), |Print(h)|, f);
    ReadsBackIff(h, k, f);
    RunFirst(Print(h), [], f, parsed, accepts);
    assert [Print(h)] + [] == [Print(h)];
    OneStep(parsed, Expected(h, f, BodyOf(h)), accepts);
  }

  lemma OneStep(parsed: Outcome<Parsed>, expected: Parsed, accepts: Accepts)
    requires !expected.body.Waiting?
    ensures FirstStep(parsed, accepts).1 + [] == [expected] <==> parsed == Yields(expected)
  {
    assert parsed.Yields? && !parsed.value.body.Waiting? ==> FirstStep(parsed, accepts).1 + [] == [parsed.value];
  }
}
