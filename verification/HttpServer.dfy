/** The message object that responses are built in, and the parser that works on the receive buffer in place. */
module HttpServer {
  import opened Sequences
  import opened CStrings
  import opened HttpMessage
  import opened HttpRoundTrip

  const HTTP_VERSION := "HTTP/1.1"
  const SERVER_NAME := "ChityChat"

  // ---- Building ----

  /** The header that setting this name overwrites: of the same name, or empty. */
  function Slot(hs: seq<Header>, name: text, i: nat): (r: nat)
    requires i <= |hs|
    ensures i <= r <= |hs|
    decreases |hs| - i
  {
    if i == |hs| || hs[i].name == Truncated(name, NAME_LEN) || Skipped(hs[i]) then i else Slot(hs, name, i + 1)
  }

  function AddHeader(hs: seq<Header>, name: text, val: text): seq<Header> {
    var i := Slot(hs, name, 0);
    var h := Header(Truncated(name, NAME_LEN), Truncated(val, VAL_LEN));
    if i < |hs| then hs[i := h] else if |hs| >= MAX_HEADERS then hs else hs + [h]
  }

  function NewResponse(code: nat, msg: text, body: Option<text>): Http {
    var hs := AddHeader([], "Server", SERVER_NAME);
    var start := Response(HTTP_VERSION, code, Truncated(msg, STATUS_MSG_LEN));
    match body
    case None => Http(start, hs, "")
    case Some(b) => Http(start, AddHeader(hs, CONTENT_LEN, Decimal(|b|)), b)
  }

  /** The response after more headers have been added. */
  function WithHeaders(h: Http, added: seq<(text, text)>): Http
    decreases |added|
  {
    if added == [] then h
    else WithHeaders(h.(headers := AddHeader(h.headers, added[0].0, added[0].1)), added[1..])
  }

  class Message {
    var start: Start
    const headers: array<Header>
    var nHeaders: nat
    var body: text

    ghost predicate Valid()
      reads this
    {
      nHeaders <= headers.Length == 20
    }

    ghost function Value(): Http
      reads this, headers
      requires Valid()
    {
      Http(start, headers[..nHeaders], body)
    }

    /** A response with the server's header, and the length of its body if it has one. */
    constructor (code: nat, msg: text, content: Option<text>)
      ensures Valid() && fresh(headers) && Value() == NewResponse(code, msg, content)
    {
      start := Response(HTTP_VERSION, code, if |msg| <= STATUS_MSG_LEN then msg else msg[..STATUS_MSG_LEN]);
      headers := new Header[MAX_HEADERS](_ => Header("", ""));
      nHeaders := 0;
      body := "";
      new;
      Add("Server", SERVER_NAME);
      match content
      case None =>
      case Some(b) =>
        body := b;
        Add(CONTENT_LEN, Decimal(|b|));
    }

    /** Sets a header: over the first of the same name or an empty one, else behind the others while there is room. */
    method Add(name: text, val: text)
      requires Valid()
      modifies this`nHeaders, headers
      ensures Valid() && Value() == old(Value()).(headers := AddHeader(old(Value()).headers, name, val))
    {
      ghost var hs := headers[..nHeaders];
      var h := Header(Truncated(name, NAME_LEN), Truncated(val, VAL_LEN));
      var i := 0;
      while i < nHeaders && !(headers[i].name == h.name || headers[i].name == "" || headers[i].val == "")
        invariant i <= nHeaders && Slot(hs, name, 0) == Slot(hs, name, i)
      {
        i := i + 1;
      }
      if i == nHeaders {
        if nHeaders >= MAX_HEADERS {
          return;
        }
        nHeaders := nHeaders + 1;
      }
      headers[i] := h;
      assert headers[..nHeaders] == if i < |hs| then hs[i := h] else hs + [h];
    }

    /** Prints the message: header lines one by one, then the empty line, then the body. */
    method ToStr() returns (s: text)
      requires Valid()
      ensures s == Print(Value())
    {
      ghost var hs := headers[..nHeaders];
      s := StartLine(start) + NL;
      for i := 0 to nHeaders
        invariant StartLine(start) + NL + HeaderLines(hs, 0) == s + HeaderLines(hs, i)
      {
        var h := headers[i];
        NextHeaderLine(s, hs, i);
        if h.name != "" && h.val != "" {
          s := s + (HeaderLine(h) + if i + 1 >= nHeaders then "" else NL);
        }
      }
      assert s + "" == s;
      s := s + END + body;
    }
  }

  lemma NextHeaderLine(s: text, hs: seq<Header>, i: nat)
    requires i < |hs|
    ensures s + HeaderLines(hs, i) ==
      (if Skipped(hs[i]) then s else s + (HeaderLine(hs[i]) + if i + 1 >= |hs| then "" else NL))
        + HeaderLines(hs, i + 1)
  {
    var more := HeaderLines(hs, i + 1);
    if Skipped(hs[i]) {
      assert "" + more == more;
    } else {
      Associate(s, HeaderLine(hs[i]) + if i + 1 >= |hs| then "" else NL, more);
    }
  }

  lemma Associate(a: text, b: text, c: text)
    ensures a + (b + c) == (a + b) + c
  {
  }

  // ---- Parsing in place ----

  lemma HeaderFromTokens(line: text, name: text, val: text)
    requires name == line[Token(line, COLON).0..Token(line, COLON).1] && val == Behind(line, Token(line, COLON))
    ensures HeaderIn(line) ==
      if name == "" || val == "" then None
      else Some(Header(Truncated(name, NAME_LEN), Truncated(if val[0] == ' ' then val[1..] else val, VAL_LEN)))
  {
  }

  /** What the splitter sees next, after a line has been split off and its first token ended in place. */
  lemma NextInMemory(m: text, at: nat, cur: text, line: text, delims: set<char>)
    requires at <= |m| && cur == CString(m[at..]) && SplitOff(cur, NL).token == Some(line)
    ensures var (m1, next) := AfterSplit(m, at, cur, NL); var m2 := AfterToken(m1, at, line, Token(line, delims)).0;
      && at <= next <= |m| && CString(m2[next..]) == NextText(cur, line, delims)
      && next + |NextText(cur, line, delims)| <= at + |cur| <= |m|
      && m2[at + |cur|..] == m[at + |cur|..] && CString(m1[at..]) == line
  {
    AfterSplitReads(m, at, cur, NL);
    CStringEnds(m[at..]);
    var (m1, next) := AfterSplit(m, at, cur, NL);
    var t := Token(line, delims);
    var m2 := AfterToken(m1, at, line, t).0;
    match Find(cur, NL)
    case Some(i) =>
      assert m2[next..] == m1[next..];
      assert m2[at + |cur|..] == m1[at + |cur|..] == m[at + |cur|..];
    case None =>
      AfterTokenReads(m, at, line, t);
      if t.1 < |line| {
        CutInMemory(m, m2, at, cur, t.1, t.1 + 1);
      } else {
        assert line[..t.1] == line;
      }
  }

  lemma FrameBehind(m: text, m': text, a: nat, b: nat)
    requires a <= b <= |m| == |m'| && m'[a..] == m[a..]
    ensures m'[b..] == m[b..]
  {
    DropTwice(m, a, b - a);
    DropTwice(m', a, b - a);
  }

  /** Taking a token writes inside the string only. */
  lemma TokenInside(m: text, at: nat, s: text, t: (nat, nat))
    requires at + |s| <= |m| && t.0 <= t.1 <= |s|
    ensures var (m', from, next) := AfterToken(m, at, s, t);
      && m'[..at] == m[..at] && m'[at + |s|..] == m[at + |s|..] && at <= next && next + |Behind(s, t)| == at + |s|
  {
  }

  /** Takes the next token, writing inside the string only, and copies it. */
  method NextToken(buf: array<char>, at: nat, delims: set<char>) returns (token: text, from: nat, next: nat)
    requires at <= buf.Length
    modifies buf
    ensures var s := CString(old(buf[..])[at..]); var t := Token(s, delims);
      && token == s[t.0..t.1] && from == at + t.0 && from + |token| <= next && CString(buf[..][from..]) == token
      && at <= next <= buf.Length && CString(buf[..][next..]) == Behind(s, t)
      && next + |Behind(s, t)| == at + |s| <= buf.Length
      && buf[..] == AfterToken(old(buf[..]), at, s, t).0 && next == AfterToken(old(buf[..]), at, s, t).2
      && buf[..][..at] == old(buf[..])[..at] && buf[..][at + |s|..] == old(buf[..])[at + |s|..]
  {
    ghost var m, s := buf[..], CString(buf[..][at..]);
    CStringEnds(m[at..]);
    from, next := StrTok(buf, at, delims);
    AfterTokenReads(m, at, s, Token(s, delims));
    TokenInside(m, at, s, Token(s, delims));
    token := ReadString(buf, from);
  }

  /** Splits a line off the string at `at` and reads the header in it, if there is one. */
  method TakeHeader(buf: array<char>, at: nat) returns (header: Option<Header>, next: nat)
    requires at <= buf.Length
    modifies buf
    ensures var cur := CString(old(buf[..])[at..]);
      && at + |cur| <= buf.Length && buf[..][at + |cur|..] == old(buf[..])[at + |cur|..]
      && match SplitOff(cur, NL).token
         case None => header == None
         case Some(line) =>
           && header == HeaderIn(line) && next <= buf.Length
           && CString(buf[..][next..]) == NextText(cur, line, COLON)
           && next + |NextText(cur, line, COLON)| <= at + |cur|
  {
    ghost var m, cur := buf[..], CString(buf[..][at..]);
    CStringEnds(m[at..]);
    var token, after := StrSplit(buf, at, NL);
    next := after;
    if !token {
      return None, next;
    }
    ghost var line := SplitOff(cur, NL).token.value;
    NextInMemory(m, at, cur, line, COLON);
    var name, _, behind := NextToken(buf, at, COLON);
    var val := ReadString(buf, behind);
    HeaderFromTokens(line, name, val);
    if name == "" || val == "" {
      header := None;
    } else {
      header := Some(Header(Truncated(name, NAME_LEN), Truncated(if val[0] == ' ' then val[1..] else val, VAL_LEN)));
    }
  }

  /** Reads header lines until one is not a header, or they end, or there are too many. */
  method ParseHeaderLines(buf: array<char>, save: nat) returns (hs: seq<Header>)
    requires save <= buf.Length
    modifies buf
    ensures var s := CString(old(buf[..])[save..]);
      && hs == ParseHeaders(s, []) && save + |s| <= buf.Length && buf[..][save + |s|..] == old(buf[..])[save + |s|..]
  {
    ghost var m, s := buf[..], CString(buf[..][save..]);
    CStringEnds(m[save..]);
    ghost var hi := save + |s|;
    var at: nat := save;
    hs := [];
    while true
      invariant at <= buf.Length && at + |CString(buf[..][at..])| <= hi <= buf.Length && |hs| < MAX_HEADERS
      invariant ParseHeaders(CString(buf[..][at..]), hs) == ParseHeaders(s, [])
      invariant buf[..][hi..] == m[hi..]
      decreases |CString(buf[..][at..])|
    {
      ghost var m0, cur := buf[..], CString(buf[..][at..]);
      var header, next := TakeHeader(buf, at);
      FrameBehind(m0, buf[..], at + |cur|, hi);
      if header == None {
        break;
      }
      ghost var line := SplitOff(cur, NL).token.value;
      NextTextIsShorter(cur, line);
      ParseStep(cur, line, header.value, hs);
      hs := hs + [header.value];
      if |hs| >= MAX_HEADERS {
        hs := hs[..MAX_HEADERS - 1];
        break;
      }
      at := next;
    }
  }

  lemma PrefixStays(m: text, m': text, n: nat, k: nat)
    requires k <= n <= |m| == |m'| && m'[..n] == m[..n]
    ensures m'[..k] == m[..k]
  {
    assert m'[..n][..k] == m[..n][..k];
  }

  /** The string at `at` stays cut where its first token ended, whatever is written behind. */
  lemma CutStays(m: text, at: nat, line: text, t: (nat, nat), m': text)
    requires at <= |m| == |m'| && line == CString(m[at..]) && t.0 <= t.1 <= |line| && at + |line| <= |m|
    requires var (m1, from, next) := AfterToken(m, at, line, t); next <= |m| && m'[..next] == m1[..next]
    requires m'[at + |line|..] == m[at + |line|..]
    ensures CString(m'[at..]) == line[..t.1]
  {
    CStringEnds(m[at..]);
    var (m1, from, next) := AfterToken(m, at, line, t);
    forall k | 0 <= k < t.1
      ensures m'[at..][k] == line[k]
    {
      assert m'[at..][k] == m'[..next][at + k] == m1[..next][at + k] == m[at + k] == m[at..][k];
    }
    assert m'[at..][..t.1] == line[..t.1];
    if t.1 < |line| {
      assert m'[at + t.1] == m'[..next][at + t.1] == m1[..next][at + t.1] == NUL;
    } else if at + t.1 < |m| {
      assert m'[at + t.1] == m'[at + |line|..][0] == m[at + |line|..][0] == m[at..][t.1];
    }
    CStringIs(m'[at..], t.1);
  }

  /** Reads the parameter in the string at `at`. */
  method SplitParam(buf: array<char>, at: nat) returns (param: Option<Header>)
    requires at <= buf.Length
    modifies buf
    ensures var s := CString(old(buf[..])[at..]);
      && param == ParamIn(s) && at + |s| <= buf.Length
      && buf[..][..at] == old(buf[..])[..at] && buf[..][at + |s|..] == old(buf[..])[at + |s|..]
  {
    var key, _, next := NextToken(buf, at, EQUALS);
    var val := ReadString(buf, next);
    param := if key == "" then None else Some(Header(Truncated(key, NAME_LEN), Truncated(val, VAL_LEN)));
  }

  /** Takes the next parameter off the string at `at`, unless there are ten. */
  method TakeParam(buf: array<char>, at: nat, full: bool) returns (more: bool, param: Option<Header>, next: nat)
    requires at <= buf.Length
    modifies buf
    ensures var s := CString(old(buf[..])[at..]); var t := Token(s, AND);
      && (more <==> t.0 != t.1 && !full) && (more ==> param == ParamIn(s[t.0..t.1]))
      && at <= next <= buf.Length && CString(buf[..][next..]) == Behind(s, t) && next + |Behind(s, t)| == at + |s|
      && at + |s| <= buf.Length
      && buf[..][..at] == old(buf[..])[..at] && buf[..][at + |s|..] == old(buf[..])[at + |s|..]
  {
    ghost var s := CString(buf[..][at..]);
    var token, from, after := NextToken(buf, at, AND);
    next := after;
    if token == "" || full {
      return false, None, next;
    }
    ghost var m := buf[..];
    param := SplitParam(buf, from);
    PrefixStays(m, buf[..], from, at);
    FrameBehind(m, buf[..], from + |token|, next);
    FrameBehind(m, buf[..], from + |token|, at + |s|);
    more := true;
  }

  /** Reads the parameters in the string at `at`, ten at most. */
  method ParseParams(buf: array<char>, at: nat) returns (params: Outcome<seq<Header>>)
    requires at <= buf.Length
    modifies buf
    ensures var s := CString(old(buf[..])[at..]);
      && params == Params(s, []) && at + |s| <= buf.Length
      && buf[..][..at] == old(buf[..])[..at] && buf[..][at + |s|..] == old(buf[..])[at + |s|..]
  {
    ghost var m, s := buf[..], CString(buf[..][at..]);
    CStringEnds(m[at..]);
    ghost var hi := at + |s|;
    var pos, got := at, [];
    while true
      invariant at <= pos <= buf.Length && pos + |CString(buf[..][pos..])| <= hi <= buf.Length
      invariant |got| <= MAX_PARAMS && Params(CString(buf[..][pos..]), got) == Params(s, [])
      invariant buf[..][..at] == m[..at] && buf[..][hi..] == m[hi..]
      decreases |CString(buf[..][pos..])|
    {
      ghost var m0, cur := buf[..], CString(buf[..][pos..]);
      var more, param, next := TakeParam(buf, pos, |got| >= MAX_PARAMS);
      PrefixStays(m0, buf[..], pos, at);
      FrameBehind(m0, buf[..], pos + |cur|, hi);
      if !more {
        break;
      }
      if param == None {
        return Crashed;
      }
      got := got + [param.value];
      pos := next;
    }
    params := Yields(got);
  }

  /** Takes the URL at `at` apart. */
  method ParseUrl(buf: array<char>, at: nat) returns (url: Outcome<(text, seq<Header>)>)
    requires at <= buf.Length
    modifies buf
    ensures var s := CString(old(buf[..])[at..]);
      && url == UrlIn(s) && at + |s| <= buf.Length
      && buf[..][..at] == old(buf[..])[..at] && buf[..][at + |s|..] == old(buf[..])[at + |s|..]
  {
    ghost var m, s := buf[..], CString(buf[..][at..]);
    var path, _, next := NextToken(buf, at, QUERY);
    ghost var m1 := buf[..];
    var params := ParseParams(buf, next);
    PrefixStays(m1, buf[..], next, at);
    FrameBehind(m1, buf[..], next + |Behind(s, Token(s, QUERY))|, at + |s|);
    if path == "" || !params.Yields? {
      return Crashed;
    }
    url := Yields((Truncated(path, URL_LEN), params.value));
  }

  /** Takes the second part of a start line; the URL of a request is taken apart. */
  method TakeSecond(buf: array<char>, at: nat, isRequest: bool)
    returns (second: text, url: Outcome<(text, seq<Header>)>, next: nat)
    requires at <= buf.Length
    modifies buf
    ensures var s := CString(old(buf[..])[at..]); var t := Token(s, {' '});
      && second == s[t.0..t.1] && url == (if isRequest && second != "" then UrlIn(second) else Yields(("", [])))
      && at <= next <= buf.Length && CString(buf[..][next..]) == Behind(s, t) && next + |Behind(s, t)| == at + |s|
      && at + |s| <= buf.Length
      && buf[..][..at] == old(buf[..])[..at] && buf[..][at + |s|..] == old(buf[..])[at + |s|..]
  {
    ghost var s := CString(buf[..][at..]);
    var token, from, after := NextToken(buf, at, {' '});
    second, url, next := token, Yields(("", [])), after;
    if isRequest && second != "" {
      ghost var m := buf[..];
      url := ParseUrl(buf, from);
      PrefixStays(m, buf[..], from, at);
      FrameBehind(m, buf[..], from + |second|, next);
      FrameBehind(m, buf[..], from + |second|, at + |s|);
    }
  }

  /** Takes the second and the third part of a start line. */
  method TakeRest(buf: array<char>, at: nat, isRequest: bool)
    returns (second: text, url: Outcome<(text, seq<Header>)>, third: text)
    requires at <= buf.Length
    modifies buf
    ensures var s := CString(old(buf[..])[at..]); var t := Token(s, {' '});
      && second == s[t.0..t.1] && url == (if isRequest && second != "" then UrlIn(second) else Yields(("", [])))
      && third == LineEnd(Behind(s, t)) && at + |s| <= buf.Length
      && buf[..][..at] == old(buf[..])[..at] && buf[..][at + |s|..] == old(buf[..])[at + |s|..]
  {
    var part, parsed, next := TakeSecond(buf, at, isRequest);
    second, url := part, parsed;
    ghost var m := buf[..];
    var end, _, _ := NextToken(buf, next, LINE_ENDS);
    PrefixStays(m, buf[..], next, at);
    third := end;
  }

  /** What a line ends with. */
  function LineEnd(s: text): text {
    s[Token(s, LINE_ENDS).0..Token(s, LINE_ENDS).1]
  }

  lemma StartFromTokens(line: text, first: text, behind: text, second: text, third: text)
    requires first == line[Token(line, {' '}).0..Token(line, {' '}).1] && behind == Behind(line, Token(line, {' '}))
    requires second == behind[Token(behind, {' '}).0..Token(behind, {' '}).1]
    requires third == LineEnd(Behind(behind, Token(behind, {' '})))
    ensures StartIn(line) ==
      if first == "" then Refused
      else if Find(first, "HTTP/").Some? then Yields(ResponseOf(first, second, third))
      else RequestOf(first, second, third)
  {
  }

  /** Reads the three parts of the line at `at`. */
  method ParseStartLine(buf: array<char>, at: nat) returns (start: Outcome<Start>)
    requires at <= buf.Length
    modifies buf
    ensures var line := CString(old(buf[..])[at..]);
      && start == StartIn(line) && at + |line| <= buf.Length
      && buf[..][at + |line|..] == old(buf[..])[at + |line|..]
      && CString(buf[..][at..]) == line[..Token(line, {' '}).1]
  {
    ghost var m, line := buf[..], CString(buf[..][at..]);
    CStringEnds(m[at..]);
    var first, _, next1 := NextToken(buf, at, {' '});
    if first == "" {
      CutStays(m, at, line, Token(line, {' '}), buf[..]);
      return Refused;
    }
    var isRequest := Find(first, "HTTP/") == None;
    var second, url, third := TakeRest(buf, next1, isRequest);
    CutStays(m, at, line, Token(line, {' '}), buf[..]);
    StartFromTokens(line, first, Behind(line, Token(line, {' '})), second, third);
    if !isRequest {
      start := Yields(ResponseOf(first, second, third));
    } else if url.Yields? {
      start := Yields(Request(Truncated(first, METHOD_LEN), url.value.0, url.value.1, Truncated(third, METHOD_LEN)));
    } else {
      start := Crashed;
    }
  }

  /** Splits off the first line of the block at the front of the buffer and reads it. */
  method ParseFirstLine(buf: array<char>) returns (start: Outcome<Start>, next: nat)
    modifies buf
    ensures var block := CString(old(buf[..]));
      && |block| <= buf.Length && buf[..][|block|..] == old(buf[..])[|block|..]
      && match SplitOff(block, NL).token
         case None => start == Refused
         case Some(line) =>
           && start == StartIn(line) && next <= buf.Length && CString(buf[..][next..]) == NextText(block, line, {' '})
           && next + |NextText(block, line, {' '})| <= |block|
  {
    ghost var m, block := buf[..], CString(buf[..]);
    assert m[0..] == m;
    CStringEnds(m);
    var token, after := StrSplit(buf, 0, NL);
    next := after;
    if !token {
      return Refused, next;
    }
    ghost var m1, line := buf[..], SplitOff(block, NL).token.value;
    NextInMemory(m, 0, block, line, {' '});
    CStringEnds(m1[0..]);
    start := ParseStartLine(buf, 0);
    BlockTail(m, block, line, m1, next, buf[..]);
  }

  /** Reads the header block at the front of the buffer. */
  method ParseBlockInPlace(buf: array<char>) returns (r: Outcome<(Start, seq<Header>)>)
    modifies buf
    ensures var block := CString(old(buf[..]));
      r == ParseBlock(block) && |block| <= buf.Length && buf[..][|block|..] == old(buf[..])[|block|..]
  {
    ghost var block := CString(buf[..]);
    var start, next := ParseFirstLine(buf);
    match start {
      case Refused => r := Refused;
      case Crashed => r := Crashed;
      case Yields(value) =>
        ghost var m, rest := buf[..], CString(buf[..][next..]);
        var hs := ParseHeaderLines(buf, next);
        FrameBehind(m, buf[..], next + |rest|, |block|);
        r := Yields((value, hs));
    }
  }

  /** After the start line has been read in place, the rest of the block is where the splitter goes on. */
  lemma BlockTail(m: text, block: text, line: text, m1: text, next: nat, m2: text)
    requires block == CString(m) && SplitOff(block, NL).token == Some(line) && (m1, next) == AfterSplit(m, 0, block, NL)
    requires |m2| == |m| && |line| <= |m| && m2[|line|..] == m1[|line|..] && CString(m2) == line[..Token(line, {' '}).1]
    ensures |block| <= |m| && m2[|block|..] == m[|block|..]
    ensures next <= |m| && CString(m2[next..]) == NextText(block, line, {' '})
    ensures next + |NextText(block, line, {' '})| <= |block|
  {
    assert m[0..] == m && m2[0..] == m2;
    AfterSplitReads(m, 0, block, NL);
    CStringEnds(m);
    match Find(block, NL)
    case Some(i) =>
      FrameBehind(m1, m2, |line|, next);
      FrameBehind(m1, m2, |line|, |block|);
      assert m1[|block|..] == m[|block|..];
    case None =>
  }

  /** Reads the options of a connection; the value stays cut behind the first. */
  method SetConnection(flags: Flags, val: text) returns (cut: text, f: Flags)
    ensures cut == val[..Token(val, COMMA).1] && f == WithOptions(flags, Tokens(val, COMMA))
  {
    cut, f := val[..Token(val, COMMA).1], flags;
    var rest := val;
    var t := Token(rest, COMMA);
    while t.0 != t.1
      invariant t == Token(rest, COMMA)
      invariant WithOptions(f, Tokens(rest, COMMA)) == WithOptions(flags, Tokens(val, COMMA))
      decreases |rest|
    {
      var option := rest[t.0..t.1];
      FirstOption(f, option, Tokens(Behind(rest, t), COMMA));
      if option == "keep-alive" {
        f := f.(keepAlive := true);
      } else if option == "close" {
        f := Flags(false, false, false);
      } else if option == "Upgrade" {
        f := f.(upgrade := true);
      }
      rest := Behind(rest, t);
      t := Token(rest, COMMA);
    }
  }

  lemma FirstOption(f: Flags, option: text, options: seq<text>)
    ensures WithOptions(f, [option] + options) == WithOptions(WithOption(f, option), options)
  {
    assert ([option] + options)[1..] == options;
  }

  /** Takes from the headers the announced length of the body, the options of the connection and the key of a
      WebSocket handshake. */
  method HandleHeaders(flags: Flags, hs: seq<Header>)
    returns (cut: seq<Header>, need: nat, key: Option<text>, f: Flags)
    ensures cut == Cuts(hs) && need == Declared(hs) && key == KeyIn(hs) && f == FlagsAfter(flags, hs)
  {
    cut, need, key, f := hs, 0, None, flags;
    for i := 0 to |hs|
      invariant |cut| == |hs| && (forall j | 0 <= j < |hs| :: cut[j] == if j < i then Cut(hs[j]) else hs[j])
      invariant need == Declared(hs[..i]) && key == KeyIn(hs[..i]) && f == FlagsAfter(flags, hs[..i])
    {
      assert hs[..i + 1][..i] == hs[..i];
      if hs[i].name == CONTENT_LEN {
        need := Strtoull(hs[i].val);
      } else if hs[i].name == CONNECTION {
        var val, g := SetConnection(f, hs[i].val);
        cut, f := cut[i := hs[i].(val := val)], g;
      } else if hs[i].name == WEBSOCKET_KEY {
        key := Some(hs[i].val);
      }
    }
    assert hs[..|hs|] == hs;
  }

  /** Finds the first header of a name. */
  method GetHeader(hs: seq<Header>, name: text) returns (h: Option<Header>)
    ensures h == HeaderNamed(hs, name)
  {
    for i := 0 to |hs|
      invariant HeaderNamed(hs, name) == HeaderNamed(hs[i..], name)
    {
      assert hs[i..][1..] == hs[i + 1..];
      if hs[i].name == name {
        return Some(hs[i]);
      }
    }
    h := None;
  }

  /** Cutting the options of a connection changes no other header. */
  lemma {:induction false} OthersAreNotCut(hs: seq<Header>, name: text)
    requires name != CONNECTION
    ensures HeaderNamed(Cuts(hs), name) == HeaderNamed(hs, name)
  {
    if hs != [] {
      assert Cuts(hs)[0] == Cut(hs[0]) && Cuts(hs)[1..] == Cuts(hs[1..]);
      OthersAreNotCut(hs[1..], name);
    }
  }

  /** Notes the upgrade that the headers name, if one is asked for; no such header is a null pointer. */
  method HandleUpgrade(flags: Flags, hs: seq<Header>) returns (named: bool, f: Flags)
    ensures named <==> (flags.upgrade ==> HeaderNamed(hs, UPGRADE).Some?)
    ensures var h := HeaderNamed(hs, UPGRADE);
      f == if flags.upgrade && h.Some? && h.value.val == "websocket" then flags.(websocket := true) else flags
  {
    named, f := true, flags;
    if flags.upgrade {
      var upgrade := GetHeader(hs, UPGRADE);
      if upgrade == None {
        return false, flags;
      }
      if upgrade.value.val == "websocket" {
        f := f.(websocket := true);
      }
    }
  }

  /** What the headers say about message, body and connection. */
  method ReadTop(flags: Flags, start: Start, hs: seq<Header>) returns (top: Outcome<Top>, need: nat)
    ensures need == Declared(hs) && top == if UpgradeNamed(flags, hs) then Yields(TopOf(start, hs, flags)) else Crashed
  {
    var cut, key, asked;
    cut, need, key, asked := HandleHeaders(flags, hs);
    var named, f := HandleUpgrade(asked, cut);
    OthersAreNotCut(hs, UPGRADE);
    top := if named then Yields(Top(start, cut, key, f)) else Crashed;
  }

  /** The bytes behind the header block once an empty line in the string they start with has been zeroed. */
  function BodySplit(rest: text): (r: text)
    ensures |r| == |rest|
  {
    var i := Find(CString(rest), END);
    if i.Some? && i.value + |END| <= |rest| then Zeroed(rest, i.value, |END|) else rest
  }

  /** The body in the `n` bytes of the buffer. */
  method TakeBody(buf: array<char>, n: nat, from: nat, hasBody: bool, need: nat, ghost rest: text) returns (body: Body)
    requires from <= n <= buf.Length && |rest| == buf.Length - from && buf[..][from..] == BodySplit(rest)
    requires hasBody <==> CString(rest) != ""
    ensures body == BodyIn(rest, n - from, need)
  {
    ghost var b := buf[..][from..];
    assert buf[from..n] == b[..n - from];
    if !hasBody {
      body := if need > 0 then Waiting("", need) else NoBody;
    } else if need > n - from {
      body := Waiting(buf[from..n], need);
    } else {
      assert buf[from..from + need] == b[..need];
      body := Whole(buf[from..from + need]);
    }
  }

  lemma FirstSplit(m: text, n: nat, s: text, block: text, m1: text, next: nat)
    requires n < |m| && m[n] == NUL && s == CString(m) && SplitOff(s, END).token == Some(block)
    requires (m1, next) == AfterSplit(m, 0, s, END)
    ensures |block| <= n && next <= n && CString(m1) == block
    ensures if Find(s, END) == None then next == 0 && m1 == m
            else next == |block| + |END| && m1[next..] == m[next..] && m1[|block|] == NUL
  {
    assert m[0..] == m && m1[0..] == m1;
    AfterSplitReads(m, 0, s, END);
    CStringEnds(m);
  }

  lemma SecondSplit(m1: text, next: nat, rest: text, m2: text)
    requires next <= |m1| && rest == m1[next..] && m2 == AfterSplit(m1, next, CString(rest), END).0
    ensures m2[next..] == BodySplit(rest) && m2[..next] == m1[..next]
    ensures SplitOff(CString(rest), END).token.Some? <==> CString(rest) != ""
  {
    CStringEnds(rest);
  }

  lemma BlockStays(m1: text, m2: text, block: text, next: nat)
    requires CString(m1) == block && |block| < next <= |m1| == |m2| && m2[..next] == m1[..next] && m1[|block|] == NUL
    ensures CString(m2) == block
  {
    CStringEnds(m1);
    PrefixStays(m1, m2, next, |block|);
    assert m2[|block|] == m2[..next][|block|];
    CStringIs(m2, |block|);
  }

  /** Parses the message in the first `n` bytes of the receive buffer, where a NUL follows, in place. */
  method ParseHttp(buf: array<char>, n: nat, flags: Flags) returns (p: Outcome<Parsed>)
    requires n < buf.Length && buf[n] == NUL
    modifies buf
    ensures p == Parse(old(buf[..]), n, flags)
  {
    ghost var m, s := buf[..], CString(buf[..]);
    assert m[0..] == m;
    var token, next := StrSplit(buf, 0, END);
    if !token {
      return Refused;
    }
    ghost var m1, block := buf[..], SplitOff(s, END).token.value;
    FirstSplit(m, n, s, block, m1, next);
    var hasBody, _ := StrSplit(buf, next, END);
    ghost var m2 := buf[..];
    SecondSplit(m1, next, m1[next..], m2);
    if next == 0 {
      NoSecondSplit(s, m1, m2);
    } else {
      BlockStays(m1, m2, block, next);
    }
    var parsed := ParseBlockInPlace(buf);
    ghost var m3 := buf[..];
    if parsed.Refused? {
      return Refused;
    }
    if parsed.Crashed? {
      return Crashed;
    }
    var (start, hs) := parsed.value;
    var top, need := ReadTop(flags, start, hs);
    if top.Crashed? {
      return Crashed;
    }
    var body := Overlapping;
    if next != 0 {
      FrameBehind(m2, m3, |block|, next);
      body := TakeBody(buf, n, next, hasBody, need, m1[next..]);
    }
    p := Yields(Parsed(top.value, body));
  }

  lemma NoSecondSplit(s: text, m1: text, m2: text)
    requires s == CString(m1) && Find(s, END) == None && m2 == AfterSplit(m1, 0, CString(m1[0..]), END).0
    ensures m2 == m1
  {
    assert m1[0..] == m1;
  }

  // ---- Responses come back ----

  function Pow10(k: nat): nat {
    if k == 0 then 1 else 10 * Pow10(k - 1)
  }

  lemma {:induction false} DecimalLength(n: nat, k: nat)
    requires 0 < k && n < Pow10(k)
    ensures |Decimal(n)| <= k
  {
    if n >= 10 {
      DecimalLength(n / 10, k - 1);
    }
  }

  lemma U64Digits()
    ensures U64 < Pow10(20)
  {
    assert Pow10(5) == 100000;
    assert Pow10(10) == 1_00000_00000;
    assert Pow10(15) == 1_00000_00000_00000;
    assert Pow10(20) == 1_00000_00000_00000_00000;
  }

  /** A header that a response may be given: within the grammar, not empty, one connection option at most, and
      not the length of the body. */
  predicate CleanAdded(name: text, val: text) {
    var h := Header(name, val);
    CleanHeader(h) && val != "" && Cut(h) == h && name != CONTENT_LEN
  }

  ghost predicate Built(h: Http) {
    && CleanMessage(h) && 0 < |h.headers| <= 20 && Declared(h.headers) == |h.body|
    && forall i | 0 <= i < |h.headers| :: !Skipped(h.headers[i]) && Cut(h.headers[i]) == h.headers[i]
  }

  lemma {:induction false} DeclaredUpdate(hs: seq<Header>, i: nat, h: Header)
    requires i < |hs| && hs[i].name != CONTENT_LEN && h.name != CONTENT_LEN
    ensures Declared(hs[i := h]) == Declared(hs)
  {
    var n := |hs| - 1;
    if i < n {
      DeclaredUpdate(hs[..n], i, h);
      assert hs[i := h][..n] == hs[..n][i := h];
    } else {
      assert hs[i := h][..n] == hs[..n];
    }
  }

  lemma {:induction false} SlotOfFull(hs: seq<Header>, name: text, i: nat)
    requires i <= |hs| && |name| <= NAME_LEN && forall j | 0 <= j < |hs| :: !Skipped(hs[j])
    ensures var k := Slot(hs, name, i); k < |hs| ==> hs[k].name == name
    decreases |hs| - i
  {
    if i < |hs| && hs[i].name != name {
      SlotOfFull(hs, name, i + 1);
    }
  }

  lemma AddKeepsBuilt(h: Http, name: text, val: text)
    requires Built(h) && CleanAdded(name, val)
    ensures Built(h.(headers := AddHeader(h.headers, name, val)))
  {
    var hs, x := h.headers, Header(name, val);
    SlotOfFull(hs, name, 0);
    var i := Slot(hs, name, 0);
    if i < |hs| {
      DeclaredUpdate(hs, i, x);
    } else if |hs| < MAX_HEADERS {
      assert (hs + [x])[..|hs|] == hs;
    }
  }

  lemma {:induction false} AddedKeepBuilt(h: Http, added: seq<(text, text)>)
    requires Built(h) && forall i | 0 <= i < |added| :: CleanAdded(added[i].0, added[i].1)
    ensures Built(WithHeaders(h, added))
    ensures WithHeaders(h, added).body == h.body && WithHeaders(h, added).start == h.start
    decreases |added|
  {
    if added != [] {
      AddKeepsBuilt(h, added[0].0, added[0].1);
      AddedKeepBuilt(h.(headers := AddHeader(h.headers, added[0].0, added[0].1)), added[1..]);
    }
  }

  lemma LengthName(val: text)
    requires |val| < VAL_LEN && Without(val, {'\r', '\n', NUL})
    ensures CleanHeader(Header(CONTENT_LEN, val))
  {
  }

  lemma LengthHeader(n: nat)
    requires n < U64
    ensures CleanHeader(Header(CONTENT_LEN, Decimal(n))) && Decimal(n) != "" && Strtoull(Decimal(n)) == n
  {
    U64Digits();
    DecimalLength(n, 20);
    DecimalIsClean(n);
    NumbersReadBack(n);
    LengthName(Decimal(n));
  }

  lemma ServerHeader()
    ensures var server := Header("Server", SERVER_NAME);
      CleanHeader(server) && !Skipped(server) && Cut(server) == server && server.name != CONTENT_LEN
  {
  }

  lemma FirstHeaders(val: text)
    requires |val| <= VAL_LEN
    ensures AddHeader([], "Server", SERVER_NAME) == [Header("Server", SERVER_NAME)]
    ensures AddHeader([Header("Server", SERVER_NAME)], CONTENT_LEN, val)
      == [Header("Server", SERVER_NAME), Header(CONTENT_LEN, val)]
  {
  }

  lemma TwoAreBuilt(start: Start, server: Header, length: Header, body: text)
    requires CleanStart(start)
    requires CleanHeader(server) && !Skipped(server) && Cut(server) == server && server.name != CONTENT_LEN
    requires CleanHeader(length) && !Skipped(length) && length.name == CONTENT_LEN && Strtoull(length.val) == |body|
    ensures Built(Http(start, [server], "")) && Built(Http(start, [server, length], body))
  {
    assert [server][..0] == [] && Declared([server]) == 0;
  }

  lemma NewIsBuilt(code: nat, msg: text, body: Option<text>)
    requires CleanStart(Response(HTTP_VERSION, code, msg)) && (body.Some? ==> |body.value| < U64)
    ensures Built(NewResponse(code, msg, body))
  {
    var b := if body.Some? then body.value else "";
    ServerHeader();
    LengthHeader(|b|);
    FirstHeaders(Decimal(|b|));
    TwoAreBuilt(Response(HTTP_VERSION, code, msg), Header("Server", SERVER_NAME), Header(CONTENT_LEN, Decimal(|b|)), b);
  }

  /** Every response the server builds comes back from its printed form, body and headers, if and only if it has
      fewer than twenty headers, a body that is not split, and an upgrade that is named if it is asked for. */
  lemma ResponsesReadBackIff(code: nat, msg: text, body: Option<text>, added: seq<(text, text)>, k: nat, f: Flags)
    requires CleanStart(Response(HTTP_VERSION, code, msg)) && (body.Some? ==> |body.value| < U64)
    requires forall i | 0 <= i < |added| :: CleanAdded(added[i].0, added[i].1)
    ensures var h := WithHeaders(NewResponse(code, msg, body), added);
      && h.start == Response(HTTP_VERSION, code, msg) && h.body == (if body.Some? then body.value else "")
      && (Parse(Print(h) + Nuls(k), |Print(h)|, f) == Yields(Expected(h, f, BodyOf(h)))
          <==> |h.headers| < 20 && BodySurvives(h.body) && UpgradeNamed(f, h.headers))
  {
    NewIsBuilt(code, msg, body);
    AddedKeepBuilt(NewResponse(code, msg, body), added);
    BuiltReadsBackIff(WithHeaders(NewResponse(code, msg, body), added), k, f);
  }

  lemma BuiltReadsBackIff(h: Http, k: nat, f: Flags)
    requires Built(h) && PlainUrl(h.start)
    ensures Parse(Print(h) + Nuls(k), |Print(h)|, f) == Yields(Expected(h, f, BodyOf(h)))
      <==> |h.headers| < 20 && BodySurvives(h.body) && UpgradeNamed(f, h.headers)
  {
    ReadsBackIff(h, k, f);
  }

  /** The twentieth header is lost. */
  lemma TwentiethIsLost(h: Http, k: nat, f: Flags)
    requires Built(h) && PlainUrl(h.start) && |h.headers| == 20
    ensures var p := Parse(Print(h) + Nuls(k), |Print(h)|, f); var hs := h.headers[..19];
      if UpgradeNamed(f, hs) then p.Yields? && p.value.top == Top(h.start, hs, KeyIn(hs), FlagsOf(f, hs))
      else p.Crashed?
  {
    PrintedParses(h, k, f);
    StartReadsBackIff(h.start);
    KeptAll(h.headers, 0);
    assert h.headers[0..] == h.headers;
    CutsAre(h.headers[..19]);
  }

  /** An empty line in a body is overwritten. */
  lemma EmptyLineInBodyIsZeroed(k: nat)
    ensures BodyIn("a\r\n\r\nb" + Nuls(k), 6, 6) == Whole(['a', NUL, NUL, NUL, NUL, 'b'])
  {
    var body: text := "a\r\n\r\nb";
    CStringPadded(body, k);
    assert body[..6] == body;
    CStringIs(body, 6);
    assert At(body, 1, END);
    FindIs(body, END, 1);
    assert Zeroed(body + Nuls(k), 1, 4)[..6] == ['a', NUL, NUL, NUL, NUL, 'b'];
  }
}
