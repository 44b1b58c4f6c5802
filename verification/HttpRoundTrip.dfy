/** Parsing what was printed. */
module HttpRoundTrip {
  import opened Sequences
  import opened CStrings
  import opened HttpMessage

  // ---- Messages within the grammar and the field widths ----

  /** A header as section 5 of RFC 9112 allows it, shorter than its fields; the value may be empty. */
  predicate CleanHeader(h: Header) {
    && h.name != "" && |h.name| < 64 && Without(h.name, {':', ' ', '\r', '\n', NUL})
    && |h.val| < 256 && Without(h.val, {'\r', '\n', NUL})
  }

  predicate CleanStart(start: Start) {
    match start
    case Request(verb, url, _, version) =>
      && verb != "" && |verb| < 16 && Without(verb, {':', ' ', '\r', '\n', NUL}) && Find(verb, "HTTP/") == None
      && url != "" && |url| < 256 && Without(url, {' ', '\r', '\n', NUL})
      && |version| < 16 && Without(version, {'\r', '\n', NUL})
    case Response(version, code, msg) =>
      && version != "" && |version| < 16 && Without(version, {':', ' ', '\r', '\n', NUL})
      && Find(version, "HTTP/").Some?
      && code < 65536
      && |msg| < 128 && Without(msg, {'\r', '\n', NUL})
  }

  predicate CleanMessage(h: Http) {
    CleanStart(h.start) && forall i | 0 <= i < |h.headers| :: CleanHeader(h.headers[i])
  }

  // ---- The header block as it is printed ----

  /** The headers from the `i`-th on that are printed. */
  function Kept(hs: seq<Header>, i: nat): seq<Header>
    requires i <= |hs|
    decreases |hs| - i
  {
    if i == |hs| then [] else (if Skipped(hs[i]) then [] else [hs[i]]) + Kept(hs, i + 1)
  }

  /** The line end that follows the header block if the last header is skipped, or if there is none. */
  function Extra(hs: seq<Header>): text {
    if hs == [] || Skipped(hs[|hs| - 1]) then NL else ""
  }

  function Block(line: text, ks: seq<Header>): text
    decreases |ks|
  {
    if ks == [] then line else line + (NL + Block(HeaderLine(ks[0]), ks[1..]))
  }

  lemma Regroup(a: text, b: text, c: text, d: text)
    ensures a + (b + c) + d == a + (b + (c + d))
    ensures a + b + (c + d) == a + (b + c) + d
  {
  }

  lemma PrintedLast(line: text, hs: seq<Header>, i: nat)
    requires i + 1 == |hs|
    ensures line + NL + HeaderLines(hs, i) + END == Block(line, Kept(hs, i)) + (END + Extra(hs))
  {
    var h := hs[i];
    assert HeaderLines(hs, i + 1) == "" && Kept(hs, i + 1) == [];
    if Skipped(h) {
      assert HeaderLines(hs, i) == "" && Kept(hs, i) == [];
      assert line + NL + "" + END == line + (END + NL);
    } else {
      assert HeaderLines(hs, i) == HeaderLine(h) && Kept(hs, i) == [h];
      assert Block(line, [h]) == line + (NL + HeaderLine(h));
      assert line + NL + HeaderLine(h) + END == line + (NL + HeaderLine(h)) + (END + "");
    }
  }

  lemma {:induction false} PrintedBlock(line: text, hs: seq<Header>, i: nat)
    requires i < |hs|
    ensures line + NL + HeaderLines(hs, i) + END == Block(line, Kept(hs, i)) + (END + Extra(hs))
    decreases |hs| - i
  {
    var h := hs[i];
    if i + 1 == |hs| {
      PrintedLast(line, hs, i);
    } else if Skipped(h) {
      PrintedBlock(line, hs, i + 1);
      assert HeaderLines(hs, i) == HeaderLines(hs, i + 1) && Kept(hs, i) == Kept(hs, i + 1);
    } else {
      PrintedBlock(HeaderLine(h), hs, i + 1);
      PrintedMore(line, h, Kept(hs, i), Kept(hs, i + 1), HeaderLines(hs, i + 1), END + Extra(hs));
    }
  }

  lemma PrintedMore(line: text, h: Header, kept: seq<Header>, ks: seq<Header>, more: text, tail: text)
    requires kept == [h] + ks && HeaderLine(h) + NL + more + END == Block(HeaderLine(h), ks) + tail
    ensures line + NL + (HeaderLine(h) + NL + more) + END == Block(line, kept) + tail
  {
    var b := Block(HeaderLine(h), ks);
    assert kept[1..] == ks;
    assert line + NL + (HeaderLine(h) + NL + more) + END == line + NL + (HeaderLine(h) + NL + more + END);
    Regroup(line, NL, b, tail);
  }

  // ---- Where the block ends and how it falls into lines ----

  ghost predicate CleanLine(line: text) {
    line != "" && Without(line, {'\r', '\n', NUL})
  }

  ghost predicate CleanKept(ks: seq<Header>) {
    forall i | 0 <= i < |ks| :: CleanHeader(ks[i]) && !Skipped(ks[i])
  }

  lemma HeaderLineIsClean(h: Header)
    requires CleanHeader(h)
    ensures CleanLine(HeaderLine(h))
  {
  }

  lemma EndNotAcross(b: text, k: nat)
    requires b != "" && b[0] != '\r' && Find(b, END) == Some(k)
    ensures Find(NL + b, END) == Some(2 + k)
  {
    var s := NL + b;
    if |END| <= |s| {
      assert s[0..0 + |END|][2] == b[0];
    }
    assert !At(s, 0, END);
    NotAt(s, 1, END);
    FindFromSkips(s, END, 0, 2);
    FindFromBehind(NL, b, END, 0);
  }

  lemma {:induction false} BlockEnds(line: text, ks: seq<Header>, rest: text)
    requires CleanLine(line) && CleanKept(ks)
    ensures Find(Block(line, ks) + (END + rest), END) == Some(|Block(line, ks)|)
    ensures Block(line, ks) != "" && Block(line, ks)[0] == line[0]
    decreases |ks|
  {
    if ks == [] {
      assert At(END + rest, 0, END);
      FindSkips(line, END + rest, END);
    } else {
      HeaderLineIsClean(ks[0]);
      BlockEnds(HeaderLine(ks[0]), ks[1..], rest);
      EndsLater(line, Block(HeaderLine(ks[0]), ks[1..]), END + rest);
    }
  }

  lemma FindBehindLine(line: text, u: text, k: nat)
    requires CleanLine(line) && u != "" && u[0] != '\r' && Find(u, END) == Some(k)
    ensures Find(line + (NL + u), END) == Some(|line| + (2 + k))
  {
    EndNotAcross(u, k);
    FindPast(line, NL + u, 2 + k);
  }

  lemma FindPast(line: text, t: text, k: nat)
    requires CleanLine(line) && Find(t, END) == Some(k)
    ensures Find(line + t, END) == Some(|line| + k)
  {
    assert Without(line, {END[0]});
    FindSkips(line, t, END);
  }

  lemma EndsLater(line: text, b: text, tail: text)
    requires CleanLine(line) && b != "" && b[0] != '\r' && Find(b + tail, END) == Some(|b|)
    ensures Find(line + (NL + b) + tail, END) == Some(|line + (NL + b)|)
  {
    var u := b + tail;
    assert u[0] == b[0];
    Regroup(line, NL, b, tail);
    FindBehindLine(line, u, |b|);
  }

  lemma {:induction false} NoLineEnd(line: text)
    requires Without(line, {'\r'})
    ensures Find(line, NL) == None
  {
    FindSkips(line, "", NL);
    assert line + "" == line;
  }

  /** The first line of a block, and what is left. */
  lemma FirstLine(line: text, ks: seq<Header>)
    requires CleanLine(line)
    ensures var b := Block(line, ks);
      && (Find(b, NL).Some? <==> ks != [])
      && SplitOff(b, NL) == Split(Some(line), if ks == [] then line else Block(HeaderLine(ks[0]), ks[1..]))
  {
    if ks == [] {
      NoLineEnd(line);
    } else {
      var rest := Block(HeaderLine(ks[0]), ks[1..]);
      assert At(NL + rest, 0, NL);
      FindSkips(line, NL + rest, NL);
      assert (line + (NL + rest))[|line| + |NL|..] == rest;
    }
  }

  lemma {:induction false} BlockWithoutNul(line: text, ks: seq<Header>)
    requires CleanLine(line) && CleanKept(ks)
    ensures Without(Block(line, ks), {NUL})
    decreases |ks|
  {
    if ks != [] {
      HeaderLineIsClean(ks[0]);
      BlockWithoutNul(HeaderLine(ks[0]), ks[1..]);
    }
  }

  // ---- Header lines ----

  /** A printed header line reads back. */
  lemma HeaderReads(h: Header)
    requires CleanHeader(h) && !Skipped(h)
    ensures Token(HeaderLine(h), COLON) == (0, |h.name|) && HeaderIn(HeaderLine(h)) == Some(h)
    ensures HeaderLine(h)[..|h.name|] == h.name
  {
    var line := HeaderLine(h);
    assert line[..|h.name|] == h.name;
    TokenIs(line, COLON, |h.name|);
    assert line[|h.name| + 1..] == " " + h.val;
  }

  /** A name alone is not a header, so the last line is not taken twice. */
  lemma NameAlone(name: text, got: seq<Header>)
    requires name != "" && Without(name, {':', ' ', '\r'}) && |got| < MAX_HEADERS
    ensures ParseHeaders(name, got) == got
  {
    NoLineEnd(name);
    assert name[..|name|] == name;
    TokenIs(name, COLON, |name|);
  }

  /** The first nineteen of twenty or more. */
  function Nineteen(hs: seq<Header>): seq<Header> {
    if |hs| >= 20 then hs[..19] else hs
  }

  lemma ParseStep(s: text, line: text, h: Header, got: seq<Header>)
    requires SplitOff(s, NL).token == Some(line) && HeaderIn(line) == Some(h) && |got| < MAX_HEADERS
    ensures ParseHeaders(s, got) ==
      if |got| + 1 >= MAX_HEADERS then (got + [h])[..MAX_HEADERS - 1]
      else ParseHeaders(NextText(s, line, COLON), got + [h])
  {
  }

  lemma BlockStep(h: Header, more: seq<Header>, got: seq<Header>)
    requires CleanHeader(h) && !Skipped(h) && |got| < MAX_HEADERS
    ensures ParseHeaders(Block(HeaderLine(h), more), got) ==
      if |got| + 1 >= MAX_HEADERS then (got + [h])[..MAX_HEADERS - 1]
      else if more == [] then got + [h]
      else ParseHeaders(Block(HeaderLine(more[0]), more[1..]), got + [h])
  {
    var line := HeaderLine(h);
    HeaderLineIsClean(h);
    FirstLine(line, more);
    HeaderReads(h);
    ParseStep(Block(line, more), line, h, got);
    if |got| + 1 < MAX_HEADERS && more == [] {
      NameAlone(h.name, got + [h]);
    }
  }

  lemma {:induction false} BlockParses(ks: seq<Header>, got: seq<Header>)
    requires ks != [] && CleanKept(ks) && |got| < MAX_HEADERS
    ensures ParseHeaders(Block(HeaderLine(ks[0]), ks[1..]), got) == Nineteen(got + ks)
    decreases |ks|
  {
    MoveOne(got, ks);
    BlockStep(ks[0], ks[1..], got);
    if |got| + 1 < MAX_HEADERS && |ks| > 1 {
      BlockParses(ks[1..], got + [ks[0]]);
    } else if |got| + 1 >= MAX_HEADERS {
      assert (got + [ks[0]])[..|got|] == got;
    }
  }

  // ---- The start line ----

  /** The line falls into these three parts. */
  ghost predicate Parts(line: text, x: text, y: text, z: text) {
    var a := Token(line, {' '});
    var behind := Behind(line, a);
    var b := Token(behind, {' '});
    var last := Behind(behind, b);
    && line[a.0..a.1] == x && behind[b.0..b.1] == y && last[Token(last, LINE_ENDS).0..Token(last, LINE_ENDS).1] == z
    && a == (0, |x|) && line[..|x|] == x
  }

  lemma ThreeParts(x: text, y: text, z: text)
    requires x != "" && y != "" && Without(x, {' '}) && Without(y, {' '}) && Without(z, LINE_ENDS)
    ensures Parts(x + " " + y + " " + z, x, y, z)
  {
    var line := x + " " + y + " " + z;
    assert line[..|x|] == x;
    TokenIs(line, {' '}, |x|);
    var behind := Behind(line, (0, |x|));
    assert behind == y + " " + z && behind[..|y|] == y;
    TokenIs(behind, {' '}, |y|);
    assert Behind(behind, (0, |y|)) == z;
    assert z[..|z|] == z;
    if z != "" {
      TokenIs(z, LINE_ENDS, |z|);
    }
  }

  lemma StartFromParts(line: text, x: text, y: text, z: text)
    requires Parts(line, x, y, z) && x != "" && y != ""
    ensures StartIn(line) == if Find(x, "HTTP/").Some? then Yields(ResponseOf(x, y, z)) else RequestOf(x, y, z)
    ensures Token(line, {' '}).1 == |x| <= |line| && line[..|x|] == x
  {
  }

  function FirstPart(start: Start): text {
    match start case Request(verb, _, _, _) => verb case Response(version, _, _) => version
  }

  lemma DecimalIsClean(n: nat)
    ensures Decimal(n) != "" && Without(Decimal(n), {' ', '\r', '\n', NUL})
  {
    DecimalReads(n);
  }

  lemma LineIsClean(x: text, y: text, z: text)
    requires x != "" && Without(x, {'\r', '\n', NUL}) && Without(y, {'\r', '\n', NUL}) && Without(z, {'\r', '\n', NUL})
    ensures CleanLine(x + " " + y + " " + z)
  {
  }

  /** What parsing makes of a printed start line: the URL of a request is taken apart. */
  function Reread(start: Start): Outcome<Start> {
    match start
    case Response(_, _, _) => Yields(start)
    case Request(verb, url, _, version) =>
      match UrlIn(url)
      case Yields((path, params)) => Yields(Request(verb, path, params, version))
      case _ => Crashed
  }

  /** A URL without parameters, or a response. */
  predicate PlainUrl(start: Start) {
    start.Request? ==> Without(start.url, {'?'}) && start.params == []
  }

  /** A URL is its own path, without parameters, if and only if it has no question mark. */
  lemma UrlReadsBackIff(url: text)
    requires 0 < |url| <= URL_LEN
    ensures UrlIn(url) == Yields((url, [])) <==> Without(url, QUERY)
  {
    ScanStops(url, 0, QUERY, false);
    var t := Token(url, QUERY);
    ScanStops(url, t.0, QUERY, true);
    if Without(url, QUERY) {
      assert url[..|url|] == url;
      TokenIs(url, QUERY, |url|);
    }
  }

  /** Parameters as a browser puts them behind a path. */
  function Query(params: seq<Header>): text
    decreases |params|
  {
    if params == [] then ""
    else params[0].name + "=" + params[0].val + if |params| == 1 then "" else "&" + Query(params[1..])
  }

  predicate CleanParam(p: Header) {
    && p.name != "" && |p.name| <= 64 && Without(p.name, {'&', '='})
    && |p.val| <= 256 && Without(p.val, {'&'})
  }

  lemma ParamReads(p: Header)
    requires CleanParam(p)
    ensures ParamIn(p.name + "=" + p.val) == Some(p)
  {
    var s := p.name + "=" + p.val;
    assert s[..|p.name|] == p.name;
    TokenIs(s, EQUALS, |p.name|);
    assert Behind(s, (0, |p.name|)) == p.val;
  }

  function FirstTen(params: seq<Header>): seq<Header> {
    if |params| > 10 then params[..10] else params
  }

  /** The next parameter of several, and what is behind it. */
  lemma FirstParam(p: Header, more: text)
    requires CleanParam(p)
    ensures var param := p.name + "=" + p.val;
      && Token(param, AND) == (0, |param|) && Behind(param, (0, |param|)) == "" && param[0..|param|] == param
      && Token(param + ("&" + more), AND) == (0, |param|) && Behind(param + ("&" + more), (0, |param|)) == more
      && (param + ("&" + more))[0..|param|] == param
  {
    var param := p.name + "=" + p.val;
    var s := param + ("&" + more);
    assert Without(param, AND) && param[..|param|] == param && s[..|param|] == param;
    TokenIs(param, AND, |param|);
    TokenIs(s, AND, |param|);
  }

  lemma ParamsStep(s: text, n: nat, got: seq<Header>, param: Header)
    requires Token(s, AND) == (0, n) && n > 0 && |got| < MAX_PARAMS && ParamIn(s[0..n]) == Some(param)
    ensures Params(s, got) == Params(Behind(s, (0, n)), got + [param])
  {
  }

  lemma QueryStep(ps: seq<Header>, got: seq<Header>)
    requires ps != [] && CleanParam(ps[0]) && |got| < MAX_PARAMS
    ensures Params(Query(ps), got) == Params(Query(ps[1..]), got + [ps[0]])
  {
    var param, more := ps[0].name + "=" + ps[0].val, Query(ps[1..]);
    FirstParam(ps[0], more);
    ParamReads(ps[0]);
    if |ps| == 1 {
      assert param + "" == param && more == "";
      ParamsStep(param, |param|, got, ps[0]);
    } else {
      ParamsStep(param + ("&" + more), |param|, got, ps[0]);
    }
  }

  lemma {:induction false} QueryReads(ps: seq<Header>, got: seq<Header>)
    requires |got| <= MAX_PARAMS && forall i | 0 <= i < |ps| :: CleanParam(ps[i])
    ensures Params(Query(ps), got) == Yields(FirstTen(got + ps))
    decreases |ps|
  {
    if ps == [] {
      assert got + ps == got;
    } else if |got| == MAX_PARAMS {
      assert (got + ps)[..MAX_PARAMS] == got;
    } else {
      QueryStep(ps, got);
      QueryReads(ps[1..], got + [ps[0]]);
      MoveOne(got, ps);
    }
  }

  /** Of a path and parameters, put together as a URL, the path comes back, with the first ten parameters. */
  lemma UrlReads(path: text, params: seq<Header>)
    requires 0 < |path| <= 256 && Without(path, {'?'}) && forall i | 0 <= i < |params| :: CleanParam(params[i])
    ensures UrlIn(path + "?" + Query(params)) == Yields((path, FirstTen(params)))
  {
    QueryReads(params, []);
    assert [] + params == params;
    UrlFromPath(path, Query(params), FirstTen(params));
  }

  lemma UrlFromPath(path: text, query: text, params: seq<Header>)
    requires 0 < |path| <= URL_LEN && Without(path, QUERY) && Params(query, []) == Yields(params)
    ensures UrlIn(path + "?" + query) == Yields((path, params))
  {
    var url := path + "?" + query;
    assert url[..|path|] == path;
    TokenIs(url, QUERY, |path|);
    assert Behind(url, (0, |path|)) == query;
  }

  lemma StartReadsBackIff(start: Start)
    requires CleanStart(start)
    ensures Reread(start) == Yields(start) <==> PlainUrl(start)
  {
    if start.Request? {
      UrlReadsBackIff(start.url);
    }
  }

  lemma RequestReads(verb: text, url: text, params: seq<Header>, version: text)
    requires CleanStart(Request(verb, url, params, version))
    ensures var line := verb + " " + url + " " + version;
      && CleanLine(line) && StartIn(line) == Reread(Request(verb, url, params, version))
      && Token(line, {' '}).1 == |verb| <= |line| && line[..|verb|] == verb
  {
    LineIsClean(verb, url, version);
    ThreeParts(verb, url, version);
    StartFromParts(verb + " " + url + " " + version, verb, url, version);
  }

  lemma ResponseReads(version: text, code: nat, digits: text, msg: text)
    requires CleanStart(Response(version, code, msg)) && digits == Decimal(code)
    ensures var line := version + " " + digits + " " + msg;
      && CleanLine(line) && StartIn(line) == Yields(Response(version, code, msg))
      && Token(line, {' '}).1 == |version| <= |line| && line[..|version|] == version
  {
    DecimalIsClean(code);
    NumbersReadBack(code);
    LineIsClean(version, digits, msg);
    ThreeParts(version, digits, msg);
    StartFromParts(version + " " + digits + " " + msg, version, digits, msg);
  }

  /** What comes back from a printed start line. */
  lemma StartReads(start: Start)
    requires CleanStart(start)
    ensures var line := StartLine(start); var w := FirstPart(start);
      && CleanLine(line) && StartIn(line) == Reread(start)
      && Token(line, {' '}).1 == |w| <= |line| && line[..|w|] == w
  {
    match start
    case Request(verb, url, params, version) => RequestReads(verb, url, params, version);
    case Response(version, code, msg) => ResponseReads(version, code, Decimal(code), msg);
  }

  // ---- Messages ----

  function Nuls(k: nat): (s: text)
    ensures |s| == k
  {
    seq(k, _ => NUL)
  }

  lemma CStringAppend(a: text, b: text)
    requires Without(a, {NUL})
    ensures CString(a + b) == a + CString(b)
  {
    CStringEnds(b);
    var s := a + CString(b);
    assert (a + b)[..|s|] == s;
    CStringIs(a + b, |s|);
  }

  lemma PrintIs(h: Http)
    ensures Print(h) == Block(StartLine(h.start), Kept(h.headers, 0)) + (END + (Extra(h.headers) + h.body))
  {
    var line, hs := StartLine(h.start), h.headers;
    if hs == [] {
      assert line + NL + "" + END == line + (END + NL);
    } else {
      PrintedBlock(line, hs, 0);
    }
    Reassociate(Block(line, Kept(hs, 0)), END, Extra(hs), h.body);
  }

  lemma Reassociate(a: text, b: text, c: text, d: text)
    ensures a + (b + c) + d == a + (b + (c + d))
  {
  }

  lemma {:induction false} KeptIsClean(hs: seq<Header>, i: nat)
    requires i <= |hs| && forall j | 0 <= j < |hs| :: CleanHeader(hs[j])
    ensures CleanKept(Kept(hs, i))
    decreases |hs| - i
  {
    if i < |hs| {
      KeptIsClean(hs, i + 1);
    }
  }

  function BlockOf(start: Outcome<Start>, hs: seq<Header>): Outcome<(Start, seq<Header>)> {
    match start
    case Yields(s) => Yields((s, hs))
    case Refused => Refused
    case Crashed => Crashed
  }

  /** What the parser makes of the first lines of a printed message. */
  lemma BlockIsParsed(start: Start, ks: seq<Header>)
    requires CleanStart(start) && CleanKept(ks)
    ensures ParseBlock(Block(StartLine(start), ks)) == BlockOf(Reread(start), Nineteen(ks))
  {
    var line := StartLine(start);
    StartReads(start);
    FirstLine(line, ks);
    BlockFromLine(Block(line, ks), line, Reread(start));
    if ks == [] {
      NameAlone(FirstPart(start), []);
    } else {
      BlockParses(ks, []);
      assert [] + ks == ks;
    }
  }

  lemma BlockFromLine(b: text, line: text, start: Outcome<Start>)
    requires SplitOff(b, NL).token == Some(line) && StartIn(line) == start
    ensures ParseBlock(b) == BlockOf(start, ParseHeaders(NextText(b, line, {' '}), []))
  {
  }

  /** Where the parser finds the block and the body in memory. */
  lemma BlockInMemory(line: text, ks: seq<Header>, tail: text, mem: text)
    requires CleanLine(line) && CleanKept(ks) && mem == Block(line, ks) + (END + tail)
    ensures var b := Block(line, ks);
      && Find(CString(mem), END) == Some(|b|) && SplitOff(CString(mem), END).token == Some(b)
      && mem[|b| + |END|..] == tail
  {
    var b := Block(line, ks);
    BlockWithoutNul(line, ks);
    CStringAppend(b, END + tail);
    CStringAppend(END, tail);
    BlockEnds(line, ks, CString(tail));
    assert (b + (END + CString(tail)))[..|b|] == b;
  }

  lemma BodyFrom(mem: text, n: nat, from: nat, need: nat, tail: text)
    requires from <= n <= |mem| && mem[from..] == tail
    ensures BodyBehind(mem, n, from, true, need) == BodyIn(tail, n - from, need)
  {
  }

  /** The message with this start line, these headers and this body, if the start line is one. */
  function Reparsed(start: Outcome<Start>, hs: seq<Header>, f: Flags, body: Body): Outcome<Parsed> {
    match start
    case Yields(s) => MessageOf(s, hs, f, body)
    case Refused => Refused
    case Crashed => Crashed
  }

  lemma ParseFrom(mem: text, n: nat, f: Flags, s: text, b: text, start: Outcome<Start>, hs: seq<Header>)
    requires n <= |mem| && s == CString(mem) && SplitOff(s, END).token == Some(b)
    requires ParseBlock(b) == BlockOf(start, hs)
    ensures Parse(mem, n, f)
      == Reparsed(start, hs, f, BodyBehind(mem, n, |b| + |END|, Find(s, END).Some?, Declared(hs)))
  {
  }

  lemma BlockAndTailParse(start: Start, ks: seq<Header>, tail: text, k: nat, f: Flags)
    requires CleanStart(start) && CleanKept(ks)
    ensures var printed := Block(StartLine(start), ks) + (END + tail);
      Parse(printed + Nuls(k), |printed|, f)
        == Reparsed(Reread(start), Nineteen(ks), f, BodyIn(tail + Nuls(k), |tail|, Declared(Nineteen(ks))))
  {
    var b := Block(StartLine(start), ks);
    var n, mem := |b + (END + tail)|, b + (END + tail) + Nuls(k);
    StartReads(start);
    BlockIsParsed(start, ks);
    Reassociate(b, END, tail, Nuls(k));
    BlockInMemory(StartLine(start), ks, tail + Nuls(k), mem);
    ParseFrom(mem, n, f, CString(mem), b, Reread(start), Nineteen(ks));
    BodyFrom(mem, n, |b| + |END|, Declared(Nineteen(ks)), tail + Nuls(k));
  }

  /** Exactly what comes back from any message within the grammar and the field widths: the start line with its
      URL taken apart, the first nineteen of the headers that are not empty, and the bytes behind the first empty
      line, which are not the body alone if the last header was skipped. Without a path, with a parameter that has
      no name, or with an upgrade asked for and not named, the parser follows a null pointer. */
  lemma PrintedParses(h: Http, k: nat, f: Flags)
    requires CleanMessage(h)
    ensures var kept := Nineteen(Kept(h.headers, 0)); var tail := Extra(h.headers) + h.body;
      Parse(Print(h) + Nuls(k), |Print(h)|, f)
        == Reparsed(Reread(h.start), kept, f, BodyIn(tail + Nuls(k), |tail|, Declared(kept)))
  {
    PrintIs(h);
    KeptIsClean(h.headers, 0);
    BlockAndTailParse(h.start, Kept(h.headers, 0), Extra(h.headers) + h.body, k, f);
  }

  // ---- When the same message comes back ----

  /** A body that splitting at an empty line leaves alone: what is in front of its first NUL has no empty line,
      and is not empty itself. */
  predicate BodySurvives(body: text) {
    body == "" || (body[0] != NUL && Find(CString(body), END) == None)
  }

  function BodyOf(h: Http): Body {
    if h.body == "" then NoBody else Whole(h.body)
  }

  lemma CStringPadded(s: text, k: nat)
    ensures CString(s + Nuls(k)) == CString(s)
  {
    CStringEnds(s);
    var n := |CString(s)|;
    assert (s + Nuls(k))[..n] == s[..n];
    CStringIs(s + Nuls(k), n);
  }

  lemma ZeroedDiffers(body: text, k: nat, s: text, i: nat)
    requires |s| <= |body| && s == body[..|s|] && At(s, i, END)
    ensures i + |END| <= |body| && Zeroed(body + Nuls(k), i, |END|)[..|body|] != body
  {
    assert s[i] == s[i..i + |END|][0] == '\r' && body[i] == s[i];
    assert Zeroed(body + Nuls(k), i, |END|)[..|body|][i] == NUL;
  }

  /** The body comes back if and only if its length was announced and it is not split. */
  lemma BodyReadsBackIff(body: text, k: nat, need: nat)
    ensures BodyIn(body + Nuls(k), |body|, need) == (if body == "" then NoBody else Whole(body))
      <==> need == |body| && BodySurvives(body)
  {
    var mem := body + Nuls(k);
    CStringPadded(body, k);
    CStringEnds(body);
    if CString(body) != "" {
      match Find(CString(body), END)
      case None => assert mem[..|body|] == body;
      case Some(i) => ZeroedDiffers(body, k, CString(body), i);
    }
  }

  lemma {:induction false} KeptAll(hs: seq<Header>, i: nat)
    requires i <= |hs|
    ensures |Kept(hs, i)| <= |hs| - i
    ensures |Kept(hs, i)| == |hs| - i <==> forall j | i <= j < |hs| :: !Skipped(hs[j])
    ensures |Kept(hs, i)| == |hs| - i ==> Kept(hs, i) == hs[i..]
    decreases |hs| - i
  {
    if i < |hs| {
      KeptAll(hs, i + 1);
      assert hs[i..] == [hs[i]] + hs[i + 1..];
    }
  }

  /** At most nineteen headers, none of them empty, and no list of connection options that is cut. */
  predicate HeadersFit(hs: seq<Header>) {
    |hs| <= 19 && forall i | 0 <= i < |hs| :: hs[i].name != "" && hs[i].val != "" && Cut(hs[i]) == hs[i]
  }

  /** The headers come back if and only if there are at most nineteen, none is empty, and no list of connection
      options has more than one. */
  lemma HeadersReadBackIff(hs: seq<Header>)
    ensures Cuts(Nineteen(Kept(hs, 0))) == hs <==> HeadersFit(hs)
    ensures Cuts(Nineteen(Kept(hs, 0))) == hs ==> Nineteen(Kept(hs, 0)) == hs
  {
    KeptAll(hs, 0);
    assert hs[0..] == hs;
    if Nineteen(Kept(hs, 0)) == hs {
      assert forall i | 0 <= i < |hs| :: Cuts(hs)[i] == Cut(hs[i]);
    }
  }

  /** The message that was printed, as the parser should give it back. */
  function Expected(h: Http, f: Flags, body: Body): Parsed {
    Parsed(Top(h.start, h.headers, KeyIn(h.headers), FlagsOf(f, h.headers)), body)
  }

  /** One to nineteen headers, none of them empty, no list of connection options that is cut, the length of the
      body announced, no question mark in the URL of a request, and an upgrade named if it is asked for. */
  predicate ReadsWhole(h: Http, f: Flags) {
    && h.headers != [] && HeadersFit(h.headers)
    && Declared(h.headers) == |h.body|
    && PlainUrl(h.start)
    && UpgradeNamed(f, h.headers)
  }

  lemma CutsAre(hs: seq<Header>)
    ensures Cuts(hs) == hs <==> forall i | 0 <= i < |hs| :: Cut(hs[i]) == hs[i]
  {
    assert forall i | 0 <= i < |hs| :: Cuts(hs)[i] == Cut(hs[i]);
  }

  /** A message is given back with its start line and headers if and only if these come back. */
  lemma TopReadsBackIff(h: Http, kept: seq<Header>, f: Flags, body: Body, expected: Body)
    requires CleanStart(h.start) && (Cuts(kept) == h.headers ==> kept == h.headers)
    ensures Reparsed(Reread(h.start), kept, f, body) == Yields(Expected(h, f, expected))
      <==> PlainUrl(h.start) && Cuts(kept) == h.headers && UpgradeNamed(f, h.headers) && body == expected
  {
    StartReadsBackIff(h.start);
  }

  /** Every message within the grammar and the field widths comes back as it was printed if and only if all of it
      is read, and its body is not split. */
  lemma ReadsBackIff(h: Http, k: nat, f: Flags)
    requires CleanMessage(h)
    ensures Parse(Print(h) + Nuls(k), |Print(h)|, f) == Yields(Expected(h, f, BodyOf(h)))
      <==> ReadsWhole(h, f) && BodySurvives(h.body)
  {
    var kept, tail := Nineteen(Kept(h.headers, 0)), Extra(h.headers) + h.body;
    PrintedParses(h, k, f);
    HeadersReadBackIff(h.headers);
    TopReadsBackIff(h, kept, f, BodyIn(tail + Nuls(k), |tail|, Declared(kept)), BodyOf(h));
    BodyReadsBackIff(h.body, k, Declared(h.headers));
    assert "" + h.body == h.body;
    if h.headers == [] {
      ShiftedBody(h.body, k);
    }
  }

  /** Without headers the body starts two bytes late. */
  lemma ShiftedBody(body: text, k: nat)
    ensures BodyIn(NL + body + Nuls(k), |NL + body|, 0) == Whole("")
  {
    var mem := NL + body + Nuls(k);
    CStringEnds(mem);
    assert mem[0] == '\r';
  }

  // ---- Messages that do not come back ----

  lemma OneHeaderParses(start: Start, host: Header, k: nat, f: Flags)
    requires CleanStart(start) && CleanHeader(host) && !Skipped(host)
    ensures var h := Http(start, [host], "");
      Parse(Print(h) + Nuls(k), |Print(h)|, f)
        == Reparsed(Reread(start), [host], f, if Declared([host]) > 0 then Waiting("", Declared([host])) else NoBody)
  {
    var h := Http(start, [host], "");
    PrintedParses(h, k, f);
    assert Kept([host], 1) == [] && Kept([host], 0) == [host];
    CStringPadded("", k);
    assert Extra([host]) + "" == "";
  }

  lemma OneHeader(host: Header, f: Flags)
    requires host.name !in {CONTENT_LEN, CONNECTION, WEBSOCKET_KEY} && !f.upgrade
    ensures Declared([host]) == 0 && KeyIn([host]) == None && FlagsOf(f, [host]) == f && UpgradeNamed(f, [host])
    ensures Cuts([host]) == [host]
  {
    assert [host][..0] == [];
    assert FlagsAfter(f, [host]) == FlagsAfter(f, []);
  }

  /** The parameters of a URL are taken off it. */
  lemma ParametersAreTakenOff(host: Header, k: nat, f: Flags)
    requires CleanHeader(host) && !Skipped(host) && host.name !in {CONTENT_LEN, CONNECTION, WEBSOCKET_KEY} && !f.upgrade
    ensures var h := Http(Request("GET", "/a?b=c", [], "HTTP/1.1"), [host], "");
      Parse(Print(h) + Nuls(k), |Print(h)|, f)
        == Yields(Parsed(Top(Request("GET", "/a", [Header("b", "c")], "HTTP/1.1"), [host], None, f), NoBody))
  {
    UrlOfOne();
    OneHeader(host, f);
    GetParses("/a?b=c", host, k, f);
  }

  lemma UrlOfOne()
    ensures UrlIn("/a?b=c") == Yields(("/a", [Header("b", "c")]))
  {
    var p := Header("b", "c");
    assert Query([p]) == "b" + "=" + "c" + "" == "b=c";
    assert "/a" + "?" + "b=c" == "/a?b=c";
    UrlReads("/a", [p]);
  }

  lemma GetIsClean(url: text)
    requires url != "" && |url| < URL_LEN && Without(url, {' ', '\r', '\n', NUL})
    ensures CleanStart(Request("GET", url, [], "HTTP/1.1"))
  {
    NotAVersion("GET");
  }

  /** A request for a URL, with one header. */
  lemma GetParses(url: text, host: Header, k: nat, f: Flags)
    requires url != "" && |url| < URL_LEN && Without(url, {' ', '\r', '\n', NUL}) && CleanHeader(host) && !Skipped(host)
    ensures var h := Http(Request("GET", url, [], "HTTP/1.1"), [host], "");
      Parse(Print(h) + Nuls(k), |Print(h)|, f)
        == Reparsed(Reread(h.start), [host], f, if Declared([host]) > 0 then Waiting("", Declared([host])) else NoBody)
  {
    GetIsClean(url);
    OneHeaderParses(Request("GET", url, [], "HTTP/1.1"), host, k, f);
  }

  lemma NotAVersion(verb: text)
    requires Without(verb, {'H'})
    ensures Find(verb, "HTTP/") == None
  {
    FindSkips(verb, "", "HTTP/");
    assert verb + "" == verb;
  }

  lemma NoPathOrNoName()
    ensures UrlIn("?") == Crashed && UrlIn("/a?=") == Crashed
  {
    ScanIs("?", 0, 1, QUERY, false);
    TokenIs("/a?=", QUERY, 2);
    assert Behind("/a?=", (0, 2)) == "=";
    TokenIs("=", AND, 1);
    ScanIs("=", 0, 1, EQUALS, false);
    assert "="[0..1] == "=";
  }

  lemma UpgradeAlone(h: Header, f: Flags)
    requires h.name == CONNECTION && h.val == "Upgrade"
    ensures !UpgradeNamed(f, [h])
  {
    assert [h][..0] == [] && [h][1..] == [];
    TokenIs("Upgrade", COMMA, 7);
    assert "Upgrade"[0..7] == "Upgrade";
    assert Tokens("Upgrade", COMMA) == ["Upgrade"] + Tokens("", COMMA);
    assert FlagsAfter(f, [h]) == WithOptions(FlagsAfter(f, []), ["Upgrade"]);
    assert WithOptions(f, ["Upgrade"]) == WithOptions(WithOption(f, "Upgrade"), ["Upgrade"][1..]);
  }

  lemma GetCrashes(url: text, host: Header, k: nat, f: Flags)
    requires url != "" && |url| < URL_LEN && Without(url, {' ', '\r', '\n', NUL}) && CleanHeader(host) && !Skipped(host)
    requires UrlIn(url) == Crashed || !UpgradeNamed(f, [host])
    ensures var h := Http(Request("GET", url, [], "HTTP/1.1"), [host], "");
      Parse(Print(h) + Nuls(k), |Print(h)|, f) == Crashed
  {
    GetParses(url, host, k, f);
  }

  /** A URL without a path makes the parser follow a null pointer. */
  lemma NoPathCrashes(host: Header, k: nat, f: Flags)
    requires CleanHeader(host) && !Skipped(host)
    ensures var h := Http(Request("GET", "?", [], "HTTP/1.1"), [host], "");
      Parse(Print(h) + Nuls(k), |Print(h)|, f) == Crashed
  {
    NoPathOrNoName();
    GetCrashes("?", host, k, f);
  }

  /** So does a parameter without a name. */
  lemma NoNameCrashes(host: Header, k: nat, f: Flags)
    requires CleanHeader(host) && !Skipped(host)
    ensures var h := Http(Request("GET", "/a?=", [], "HTTP/1.1"), [host], "");
      Parse(Print(h) + Nuls(k), |Print(h)|, f) == Crashed
  {
    NoPathOrNoName();
    GetCrashes("/a?=", host, k, f);
  }

  /** So does an upgrade that is asked for and not named. */
  lemma UpgradeAloneCrashes(url: text, k: nat, f: Flags)
    requires url != "" && |url| < URL_LEN && Without(url, {' ', '\r', '\n', NUL})
    ensures var h := Http(Request("GET", url, [], "HTTP/1.1"), [Header(CONNECTION, "Upgrade")], "");
      Parse(Print(h) + Nuls(k), |Print(h)|, f) == Crashed
  {
    var upgrade := Header(CONNECTION, "Upgrade");
    UpgradeHeaderIsClean(upgrade);
    UpgradeAlone(upgrade, f);
    GetCrashes(url, upgrade, k, f);
  }

  lemma UpgradeHeaderIsClean(h: Header)
    requires h.name == CONNECTION && h.val == "Upgrade"
    ensures CleanHeader(h) && !Skipped(h)
  {
  }
}
