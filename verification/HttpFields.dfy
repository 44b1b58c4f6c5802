/** The parts of a message one by one: what is read from any line, number and body, and what is printed. */
module HttpFields {
  import opened Sequences
  import opened CStrings
  import opened HttpMessage
  import opened HttpRoundTrip
  import opened HttpServer

  /** At most the first `n` characters. */
  ghost predicate AtMost(s: text, n: nat, t: text) {
    t == if |s| <= n then s else s[..n]
  }

  // ---- Tokens ----

  predicate All(s: text, cs: set<char>) {
    forall i | 0 <= i < |s| :: s[i] in cs
  }

  /** The first token is what stands between leading delimiters and the next one. */
  lemma TokenSays(s: text, cs: set<char>, d: text, n: text, rest: text)
    requires s == d + n + rest && All(d, cs) && n != "" && Without(n, cs) && (rest != "" ==> rest[0] in cs)
    ensures Token(s, cs) == (|d|, |d| + |n|) && s[|d|..|d| + |n|] == n && s[..|d| + |n|] == d + n
    ensures Behind(s, (|d|, |d| + |n|)) == if rest == "" then "" else rest[1..]
  {
    assert forall k | 0 <= k < |d| :: s[k] == d[k];
    assert forall k | |d| <= k < |d| + |n| :: s[k] == n[k - |d|];
    assert rest != "" ==> s[|d| + |n|] == rest[0];
    assert s[|d|] == n[0];
    ScanIs(s, 0, |d|, cs, false);
    ScanIs(s, |d|, |d| + |n|, cs, true);
  }

  lemma NoToken(s: text, cs: set<char>)
    requires All(s, cs)
    ensures Token(s, cs) == (|s|, |s|)
  {
    ScanIs(s, 0, |s|, cs, false);
  }

  // ---- Header lines ----

  /** A header line: the name is what comes before the first colon or blank behind leading ones, the value what comes
      behind it, without one blank in front. Names of more than 64 characters and values of more than 256 are cut. */
  lemma HeaderSays(line: text, d: text, n: text, c: char, v: text)
    requires line == d + n + ([c] + v) && All(d, {':', ' '}) && n != "" && Without(n, {':', ' '}) && c in {':', ' '}
    ensures v == "" ==> HeaderIn(line) == None
    ensures v != "" ==>
      && HeaderIn(line).Some? && AtMost(n, 64, HeaderIn(line).value.name)
      && AtMost(if v[0] == ' ' then v[1..] else v, 256, HeaderIn(line).value.val)
  {
    TokenSays(line, COLON, d, n, [c] + v);
    assert ([c] + v)[1..] == v;
    assert line[|d| + |n| + 1..] == v;
  }

  /** A line without a name, or with nothing behind it, is no header. */
  lemma NoHeader(d: text, n: text)
    requires All(d, {':', ' '}) && Without(n, {':', ' '})
    ensures HeaderIn(d + n) == None
  {
    if n == "" {
      assert d + n == d;
      NoToken(d, COLON);
    } else {
      assert d + n == d + n + "";
      TokenSays(d + n, COLON, d, n, "");
    }
  }

  lemma LineBreak(line: text, rest: text)
    requires Without(line, {'\r'})
    ensures SplitOff(line + "\r\n" + rest, NL) == Split(Some(line), rest) && Find(line + "\r\n" + rest, NL).Some?
  {
    var s := line + "\r\n" + rest;
    forall j: nat | j < |line|
      ensures !At(s, j, NL)
    {
      NotAt(s, j, NL);
    }
    assert s[|line|..|line| + 2] == NL && s[..|line|] == line && s[|line| + 2..] == rest;
    FindIs(s, NL, |line|);
  }

  /** Lines are read one by one up to the first that is no header; of twenty headers or more the first nineteen stay. */
  lemma NextLine(line: text, rest: text, got: seq<Header>)
    requires Without(line, {'\r'}) && |got| <= 19
    ensures var hs := ParseHeaders(line + "\r\n" + rest, got);
      match HeaderIn(line)
      case None => hs == got
      case Some(h) => hs == if |got| == 19 then got else ParseHeaders(rest, got + [h])
  {
    LineBreak(line, rest);
    assert |got| == 19 && HeaderIn(line).Some? ==> (got + [HeaderIn(line).value])[..19] == got;
  }

  lemma NoBreak(line: text)
    requires Without(line, {'\r'})
    ensures Find(line, NL) == None
  {
    forall j: nat | j < |line|
      ensures !At(line, j, NL)
    {
      NotAt(line, j, NL);
    }
    FindIs(line, NL, |line|);
  }

  /** The last line is read too, and only once although it is seen again. */
  lemma LastLine(line: text, got: seq<Header>)
    requires Without(line, {'\r'}) && |got| <= 19
    ensures var hs := ParseHeaders(line, got);
      if line == "" then hs == got
      else match HeaderIn(line)
           case None => hs == got
           case Some(h) => hs == if |got| == 19 then got else got + [h]
  {
    NoBreak(line);
    if line != "" && HeaderIn(line).Some? && |got| < 19 {
      SeenAgain(line, got + [HeaderIn(line).value]);
      ParseStep(line, line, HeaderIn(line).value, got);
    }
    assert |got| == 19 && HeaderIn(line).Some? ==> (got + [HeaderIn(line).value])[..19] == got;
  }

  /** A line cut behind its first token is no header. */
  lemma SeenAgain(line: text, got: seq<Header>)
    requires Without(line, {'\r'}) && HeaderIn(line).Some? && |got| <= 19
    ensures ParseHeaders(NextText(line, line, COLON), got) == got
  {
    NoBreak(line);
    CutIsNoHeader(line);
    var cut := line[..Token(line, COLON).1];
    assert forall k | 0 <= k < |cut| :: cut[k] == line[k];
    NoBreak(cut);
    assert NextText(line, line, COLON) == cut;
  }

  lemma CutIsNoHeader(line: text)
    ensures HeaderIn(line[..Token(line, COLON).1]) == None
  {
    var t := Token(line, COLON);
    TokenParts(line, COLON);
    assert line[..t.1] == line[..t.0] + line[t.0..t.1];
    NoHeader(line[..t.0], line[t.0..t.1]);
  }

  lemma TokenParts(s: text, cs: set<char>)
    ensures var t := Token(s, cs); All(s[..t.0], cs) && Without(s[t.0..t.1], cs)
  {
    var t := Token(s, cs);
    ScanStops(s, 0, cs, false);
    ScanStops(s, t.0, cs, true);
    var d, n := s[..t.0], s[t.0..t.1];
    assert forall k | 0 <= k < |d| :: d[k] == s[k];
    assert forall k | 0 <= k < |n| :: n[k] == s[t.0 + k];
  }

  // ---- The start line ----

  /** A start line of three parts: with `HTTP/` in its first part a response, else a request. Every part is cut to its
      width: 16 characters for method and version, 128 for the status message. */
  lemma StartSays(x: text, y: text, z: text)
    requires x != "" && y != "" && Without(x, {' '}) && Without(y, {' '}) && Without(z, {'\r', '\n'})
    ensures var r := StartIn(x + " " + y + " " + z);
      if Find(x, "HTTP/").Some? then
        && r.Yields? && r.value.Response? && AtMost(x, 16, r.value.version) && r.value.code == Atoi16(y)
        && AtMost(z, 128, r.value.msg)
      else
        && (r.Yields? <==> UrlIn(y).Yields?) && (r.Crashed? <==> !r.Yields?)
        && (r.Yields? ==>
              && r.value.Request? && AtMost(x, 16, r.value.verb) && AtMost(z, 16, r.value.version)
              && r.value.url == UrlIn(y).value.0 && r.value.params == UrlIn(y).value.1)
  {
    ThreeParts(x, y, z);
    StartFromParts(x + " " + y + " " + z, x, y, z);
  }

  /** A start line of one part. */
  lemma StartOfOne(x: text)
    requires x != "" && Without(x, {' '})
    ensures var r := StartIn(x);
      && r.Yields?
      && (Find(x, "HTTP/").Some? ==>
            r.value.Response? && AtMost(x, 16, r.value.version) && r.value.code == 0 && r.value.msg == "")
      && (Find(x, "HTTP/") == None ==>
            && r.value.Request? && AtMost(x, 16, r.value.verb) && r.value.url == "" && r.value.params == []
            && r.value.version == "")
  {
    assert x == "" + x + "";
    TokenSays(x, {' '}, "", x, "");
    NoToken("", {' '});
    NoToken("", LINE_ENDS);
  }

  /** Only a start line of blanks is refused. */
  lemma StartRefusedIff(line: text)
    ensures StartIn(line) == Refused <==> All(line, {' '})
  {
    var t := Token(line, {' '});
    ScanStops(line, 0, {' '}, false);
    ScanStops(line, t.0, {' '}, true);
  }

  /** Long paths, names and values of parameters are cut to 256, 64 and 256 characters. */
  lemma PathIsCut(path: text, query: text)
    requires path != "" && Without(path, {'?'})
    ensures UrlIn(path + "?" + query).Yields? ==> AtMost(path, 256, UrlIn(path + "?" + query).value.0)
    ensures UrlIn(path).Yields? && AtMost(path, 256, UrlIn(path).value.0) && UrlIn(path).value.1 == []
  {
    assert path + "?" + query == "" + path + ("?" + query) && path == "" + path + "";
    TokenSays(path + "?" + query, QUERY, "", path, "?" + query);
    TokenSays(path, QUERY, "", path, "");
    NoToken("", AND);
  }

  lemma ParamIsCut(name: text, val: text)
    requires name != "" && Without(name, {'='})
    ensures var p := ParamIn(name + "=" + val);
      p.Some? && AtMost(name, 64, p.value.name) && AtMost(val, 256, p.value.val)
  {
    assert name + "=" + val == "" + name + ("=" + val);
    TokenSays(name + "=" + val, EQUALS, "", name, "=" + val);
    assert ("=" + val)[1..] == val;
  }

  // ---- Numbers ----

  predicate IsSign(sign: text) {
    sign == "" || sign == "+" || sign == "-"
  }

  predicate IsSpace(c: char) {
    c == ' ' || '\t' <= c <= '\r'
  }

  predicate IsDigit(c: char) {
    '0' <= c <= '9'
  }

  lemma KindOf(c: char)
    ensures IsSpace(c) <==> c in SPACES
    ensures IsDigit(c) <==> c in DIGITS
    ensures IsDigit(c) || IsSpace(c) ==> c != '+' && c != '-'
    ensures IsDigit(c) ==> !IsSpace(c)
  {
  }

  lemma NumberPlaces(w: text, sign: text, ds: text, rest: text, s: text)
    requires s == w + sign + ds + rest && ds != "" && |sign| <= 1
    ensures var a := |w|; var b := a + |sign|;
      && (forall k | 0 <= k < a :: s[k] == w[k]) && (sign != "" ==> s[a] == sign[0]) && s[b] == ds[0]
      && (forall k | b <= k < b + |ds| :: s[k] == ds[k - b]) && (rest != "" ==> s[b + |ds|] == rest[0])
      && s[b..b + |ds|] == ds && |s| == b + |ds| + |rest|
  {
  }

  lemma SpacesEnd(s: text, a: nat)
    requires a < |s| && (forall k | 0 <= k < a :: IsSpace(s[k])) && !IsSpace(s[a])
    ensures Scan(s, 0, SPACES, false) == a
  {
    forall k | 0 <= k <= a
      ensures s[k] in SPACES <==> k < a
    {
      KindOf(s[k]);
    }
    ScanIs(s, 0, a, SPACES, false);
  }

  lemma DigitsEnd(s: text, b: nat, e: nat)
    requires b <= e <= |s| && (forall k | b <= k < e :: IsDigit(s[k])) && (e < |s| ==> !IsDigit(s[e]))
    ensures Scan(s, b, DIGITS, false) == e
  {
    forall k | b <= k <= e && k < |s|
      ensures s[k] in DIGITS <==> k < e
    {
      KindOf(s[k]);
    }
    ScanIs(s, b, e, DIGITS, false);
  }

  /** A number is read behind white space and a sign, as far as there are digits. */
  lemma NumberSays(w: text, sign: text, ds: text, rest: text)
    requires IsSign(sign) && ds != "" && (rest == "" || !IsDigit(rest[0]))
    requires (forall k | 0 <= k < |w| :: IsSpace(w[k])) && forall k | 0 <= k < |ds| :: IsDigit(ds[k])
    ensures Number(w + sign + ds + rest) == (sign == "-", Value(ds))
  {
    SignIs(sign);
    NumberIn(w, sign, ds, rest, w + sign + ds + rest);
  }

  lemma SignIs(sign: text)
    requires IsSign(sign)
    ensures |sign| <= 1 && (sign != "" ==> sign[0] == '+' || sign[0] == '-')
    ensures sign == "-" <==> sign != "" && sign[0] == '-'
  {
  }

  lemma NumberIn(w: text, sign: text, ds: text, rest: text, s: text)
    requires |sign| <= 1 && (sign != "" ==> sign[0] == '+' || sign[0] == '-')
    requires s == w + sign + ds + rest && ds != "" && (rest == "" || !IsDigit(rest[0]))
    requires (forall k | 0 <= k < |w| :: IsSpace(w[k])) && forall k | 0 <= k < |ds| :: IsDigit(ds[k])
    ensures Number(s) == (sign != "" && sign[0] == '-', Value(ds))
  {
    NumberPlaces(w, sign, ds, rest, s);
    KindOf(ds[0]);
    SpacesEnd(s, |w|);
    DigitsEnd(s, |w| + |sign|, |w| + |sign| + |ds|);
    NumberFrom(s, |w|, |w| + |sign|, |w| + |sign| + |ds|);
  }

  lemma NumberFrom(s: text, a: nat, b: nat, e: nat)
    requires a < |s| && b <= e <= |s| && b == (if s[a] == '+' || s[a] == '-' then a + 1 else a)
    requires Scan(s, 0, SPACES, false) == a && Scan(s, b, DIGITS, false) == e
    ensures Number(s) == (s[a] == '-', Value(s[b..e]))
  {
  }

  lemma LengthIs(negative: bool, v: nat)
    ensures InU64(negative, v) ==
      if v > 18446744073709551615 then 18446744073709551615
      else if negative && v > 0 then 18446744073709551616 - v else v
  {
  }

  lemma CodeIs(negative: bool, v: nat)
    ensures InU16(negative, v) ==
      if negative then (if v > 9223372036854775808 then 0 else (0 - v) % 65536)
      else if v > 9223372036854775807 then 65535 else v % 65536
  {
    assert 9223372036854775807 % 65536 == 65535;
  }

  lemma StoredIs(s: text, negative: bool, v: nat)
    requires Number(s) == (negative, v)
    ensures Strtoull(s) == InU64(negative, v) && Atoi16(s) == InU16(negative, v)
  {
  }

  /** What becomes of a number in a length: 64 bits, at most the largest, and a minus sign counts down from 2^64. What
      becomes of it in a status code: the low 16 bits of a 64-bit integer. */
  lemma NumbersAreStored(w: text, sign: text, ds: text, rest: text, s: text, v: nat)
    requires IsSign(sign) && ds != "" && (rest == "" || !IsDigit(rest[0]))
    requires (forall k | 0 <= k < |w| :: IsSpace(w[k])) && forall k | 0 <= k < |ds| :: IsDigit(ds[k])
    requires s == w + sign + ds + rest && v == Value(ds)
    ensures Strtoull(s) ==
      if v > 18446744073709551615 then 18446744073709551615
      else if sign == "-" && v > 0 then 18446744073709551616 - v else v
    ensures Atoi16(s) ==
      if sign == "-" then (if v > 9223372036854775808 then 0 else (0 - v) % 65536)
      else if v > 9223372036854775807 then 65535 else v % 65536
  {
    NumberSays(w, sign, ds, rest);
    StoredIs(s, sign == "-", v);
    LengthIs(sign == "-", v);
    CodeIs(sign == "-", v);
  }

  /** The value of digits in the decimal system. */
  lemma ValueSays(ds: text, c: char)
    requires '0' <= c <= '9'
    ensures Value("") == 0 && Value(ds + [c]) == 10 * Value(ds) + (c as int - '0' as int)
  {
    assert (ds + [c])[..|ds|] == ds;
  }

  // ---- What the headers say ----

  /** The last `Content-Length` counts, and the last key of a handshake. */
  lemma {:induction false} LastCounts(hs: seq<Header>, i: nat, name: text)
    requires i < |hs| && hs[i].name == name && forall j | i < j < |hs| :: hs[j].name != name
    ensures name == "Content-Length" ==> Declared(hs) == Strtoull(hs[i].val)
    ensures name == "Sec-WebSocket-Key" ==> KeyIn(hs) == Some(hs[i].val)
  {
    if i < |hs| - 1 {
      LastCounts(hs[..|hs| - 1], i, name);
    }
  }

  lemma {:induction false} NoneCounts(hs: seq<Header>, name: text)
    requires forall j | 0 <= j < |hs| :: hs[j].name != name
    ensures name == "Content-Length" ==> Declared(hs) == 0
    ensures name == "Sec-WebSocket-Key" ==> KeyIn(hs) == None
  {
    if hs != [] {
      NoneCounts(hs[..|hs| - 1], name);
    }
  }

  /** Of a list of connection options only the first is left in its header; no other header is changed. */
  lemma OptionsAreCut(hs: seq<Header>, i: nat, d: text, n: text, rest: text)
    requires i < |hs|
    ensures hs[i].name != "Connection" ==> Cuts(hs)[i] == hs[i]
    ensures hs[i].name == "Connection" && hs[i].val == d + n + rest && All(d, {',', ' '}) && n != ""
            && Without(n, {',', ' '}) && (rest != "" ==> rest[0] in {',', ' '}) ==>
      Cuts(hs)[i] == Header("Connection", d + n)
  {
    if hs[i].name == "Connection" && hs[i].val == d + n + rest && All(d, {',', ' '}) && n != ""
       && Without(n, {',', ' '}) && (rest != "" ==> rest[0] in {',', ' '}) {
      TokenSays(hs[i].val, COMMA, d, n, rest);
    }
  }

  // ---- Bodies ----

  /** A body byte by byte: as it is received, but for four NULs where an empty line first stands in front of any NUL. Of
      a body that announces more than is there all is kept that is, of another one as much as it announces. */
  lemma BodySays(mem: text, avail: nat, need: nat, s: text, end: Option<nat>)
    requires avail <= |mem| && s == CString(mem) && s != "" && end == Find(s, "\r\n\r\n")
    ensures var b := BodyIn(mem, avail, need); var have := if need > avail then avail else need;
      && (b.Waiting? <==> need > avail) && (b.Whole? <==> need <= avail)
      && (b.Waiting? ==> b.need == need)
      && var t := if b.Waiting? then b.have else b.text;
         && |t| == have
         && forall i | 0 <= i < have :: t[i] == if end.Some? && end.value <= i < end.value + 4 then '\0' else mem[i]
  {
    CStringEnds(mem);
  }

  /** Without a byte of it there is no body, unless one is announced. */
  lemma NoBodySays(mem: text, avail: nat, need: nat)
    requires avail <= |mem| && CString(mem) == ""
    ensures BodyIn(mem, avail, need) == if need > 0 then Waiting("", need) else NoBody
  {
  }

  // ---- Responses ----

  /** A number is printed without leading zeros. */
  lemma {:induction false} NoLeadingZero(n: nat)
    ensures Decimal(n) != [] && (n > 0 ==> Decimal(n)[0] != '0') && (n == 0 ==> Decimal(n) == "0")
  {
    if n >= 10 {
      NoLeadingZero(n / 10);
    } else {
      DigitOf(n);
    }
  }

  lemma DigitOf(n: nat)
    requires n < 10
    ensures n > 0 ==> Digit(n) != '0'
  {
  }

  /** What is printed of a message with two headers, to the byte. Behind a last header that is empty there is one line
      end more. */
  lemma PrintedMessage(start: Start, a: Header, b: Header, body: text)
    requires a.name != "" && a.val != ""
    ensures var last := if b.name == "" || b.val == "" then "" else b.name + ": " + b.val;
      Print(Http(start, [a, b], body))
        == StartLine(start) + "\r\n" + (a.name + ": " + a.val + "\r\n" + last) + "\r\n\r\n" + body
  {
    var last := if b.name == "" || b.val == "" then "" else b.name + ": " + b.val;
    assert HeaderLines([a, b], 2) == "";
    assert HeaderLines([a, b], 1) == last;
    assert HeaderLines([a, b], 0) == a.name + ": " + a.val + "\r\n" + last;
  }

  /** And of start lines. */
  lemma PrintedStart(verb: text, url: text, params: seq<Header>, version: text, msg: text)
    ensures StartLine(Request(verb, url, params, version)) == verb + [' '] + url + [' '] + version
    ensures StartLine(Response(version, 404, msg)) == version + [' ', '4', '0', '4', ' '] + msg
  {
    assert Decimal(4) == ['4'] && Decimal(40) == ['4', '0'] && Decimal(404) == ['4', '0', '4'];
  }

  /** A header is set in the first place that has its name or is empty; else it is put behind the others, unless there
      are twenty. */
  lemma HeaderIsSet(hs: seq<Header>, name: text, val: text, i: nat)
    requires |name| <= 64 && |val| <= 256 && i <= |hs|
    requires forall j | 0 <= j < i :: hs[j].name != name && hs[j].name != "" && hs[j].val != ""
    requires i < |hs| ==> hs[i].name == name || hs[i].name == "" || hs[i].val == ""
    ensures AddHeader(hs, name, val) ==
      if i < |hs| then hs[i := Header(name, val)] else if |hs| >= 20 then hs else hs + [Header(name, val)]
  {
    SlotIs(hs, name, 0, i);
  }

  lemma {:induction false} SlotIs(hs: seq<Header>, name: text, from: nat, i: nat)
    requires from <= i <= |hs| && |name| <= 64
    requires forall j | from <= j < i :: hs[j].name != name && hs[j].name != "" && hs[j].val != ""
    requires i < |hs| ==> hs[i].name == name || hs[i].name == "" || hs[i].val == ""
    ensures Slot(hs, name, from) == i
    decreases i - from
  {
    if from < i {
      SlotIs(hs, name, from + 1, i);
    }
  }

  /** Headers are added to a response one after the other. */
  lemma {:induction false} HeadersInTurn(h: Http, added: seq<(text, text)>, name: text, val: text)
    ensures WithHeaders(h, []) == h
    ensures var before := WithHeaders(h, added);
      WithHeaders(h, added + [(name, val)]) == before.(headers := AddHeader(before.headers, name, val))
    decreases |added|
  {
    if added == [] {
      assert [] + [(name, val)] == [(name, val)] && [(name, val)][1..] == [];
    } else {
      assert (added + [(name, val)])[0] == added[0] && (added + [(name, val)])[1..] == added[1..] + [(name, val)];
      HeadersInTurn(h.(headers := AddHeader(h.headers, added[0].0, added[0].1)), added[1..], name, val);
    }
  }

  /** A new response names the server and, if it has a body, the length of that. */
  lemma NewResponseSays(code: nat, msg: text, body: Option<text>)
    requires body.Some? ==> |body.value| < 18446744073709551616
    ensures var h := NewResponse(code, msg, body);
      && h.start.Response? && h.start.version == "HTTP/1.1" && h.start.code == code && AtMost(msg, 128, h.start.msg)
      && h.body == (match body case None => "" case Some(b) => b)
      && h.headers[..1] == [Header("Server", "ChityChat")]
      && |h.headers| == (if body.Some? then 2 else 1)
      && (body.Some? ==>
            && h.headers[1].name == "Content-Length"
            && h.headers[1].val == Decimal(|body.value|) && Strtoull(h.headers[1].val) == |body.value|)
  {
    if body.Some? {
      LengthHeader(|body.value|);
      FirstHeaders(Decimal(|body.value|));
    } else {
      FirstHeaders("");
    }
  }
}
