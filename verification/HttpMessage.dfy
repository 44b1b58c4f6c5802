/** HTTP messages as the server prints and parses them. */
module HttpMessage {
  import opened Sequences
  import opened CStrings

  const NL := "\r\n"
  const END := "\r\n\r\n"
  const COLON := {':', ' '}
  const COMMA := {',', ' '}
  const LINE_ENDS := {'\r', '\n'}
  const QUERY := {'?'}
  const AND := {'&'}
  const EQUALS := {'='}

  const VERSION_LEN: nat := 16
  const METHOD_LEN: nat := 16
  const URL_LEN: nat := 256
  const NAME_LEN: nat := 64
  const VAL_LEN: nat := 256
  const STATUS_MSG_LEN: nat := 128
  const MAX_HEADERS: nat := 20
  const MAX_PARAMS: nat := 10

  const CONTENT_LEN := "Content-Length"
  const CONNECTION := "Connection"
  const UPGRADE := "Upgrade"
  const WEBSOCKET_KEY := "Sec-WebSocket-Key"

  datatype Header = Header(name: text, val: text)

  /** The parameters behind the path of a URL have the form of headers. */
  datatype Start =
    | Request(verb: text, url: text, params: seq<Header>, version: text)
    | Response(version: text, code: nat, msg: text)

  /** What a connection has been asked for: an upgrade that is still to be answered, a WebSocket, to be kept. */
  datatype Flags = Flags(upgrade: bool, websocket: bool, keepAlive: bool)

  /** A message to be sent. */
  datatype Http = Http(start: Start, headers: seq<Header>, body: text)

  /** What parsing makes of the bytes behind the header block: nothing, the whole body, a body of which more has
      to be read, or, without an end of the header block, a body that starts where the message starts. */
  datatype Body = NoBody | Whole(text: text) | Waiting(have: text, need: nat) | Overlapping

  /** What stands in front of a body: start line, headers, the key of a WebSocket handshake, and the flags that
      the connection has after these headers. */
  datatype Top = Top(start: Start, headers: seq<Header>, key: Option<text>, flags: Flags)

  datatype Parsed = Parsed(top: Top, body: Body)

  /** What comes of parsing: a value, a message that is refused, or a null pointer that is followed. */
  datatype Outcome<+T> = Yields(value: T) | Refused | Crashed

  // ---- Numbers ----

  const DIGITS := {'0', '1', '2', '3', '4', '5', '6', '7', '8', '9'}
  const SPACES := {' ', '\t', '\n', '\r', '\U{0B}', '\U{0C}'}
  const U64: nat := 0x1_0000_0000_0000_0000
  const I64_MAX: int := 0x7FFF_FFFF_FFFF_FFFF
  const U16: nat := 0x1_0000

  function Digit(n: nat): char
    requires n < 10
  {
    '0' + n as char
  }

  /** A number as `%u` and `%zu` print it. */
  function Decimal(n: nat): text {
    if n < 10 then [Digit(n)] else Decimal(n / 10) + [Digit(n % 10)]
  }

  function DigitValue(c: char): nat {
    if c < '0' then 0 else (c as int - '0' as int) as nat
  }

  function Value(s: text): nat {
    if s == [] then 0 else 10 * Value(s[..|s| - 1]) + DigitValue(s[|s| - 1])
  }

  /** The number at the front of a string: white space, a sign, digits. */
  function Number(s: text): (bool, nat) {
    var a := Scan(s, 0, SPACES, false);
    var b := if a < |s| && s[a] in {'+', '-'} then a + 1 else a;
    (a < |s| && s[a] == '-', Value(s[b..Scan(s, b, DIGITS, false)]))
  }

  /** A number in 64 bits, as `strtoull` returns it. */
  function InU64(negative: bool, v: nat): (n: nat)
    ensures n < U64
  {
    if v >= U64 then U64 - 1 else if negative then (U64 - v) % U64 else v
  }

  /** A number in a long and then in sixteen bits, as the result of `atoi` is stored. */
  function InU16(negative: bool, v: nat): (n: nat)
    ensures n < U16
  {
    if negative then (if v > I64_MAX + 1 then 0 else (0 - v) % U16)
    else (if v > I64_MAX then I64_MAX else v) % U16
  }

  function Strtoull(s: text): nat {
    InU64(Number(s).0, Number(s).1)
  }

  function Atoi16(s: text): nat {
    InU16(Number(s).0, Number(s).1)
  }

  lemma {:induction false} DecimalReads(n: nat)
    ensures Decimal(n) != [] && Value(Decimal(n)) == n && forall i | 0 <= i < |Decimal(n)| :: Decimal(n)[i] in DIGITS
  {
    if n >= 10 {
      DecimalReads(n / 10);
    }
    assert Decimal(n)[..|Decimal(n)| - 1] == if n < 10 then [] else Decimal(n / 10);
  }

  lemma DigitIsNoSpace(c: char)
    requires c in DIGITS
    ensures c !in SPACES && c !in {'+', '-'}
  {
  }

  lemma AllDigits(s: text)
    requires s != [] && forall i | 0 <= i < |s| :: s[i] in DIGITS
    ensures Scan(s, 0, SPACES, false) == 0 && Scan(s, 0, DIGITS, false) == |s|
  {
    DigitIsNoSpace(s[0]);
    ScanIs(s, 0, 0, SPACES, false);
    ScanIs(s, 0, |s|, DIGITS, false);
  }

  lemma NumberIs(s: text)
    requires s != [] && forall i | 0 <= i < |s| :: s[i] in DIGITS
    ensures Number(s) == (false, Value(s))
  {
    AllDigits(s);
    DigitIsNoSpace(s[0]);
    assert s[0..|s|] == s;
  }

  lemma StoredAs(s: text, n: nat)
    requires Number(s) == (false, n)
    ensures n < U64 ==> Strtoull(s) == n
    ensures n < U16 ==> Atoi16(s) == n
  {
  }

  /** A printed number reads back, if it fits. */
  lemma NumbersReadBack(n: nat)
    ensures n < U64 ==> Strtoull(Decimal(n)) == n
    ensures n < U16 ==> Atoi16(Decimal(n)) == n
  {
    DecimalReads(n);
    NumberIs(Decimal(n));
    StoredAs(Decimal(n), n);
  }

  // ---- Printing ----

  function StartLine(start: Start): text {
    match start
    case Request(verb, url, _, version) => verb + " " + url + " " + version
    case Response(version, code, msg) => version + " " + Decimal(code) + " " + msg
  }

  function HeaderLine(h: Header): text {
    h.name + ": " + h.val
  }

  predicate Skipped(h: Header) {
    h.name == "" || h.val == ""
  }

  /** The header lines from the `i`-th on; the last header of all gets no line end, even if it is skipped. */
  function HeaderLines(headers: seq<Header>, i: nat): text
    requires i <= |headers|
    decreases |headers| - i
  {
    if i == |headers| then ""
    else
      (if Skipped(headers[i]) then "" else HeaderLine(headers[i]) + if i + 1 >= |headers| then "" else NL)
      + HeaderLines(headers, i + 1)
  }

  function Print(h: Http): text {
    StartLine(h.start) + NL + HeaderLines(h.headers, 0) + END + h.body
  }

  // ---- Parsing ----

  function Truncated(s: text, width: nat): text {
    if |s| <= width then s else s[..width]
  }

  /** A parameter, if it has a name. */
  function ParamIn(param: text): Option<Header> {
    var k := Token(param, EQUALS);
    if k.0 == k.1 then None
    else Some(Header(Truncated(param[k.0..k.1], NAME_LEN), Truncated(Behind(param, k), VAL_LEN)))
  }

  /** The parameters in what follows the path, ten at most; one without a name leaves a null pointer. */
  function Params(s: text, got: seq<Header>): Outcome<seq<Header>>
    decreases |s|
  {
    var t := Token(s, AND);
    if t.0 == t.1 || |got| >= MAX_PARAMS then Yields(got)
    else
      match ParamIn(s[t.0..t.1])
      case None => Crashed
      case Some(param) => Params(Behind(s, t), got + [param])
  }

  /** The path and the parameters of a URL; without a path there is a null pointer. */
  function UrlIn(url: text): Outcome<(text, seq<Header>)> {
    var t := Token(url, QUERY);
    if t.0 == t.1 then Crashed
    else
      match Params(Behind(url, t), [])
      case Yields(params) => Yields((Truncated(url[t.0..t.1], URL_LEN), params))
      case _ => Crashed
  }

  function RequestOf(verb: text, url: text, version: text): Outcome<Start> {
    if url == "" then Yields(Request(Truncated(verb, METHOD_LEN), "", [], Truncated(version, METHOD_LEN)))
    else
      match UrlIn(url)
      case Yields((path, params)) =>
        Yields(Request(Truncated(verb, METHOD_LEN), path, params, Truncated(version, METHOD_LEN)))
      case _ => Crashed
  }

  function ResponseOf(version: text, code: text, msg: text): Start {
    Response(Truncated(version, VERSION_LEN), if code == "" then 0 else Atoi16(code), Truncated(msg, STATUS_MSG_LEN))
  }

  /** The start line's three parts; the second and the third may be missing. */
  function StartIn(line: text): Outcome<Start> {
    var a := Token(line, {' '});
    var first, behind := line[a.0..a.1], Behind(line, a);
    var b := Token(behind, {' '});
    var second, last := behind[b.0..b.1], Behind(behind, b);
    var c := Token(last, LINE_ENDS);
    var third := last[c.0..c.1];
    if first == "" then Refused
    else if Find(first, "HTTP/").Some? then Yields(ResponseOf(first, second, third))
    else RequestOf(first, second, third)
  }

  /** The header in a line, if the line has a name and something behind it. */
  function HeaderIn(line: text): Option<Header> {
    var t := Token(line, COLON);
    if t.0 == t.1 || t.1 + 1 >= |line| then None
    else
      var val := line[t.1 + 1..];
      Some(Header(Truncated(line[t.0..t.1], NAME_LEN), Truncated(if val[0] == ' ' then val[1..] else val, VAL_LEN)))
  }

  /** What is seen after a line of `s` has been split off and its first token taken: the rest, or, as the last
      line has no line end, that line again, cut behind its first token. */
  function NextText(s: text, line: text, delims: set<char>): (r: text)
    ensures |r| <= |line| || Find(s, NL).Some?
  {
    if Find(s, NL).Some? then SplitOff(s, NL).rest else line[..Token(line, delims).1]
  }

  lemma NextTextIsShorter(s: text, line: text)
    requires SplitOff(s, NL).token == Some(line) && HeaderIn(line).Some?
    ensures |NextText(s, line, COLON)| < |s|
  {
  }

  /** The headers in a block of lines. The last line is seen again, and the twentieth header is dropped. */
  function ParseHeaders(s: text, got: seq<Header>): (hs: seq<Header>)
    requires |got| < MAX_HEADERS
    ensures |hs| < MAX_HEADERS
    decreases |s|
  {
    match SplitOff(s, NL).token
    case None => got
    case Some(line) =>
      match HeaderIn(line)
      case None => got
      case Some(h) =>
        NextTextIsShorter(s, line);
        if |got| + 1 >= MAX_HEADERS then (got + [h])[..MAX_HEADERS - 1]
        else ParseHeaders(NextText(s, line, COLON), got + [h])
  }

  /** What reading the options of a connection leaves of a header: its first option. */
  function Cut(h: Header): Header {
    if h.name == CONNECTION then h.(val := h.val[..Token(h.val, COMMA).1]) else h
  }

  function Cuts(hs: seq<Header>): (cs: seq<Header>)
    ensures |cs| == |hs|
  {
    seq(|hs|, i requires 0 <= i < |hs| => Cut(hs[i]))
  }

  /** The body length that the headers announce; the last one counts. */
  function Declared(hs: seq<Header>): nat {
    if hs == [] then 0
    else if hs[|hs| - 1].name == CONTENT_LEN then Strtoull(hs[|hs| - 1].val)
    else Declared(hs[..|hs| - 1])
  }

  /** The key of a WebSocket handshake; the last one counts. */
  function KeyIn(hs: seq<Header>): Option<text> {
    if hs == [] then None
    else if hs[|hs| - 1].name == WEBSOCKET_KEY then Some(hs[|hs| - 1].val)
    else KeyIn(hs[..|hs| - 1])
  }

  function WithOption(f: Flags, option: text): Flags {
    if option == "keep-alive" then f.(keepAlive := true)
    else if option == "close" then Flags(false, false, false)
    else if option == "Upgrade" then f.(upgrade := true)
    else f
  }

  function WithOptions(f: Flags, options: seq<text>): Flags
    decreases |options|
  {
    if options == [] then f else WithOptions(WithOption(f, options[0]), options[1..])
  }

  /** The flags of a connection after the options in some headers. */
  function FlagsAfter(f: Flags, hs: seq<Header>): Flags {
    if hs == [] then f
    else
      var g, last := FlagsAfter(f, hs[..|hs| - 1]), hs[|hs| - 1];
      if last.name == CONNECTION then WithOptions(g, Tokens(last.val, COMMA)) else g
  }

  /** The first header of a name. */
  function HeaderNamed(hs: seq<Header>, name: text): (h: Option<Header>)
    ensures h.Some? ==> h.value in hs && h.value.name == name
  {
    if hs == [] then None else if hs[0].name == name then Some(hs[0]) else HeaderNamed(hs[1..], name)
  }

  /** If an upgrade is asked for, it is named. */
  predicate UpgradeNamed(f: Flags, hs: seq<Header>) {
    FlagsAfter(f, hs).upgrade ==> HeaderNamed(hs, UPGRADE).Some?
  }

  /** The flags after some headers and the upgrade that they name. */
  function FlagsOf(f: Flags, hs: seq<Header>): Flags {
    var g := FlagsAfter(f, hs);
    match HeaderNamed(hs, UPGRADE)
    case None => g
    case Some(h) => if g.upgrade && h.val == "websocket" then g.(websocket := true) else g
  }

  /** The body in `avail` bytes of memory, of a message that announces `need` bytes. The body is split at an
      empty line like the header block was. */
  function BodyIn(mem: text, avail: nat, need: nat): (b: Body)
    requires avail <= |mem|
    ensures b.Waiting? ==> |b.have| < b.need == need
  {
    var s := CString(mem);
    if s == "" then (if need > 0 then Waiting("", need) else NoBody)
    else
      var i := Find(s, END);
      var b := if i.Some? && i.value + |END| <= |mem| then Zeroed(mem, i.value, |END|) else mem;
      if need > avail then Waiting(b[..avail], need) else Whole(b[..need])
  }

  /** The start line and the headers of a header block. */
  function ParseBlock(block: text): Outcome<(Start, seq<Header>)> {
    match SplitOff(block, NL).token
    case None => Refused
    case Some(line) =>
      match StartIn(line)
      case Refused => Refused
      case Crashed => Crashed
      case Yields(start) => Yields((start, ParseHeaders(NextText(block, line, {' '}), [])))
  }

  /** The body behind a header block, or what stands for it if the block has no end. */
  function BodyBehind(mem: text, n: nat, from: nat, ends: bool, need: nat): (b: Body)
    requires n <= |mem|
    ensures b.Waiting? ==> |b.have| < b.need
  {
    if ends && from <= n then BodyIn(mem[from..], n - from, need) else Overlapping
  }

  function TopOf(start: Start, hs: seq<Header>, f: Flags): Top {
    Top(start, Cuts(hs), KeyIn(hs), FlagsOf(f, hs))
  }

  /** The message of these parts; an upgrade that is not named is a null pointer. */
  function MessageOf(start: Start, hs: seq<Header>, f: Flags, body: Body): Outcome<Parsed> {
    if UpgradeNamed(f, hs) then Yields(Parsed(TopOf(start, hs, f), body)) else Crashed
  }

  /** A message in the first `n` bytes of a buffer that ends in NULs, on a connection with these flags. */
  function Parse(mem: text, n: nat, f: Flags): (p: Outcome<Parsed>)
    requires n <= |mem|
    ensures p.Yields? && p.value.body.Waiting? ==> |p.value.body.have| < p.value.body.need
  {
    var s := CString(mem);
    match SplitOff(s, END).token
    case None => Refused
    case Some(block) =>
      match ParseBlock(block)
      case Refused => Refused
      case Crashed => Crashed
      case Yields((start, hs)) =>
        MessageOf(start, hs, f, BodyBehind(mem, n, |block| + |END|, Find(s, END).Some?, Declared(hs)))
  }
}
