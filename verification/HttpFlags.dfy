/** What the options of its connection do to a client: what is asked for last, or since it was to be closed, counts. */
module HttpFlags {
  import opened Sequences
  import opened CStrings
  import opened HttpMessage
  import opened HttpRoundTrip

  // ---- Lists of options ----

  /** An option that comes with no `close` behind it. */
  ghost predicate Stays(os: seq<text>, option: text) {
    exists i :: 0 <= i < |os| && os[i] == option && forall j | i < j < |os| :: os[j] != "close"
  }

  lemma StaysNext(os: seq<text>, option: text)
    requires os != []
    ensures Stays(os, option) <==> Stays(os[1..], option) || (os[0] == option && "close" !in os[1..])
  {
    var rest := os[1..];
    if Stays(os, option) {
      var i :| 0 <= i < |os| && os[i] == option && forall j | i < j < |os| :: os[j] != "close";
      if i > 0 {
        assert rest[i - 1] == option && forall j | i - 1 < j < |rest| :: rest[j] == os[j + 1] != "close";
      } else {
        assert forall j | 0 <= j < |rest| :: rest[j] == os[j + 1] != "close";
      }
    }
    if Stays(rest, option) {
      var i :| 0 <= i < |rest| && rest[i] == option && forall j | i < j < |rest| :: rest[j] != "close";
      assert os[i + 1] == option && forall j | i + 1 < j < |os| :: os[j] == rest[j - 1] != "close";
    }
    if os[0] == option && "close" !in rest {
      assert forall j | 0 < j < |os| :: os[j] == rest[j - 1] != "close";
    }
  }

  /** After some options a connection is kept exactly if `keep-alive` has come with no `close` behind it, or if it was
      kept before and no `close` has come; an upgrade is asked for in the same way; and only a WebSocket for which no
      `close` has come still is one. */
  lemma {:induction false} OptionsSay(f: Flags, os: seq<text>)
    ensures var g := WithOptions(f, os);
      && (g.keepAlive <==> Stays(os, "keep-alive") || (f.keepAlive && "close" !in os))
      && (g.upgrade <==> Stays(os, "Upgrade") || (f.upgrade && "close" !in os))
      && (g.websocket <==> f.websocket && "close" !in os)
    decreases |os|
  {
    if os != [] {
      OptionsSay(WithOption(f, os[0]), os[1..]);
      StaysNext(os, "keep-alive");
      StaysNext(os, "Upgrade");
      assert "close" in os <==> os[0] == "close" || "close" in os[1..];
    }
  }

  lemma {:induction false} OptionsAppend(f: Flags, a: seq<text>, b: seq<text>)
    ensures WithOptions(f, a + b) == WithOptions(WithOptions(f, a), b)
    decreases |a|
  {
    if a == [] {
      assert a + b == b;
    } else {
      assert (a + b)[1..] == a[1..] + b;
      OptionsAppend(WithOption(f, a[0]), a[1..], b);
    }
  }

  // ---- Options in a header ----

  /** Options as a client lists them. */
  function Listed(os: seq<text>): text {
    if os == [] then "" else if |os| == 1 then os[0] else os[0] + ", " + Listed(os[1..])
  }

  predicate IsOption(o: text) {
    o != "" && ',' !in o && ' ' !in o
  }

  lemma {:induction false} ScanBehind(c: char, s: text, i: nat, cs: set<char>, in_: bool)
    requires i <= |s|
    ensures Scan([c] + s, i + 1, cs, in_) == Scan(s, i, cs, in_) + 1
    decreases |s| - i
  {
    if i < |s| {
      assert ([c] + s)[i + 1] == s[i];
      ScanBehind(c, s, i + 1, cs, in_);
    }
  }

  /** A delimiter in front changes no token. */
  lemma DelimiterInFront(c: char, s: text, cs: set<char>)
    requires c in cs
    ensures Tokens([c] + s, cs) == Tokens(s, cs)
  {
    ScanBehind(c, s, 0, cs, false);
    var t, u := Token(s, cs), Token([c] + s, cs);
    ScanBehind(c, s, t.0, cs, true);
    assert u == (t.0 + 1, t.1 + 1);
    assert ([c] + s)[u.0..u.1] == s[t.0..t.1];
    assert Behind([c] + s, u) == Behind(s, t);
  }

  lemma NextToken(o: text, more: text, s: text)
    requires IsOption(o) && (s == o + more) && (more != "" ==> more[0] == ',')
    ensures Tokens(s, COMMA) == [o] + Tokens(if more == "" then "" else more[1..], COMMA)
  {
    assert s[..|o|] == o;
    TokenIs(s, COMMA, |o|);
    assert Behind(s, (0, |o|)) == if more == "" then "" else more[1..];
  }

  lemma ListStep(o: text, rest: text, s: text)
    requires IsOption(o) && s == o + ", " + rest
    ensures Tokens(s, COMMA) == [o] + Tokens(rest, COMMA)
  {
    assert s == o + (", " + rest) && (", " + rest)[1..] == [' '] + rest;
    NextToken(o, ", " + rest, s);
    DelimiterInFront(' ', rest, COMMA);
  }

  /** A list of options is taken apart into these options. */
  lemma {:induction false} ListReads(os: seq<text>)
    requires forall o | o in os :: IsOption(o)
    ensures Tokens(Listed(os), {',', ' '}) == os
    decreases |os|
  {
    if |os| == 1 {
      NextToken(os[0], "", Listed(os));
    } else if os != [] {
      ListReads(os[1..]);
      ListStep(os[0], Listed(os[1..]), Listed(os));
    }
  }

  // ---- Headers ----

  /** The options of all headers named `Connection`, in order. */
  function OptionsOf(hs: seq<Header>): seq<text> {
    if hs == [] then []
    else OptionsOf(hs[..|hs| - 1])
         + (if hs[|hs| - 1].name == "Connection" then Tokens(hs[|hs| - 1].val, {',', ' '}) else [])
  }

  /** Several headers with options are as one with all of them. */
  lemma {:induction false} HeadersOptions(f: Flags, hs: seq<Header>)
    ensures FlagsAfter(f, hs) == WithOptions(f, OptionsOf(hs))
  {
    if hs != [] {
      var init, last := hs[..|hs| - 1], hs[|hs| - 1];
      HeadersOptions(f, init);
      if last.name == "Connection" {
        OptionsAppend(f, OptionsOf(init), Tokens(last.val, {',', ' '}));
      } else {
        assert OptionsOf(init) + [] == OptionsOf(init);
      }
    }
  }

  lemma {:induction false} OneOfThem(hs: seq<Header>, c: nat)
    requires c < |hs| && hs[c].name == "Connection"
    requires forall i | 0 <= i < |hs| && i != c :: hs[i].name != "Connection"
    ensures OptionsOf(hs) == Tokens(hs[c].val, {',', ' '})
  {
    var init := hs[..|hs| - 1];
    if c == |hs| - 1 {
      NoneOfThem(init);
    } else {
      OneOfThem(init, c);
    }
  }

  lemma {:induction false} NoneOfThem(hs: seq<Header>)
    requires forall i | 0 <= i < |hs| :: hs[i].name != "Connection"
    ensures OptionsOf(hs) == []
  {
    if hs != [] {
      NoneOfThem(hs[..|hs| - 1]);
    }
  }

  /** The header found is the first one of its name, and none is found only if there is none. */
  lemma {:induction false} FirstNamed(hs: seq<Header>, name: text)
    ensures var h := HeaderNamed(hs, name);
      && (h == None <==> forall i | 0 <= i < |hs| :: hs[i].name != name)
      && forall i | 0 <= i < |hs| && hs[i].name == name && (forall j | 0 <= j < i :: hs[j].name != name) ::
           h == Some(hs[i])
  {
    if hs != [] {
      FirstNamed(hs[1..], name);
      if hs[0].name != name {
        assert forall i | 0 < i < |hs| :: hs[i] == hs[1..][i - 1];
        forall i | 0 <= i < |hs| && hs[i].name == name && (forall j | 0 <= j < i :: hs[j].name != name)
          ensures HeaderNamed(hs, name) == Some(hs[i])
        {
          assert forall j | 0 <= j < i - 1 :: hs[1..][j] == hs[j + 1];
          assert hs[1..][i - 1] == hs[i];
        }
      }
    }
  }

  // ---- Messages ----

  /** The flags of a connection that had the flags `f`: whether it has been asked since the last `close`, or at all, to
      be kept and to be upgraded, whether a `close` has come, and the upgrade that is named. */
  ghost predicate FlagsSay(g: Flags, f: Flags, kept: bool, asked: bool, closed: bool, upgrade: Option<text>) {
    && (g.keepAlive <==> kept || (f.keepAlive && !closed))
    && (g.upgrade <==> asked || (f.upgrade && !closed))
    && (g.websocket <==> (f.websocket && !closed) || (g.upgrade && upgrade == Some("websocket")))
  }

  /** What the first header named `Upgrade` names, if there is one. */
  ghost predicate UpgradeIs(hs: seq<Header>, upgrade: Option<text>) {
    match upgrade
    case None => forall i | 0 <= i < |hs| :: hs[i].name != "Upgrade"
    case Some(v) =>
      exists i :: 0 <= i < |hs| && hs[i] == Header("Upgrade", v) && forall j | 0 <= j < i :: hs[j].name != "Upgrade"
  }

  function UpgradeHeader(upgrade: Option<text>): Option<Header> {
    match upgrade case None => None case Some(v) => Some(Header("Upgrade", v))
  }

  lemma UpgradeNamedIs(hs: seq<Header>, upgrade: Option<text>)
    requires UpgradeIs(hs, upgrade)
    ensures HeaderNamed(hs, "Upgrade") == UpgradeHeader(upgrade)
  {
    FirstNamed(hs, "Upgrade");
  }

  lemma FlagsOfSay(f: Flags, hs: seq<Header>, g: Flags, kept: bool, asked: bool, closed: bool, upgrade: Option<text>)
    requires FlagsAfter(f, hs) == g && HeaderNamed(hs, "Upgrade") == UpgradeHeader(upgrade)
    requires FlagsSay(g, f, kept, asked, closed, None)
    ensures FlagsSay(FlagsOf(f, hs), f, kept, asked, closed, upgrade)
    ensures UpgradeNamed(f, hs) <==> (asked || (f.upgrade && !closed) ==> upgrade.Some?)
  {
  }

  lemma WhatIsKept(h: Http)
    requires |h.headers| <= 19 && forall i | 0 <= i < |h.headers| :: h.headers[i].name != "" && h.headers[i].val != ""
    ensures Nineteen(Kept(h.headers, 0)) == h.headers
  {
    KeptAll(h.headers, 0);
    assert h.headers[0..] == h.headers;
  }

  lemma ReparsedSays(start: Outcome<Start>, hs: seq<Header>, f: Flags, body: Body, g: Flags, kept: bool, asked: bool,
                     closed: bool, upgrade: Option<text>)
    requires FlagsAfter(f, hs) == g && HeaderNamed(hs, "Upgrade") == UpgradeHeader(upgrade)
    requires FlagsSay(g, f, kept, asked, closed, None)
    ensures var r := Reparsed(start, hs, f, body);
      && (r.Yields? ==> FlagsSay(r.value.top.flags, f, kept, asked, closed, upgrade))
      && (start.Yields? ==> (r.Yields? <==> (asked || (f.upgrade && !closed) ==> upgrade.Some?)))
  {
    FlagsOfSay(f, hs, g, kept, asked, closed, upgrade);
    ReparsedFlags(start, hs, f, body);
  }

  lemma ReparsedFlags(start: Outcome<Start>, hs: seq<Header>, f: Flags, body: Body)
    ensures var r := Reparsed(start, hs, f, body);
      && (r.Yields? ==> r.value.top.flags == FlagsOf(f, hs))
      && (start.Yields? ==> (r.Yields? <==> UpgradeNamed(f, hs)))
  {
  }

  /** What the options of a message do, whatever else is in it: its connection gets the flags that its one header with
      options, and the upgrade that it names first, ask for; if an upgrade is asked for and none is named, the parser
      follows a null pointer. */
  lemma OptionsArrive(h: Http, k: nat, f: Flags, c: nat, os: seq<text>, upgrade: Option<text>)
    requires CleanMessage(h) && c < |h.headers| <= 19
    requires forall i | 0 <= i < |h.headers| :: h.headers[i].name != "" && h.headers[i].val != ""
    requires h.headers[c] == Header("Connection", Listed(os)) && forall o | o in os :: IsOption(o)
    requires forall i | 0 <= i < |h.headers| && i != c :: h.headers[i].name != "Connection"
    requires UpgradeIs(h.headers, upgrade)
    ensures var r := Parse(Print(h) + Nuls(k), |Print(h)|, f);
      && (r.Yields? ==>
            FlagsSay(r.value.top.flags, f, Stays(os, "keep-alive"), Stays(os, "Upgrade"), "close" in os, upgrade))
      && (Reread(h.start).Yields? ==> (r.Yields? <==>
            (Stays(os, "Upgrade") || (f.upgrade && "close" !in os) ==> upgrade.Some?)))
  {
    var hs := h.headers;
    PrintedParses(h, k, f);
    WhatIsKept(h);
    HeadersOptions(f, hs);
    OneOfThem(hs, c);
    ListReads(os);
    UpgradeNamedIs(hs, upgrade);
    OptionsSay(f, os);
    var tail := Extra(hs) + h.body;
    ReparsedSays(Reread(h.start), hs, f, BodyIn(tail + Nuls(k), |tail|, Declared(hs)), WithOptions(f, os),
                 Stays(os, "keep-alive"), Stays(os, "Upgrade"), "close" in os, upgrade);
  }

  lemma HandshakeOptions(os: seq<text>)
    requires os == ["Upgrade", "keep-alive"]
    ensures Tokens("Upgrade, keep-alive", {',', ' '}) == os
  {
    assert os[1..] == ["keep-alive"] && Listed(os) == "Upgrade, keep-alive";
    ListReads(os);
  }

  lemma HandshakeStays(os: seq<text>)
    requires os == ["Upgrade", "keep-alive"]
    ensures Stays(os, "Upgrade") && Stays(os, "keep-alive") && "close" !in os
  {
    assert os[0] == "Upgrade" && os[1] == "keep-alive" && "close" != "keep-alive";
  }

  lemma HandshakeFlags(f: Flags, os: seq<text>)
    requires os == ["Upgrade", "keep-alive"]
    ensures FlagsSay(WithOptions(f, os), f, true, true, false, None)
  {
    HandshakeStays(os);
    OptionsSay(f, os);
  }

  lemma ThreeHeaders(a: Header, b: Header, c: Header, connection: text, upgrade: text, hs: seq<Header>)
    requires connection == "Connection" && a.name == connection && b.name == upgrade && upgrade != connection
    requires c.name != connection && hs == [a, b, c]
    ensures OptionsOf(hs) == Tokens(a.val, {',', ' '}) && HeaderNamed(hs, upgrade) == Some(b)
  {
    OneOfThem(hs, 0);
    FirstNamed(hs, upgrade);
    assert hs[0] == a && hs[1] == b;
  }

  lemma NamesDiffer()
    ensures "Upgrade" != "Connection" && "Sec-WebSocket-Key" != "Connection"
  {
    assert "Upgrade"[0] != "Connection"[0] && "Sec-WebSocket-Key"[0] != "Connection"[0];
  }

  lemma HandshakeHeaders(key: text, hs: seq<Header>)
    requires hs == [Header("Connection", "Upgrade, keep-alive"), Header("Upgrade", "websocket"),
                    Header("Sec-WebSocket-Key", key)]
    ensures OptionsOf(hs) == ["Upgrade", "keep-alive"]
    ensures HeaderNamed(hs, "Upgrade") == Some(Header("Upgrade", "websocket"))
  {
    HandshakeOptions(["Upgrade", "keep-alive"]);
    NamesDiffer();
    ThreeHeaders(hs[0], hs[1], hs[2], "Connection", "Upgrade", hs);
  }

  /** A handshake that asks to be kept too: the upgrade, the WebSocket and the connection stay. */
  lemma HandshakeIsKept(f: Flags, key: text, hs: seq<Header>)
    requires hs == [Header("Connection", "Upgrade, keep-alive"), Header("Upgrade", "websocket"),
                    Header("Sec-WebSocket-Key", key)]
    ensures FlagsOf(f, hs) == Flags(true, true, true)
  {
    var os := ["Upgrade", "keep-alive"];
    HandshakeHeaders(key, hs);
    HeadersOptions(f, hs);
    HandshakeFlags(f, os);
    FlagsOfSay(f, hs, WithOptions(f, os), true, true, false, Some("websocket"));
  }
}
