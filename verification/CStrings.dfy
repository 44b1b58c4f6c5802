/** C strings in a buffer: finding, splitting and tokenising them in place. */
module CStrings {
  import opened Sequences

  type text = seq<char>

  const NUL := '\0'

  /** None of these characters occurs. */
  predicate Without(s: text, cs: set<char>) {
    forall i | 0 <= i < |s| :: s[i] !in cs
  }

  /** The first place from `i` on with one of these characters, or with none of them; else the end. */
  function Scan(s: text, i: nat, cs: set<char>, in_: bool): (j: nat)
    requires i <= |s|
    ensures i <= j <= |s|
    decreases |s| - i
  {
    if i == |s| || (s[i] in cs <==> in_) then i else Scan(s, i + 1, cs, in_)
  }

  lemma {:induction false} ScanStops(s: text, i: nat, cs: set<char>, in_: bool)
    requires i <= |s|
    ensures var j := Scan(s, i, cs, in_);
      && (forall k | i <= k < j :: s[k] in cs <==> !in_)
      && (j < |s| ==> (s[j] in cs <==> in_))
    decreases |s| - i
  {
    if i < |s| && !(s[i] in cs <==> in_) {
      ScanStops(s, i + 1, cs, in_);
    }
  }

  lemma ScanIs(s: text, i: nat, j: nat, cs: set<char>, in_: bool)
    requires i <= j <= |s| && (forall k | i <= k < j :: s[k] in cs <==> !in_) && (j < |s| ==> (s[j] in cs <==> in_))
    ensures Scan(s, i, cs, in_) == j
  {
    ScanStops(s, i, cs, in_);
  }

  /** The string at the front of some memory: what comes before the first NUL. */
  function CString(mem: text): (s: text)
    ensures |s| <= |mem|
  {
    mem[..Scan(mem, 0, {NUL}, true)]
  }

  lemma CStringEnds(mem: text)
    ensures var s := CString(mem);
      && s == mem[..|s|] && Without(s, {NUL}) && (|s| < |mem| ==> mem[|s|] == NUL)
  {
    ScanStops(mem, 0, {NUL}, true);
  }

  /** A stretch without NUL, then a NUL or the end of memory: that stretch is the string. */
  lemma CStringIs(mem: text, n: nat)
    requires n <= |mem| && Without(mem[..n], {NUL}) && (n < |mem| ==> mem[n] == NUL)
    ensures CString(mem) == mem[..n]
  {
    assert forall k | 0 <= k < n :: mem[k] == mem[..n][k];
    ScanIs(mem, 0, n, {NUL}, true);
  }

  lemma CStringDrop(mem: text, i: nat)
    requires i <= |CString(mem)|
    ensures CString(mem[i..]) == CString(mem)[i..]
  {
    CStringEnds(mem);
    var s := CString(mem);
    assert mem[i..][..|s| - i] == s[i..];
    CStringIs(mem[i..], |s| - i);
  }

  // ---- strstr ----

  predicate At(s: text, i: nat, d: text) {
    i + |d| <= |s| && s[i..i + |d|] == d
  }

  /** Where a string first occurs in another, from `i` on. */
  function FindFrom(s: text, d: text, i: nat): (r: Option<nat>)
    ensures r.Some? ==> i <= r.value && At(s, r.value, d)
    decreases |s| - i
  {
    if At(s, i, d) then Some(i) else if i >= |s| then None else FindFrom(s, d, i + 1)
  }

  function Find(s: text, d: text): (r: Option<nat>)
    ensures r.Some? ==> At(s, r.value, d)
  {
    FindFrom(s, d, 0)
  }

  lemma {:induction false} FindFromIs(s: text, d: text, from: nat, i: nat)
    requires from <= i <= |s| && forall j: nat | from <= j < i :: !At(s, j, d)
    ensures At(s, i, d) ==> FindFrom(s, d, from) == Some(i)
    ensures !At(s, i, d) && i == |s| ==> FindFrom(s, d, from) == None
    decreases i - from
  {
    if from < i {
      assert !At(s, from, d);
      FindFromIs(s, d, from + 1, i);
    }
  }

  /** The first place where the string is found, if any, determines `Find`. */
  lemma FindIs(s: text, d: text, i: nat)
    requires i <= |s| && forall j: nat | j < i :: !At(s, j, d)
    ensures At(s, i, d) ==> Find(s, d) == Some(i)
    ensures !At(s, i, d) && i == |s| ==> Find(s, d) == None
  {
    FindFromIs(s, d, 0, i);
  }

  lemma NotAt(s: text, i: nat, d: text)
    requires i < |s| && d != [] && s[i] != d[0]
    ensures !At(s, i, d)
  {
    if i + |d| <= |s| {
      assert s[i..i + |d|][0] == s[i];
    }
  }

  lemma AtBehind(pre: text, s: text, i: nat, d: text)
    ensures At(pre + s, |pre| + i, d) <==> At(s, i, d)
  {
    if i + |d| <= |s| {
      assert (pre + s)[|pre| + i..|pre| + i + |d|] == s[i..i + |d|];
    }
  }

  function Shifted(r: Option<nat>, n: nat): Option<nat> {
    match r case None => None case Some(i) => Some(n + i)
  }

  lemma {:induction false} FindFromBehind(pre: text, s: text, d: text, i: nat)
    requires i <= |s|
    ensures FindFrom(pre + s, d, |pre| + i) == Shifted(FindFrom(s, d, i), |pre|)
    decreases |s| - i
  {
    AtBehind(pre, s, i, d);
    if !At(s, i, d) && i < |s| {
      FindFromBehind(pre, s, d, i + 1);
    }
  }

  lemma {:induction false} FindFromSkips(s: text, d: text, from: nat, i: nat)
    requires from <= i <= |s| && forall j: nat | from <= j < i :: !At(s, j, d)
    ensures FindFrom(s, d, from) == FindFrom(s, d, i)
    decreases i - from
  {
    if from < i {
      assert !At(s, from, d);
      FindFromSkips(s, d, from + 1, i);
    }
  }

  /** Nothing is found before a string in characters of which none can start it. */
  lemma FindSkips(pre: text, s: text, d: text)
    requires d != [] && Without(pre, {d[0]})
    ensures Find(pre + s, d) == Shifted(Find(s, d), |pre|)
  {
    forall j: nat | j < |pre|
      ensures !At(pre + s, j, d)
    {
      NotAt(pre + s, j, d);
    }
    FindFromSkips(pre + s, d, 0, |pre|);
    FindFromBehind(pre, s, d, 0);
  }

  /** Whether the string at a place of the buffer starts with another. */
  method StartsWith(buf: array<char>, at: nat, d: text) returns (b: bool)
    requires at <= buf.Length
    ensures b <==> At(CString(buf[..][at..]), 0, d)
  {
    ghost var mem := buf[..][at..];
    ghost var s := CString(mem);
    CStringEnds(mem);
    var k := 0;
    while k < |d| && at + k < buf.Length && buf[at + k] != NUL && buf[at + k] == d[k]
      invariant k <= |d| && k <= |s| && s[..k] == d[..k]
    {
      assert mem[k] == buf[at + k];
      assert s[k] == mem[k] && s[..k + 1] == s[..k] + [s[k]];
      k := k + 1;
    }
    b := k == |d|;
    if !b && |d| <= |s| {
      assert mem[k] == buf[at + k] && mem[k] == s[k] && s[..|d|][k] == s[k];
    }
  }

  /** Looks for a string in the string at a place of the buffer. */
  method StrStr(buf: array<char>, at: nat, d: text) returns (r: Option<nat>)
    requires at <= buf.Length
    ensures r == Find(CString(buf[..][at..]), d)
  {
    ghost var mem := buf[..][at..];
    ghost var s := CString(mem);
    CStringEnds(mem);
    var i := 0;
    while true
      invariant i <= |s| && (forall j: nat | j < i :: !At(s, j, d))
      decreases |s| - i
    {
      var found := StartsWith(buf, at + i, d);
      CStringDrop(mem, i);
      assert mem[i..] == buf[..][at + i..];
      AtBehind(s[..i], s[i..], 0, d);
      assert s[..i] + s[i..] == s;
      if found {
        FindIs(s, d, i);
        return Some(i);
      }
      if at + i == buf.Length || buf[at + i] == NUL {
        break;
      }
      assert mem[i] == buf[at + i];
      i := i + 1;
    }
    assert at + i < buf.Length ==> mem[i] == buf[at + i];
    FindIs(s, d, i);
    r := None;
  }

  // ---- strsplit ----

  datatype Split = Split(token: Option<text>, rest: text)

  /** Takes what comes before the delimiter off a string. Without a delimiter the whole string is the token,
      unless it is empty, and it is also what the next call will see. */
  function SplitOff(s: text, d: text): Split {
    match Find(s, d)
    case None => Split(if s == [] then None else Some(s), s)
    case Some(i) => Split(Some(s[..i]), s[i + |d|..])
  }

  function Zeroed(mem: text, at: nat, k: nat): (m: text)
    requires at + k <= |mem|
    ensures |m| == |mem|
  {
    mem[..at] + seq(k, _ => NUL) + mem[at + k..]
  }

  lemma DropTwice(m: text, a: nat, b: nat)
    requires a + b <= |m|
    ensures m[a..][b..] == m[a + b..]
  {
  }

  /** A string is cut at a NUL written into it, and what lies behind the NUL is still there. */
  lemma CutInMemory(m: text, m': text, at: nat, s: text, i: nat, next: nat)
    requires at <= |m| == |m'| && s == CString(m[at..]) && i < next <= |s| && at + next <= |m|
    requires m'[at..at + i] == m[at..at + i] && m'[at + i] == NUL && m'[at + next..] == m[at + next..]
    ensures CString(m'[at..]) == s[..i] && CString(m'[at + next..]) == s[next..]
  {
    CStringEnds(m[at..]);
    assert m'[at..][..i] == m'[at..at + i] && m[at..][..i] == m[at..at + i] && s[..i] == m[at..][..i];
    CStringIs(m'[at..], i);
    CStringDrop(m[at..], next);
    DropTwice(m, at, next);
  }

  /** What splitting a string leaves in memory: the delimiter is overwritten with NULs. Without a delimiter the
      place to go on from stays where it is. */
  function AfterSplit(m: text, save: nat, s: text, d: text): (r: (text, nat))
    ensures |r.0| == |m|
  {
    match Find(s, d)
    case None => (m, save)
    case Some(i) => if save + i + |d| <= |m| then (Zeroed(m, save + i, |d|), save + i + |d|) else (m, save)
  }

  /** The token and the rest, as strings in memory. */
  lemma AfterSplitReads(m: text, save: nat, s: text, d: text)
    requires save <= |m| && s == CString(m[save..]) && d != []
    ensures var (m', next) := AfterSplit(m, save, s, d);
      && save <= next <= |m| && CString(m'[next..]) == SplitOff(s, d).rest
      && (SplitOff(s, d).token == None ==> s == [])
      && (SplitOff(s, d).token.Some? ==> CString(m'[save..]) == SplitOff(s, d).token.value)
  {
    match Find(s, d)
    case None =>
    case Some(i) => CutInMemory(m, Zeroed(m, save + i, |d|), save, s, i, i + |d|);
  }

  /** Splitting zeroes the delimiter, byte by byte, and goes on behind it; without one nothing changes. */
  lemma SplitBytes(m: text, save: nat, s: text, d: text)
    requires save <= |m| && s == CString(m[save..])
    ensures var (m', next) := AfterSplit(m, save, s, d);
      && |m'| == |m|
      && match Find(s, d)
         case None =>
           && next == save && (SplitOff(s, d).token == if s == "" then None else Some(s))
           && forall i | 0 <= i < |m| :: m'[i] == m[i]
         case Some(p) =>
           && next == save + p + |d| && SplitOff(s, d).token == Some(s[..p])
           && forall i | 0 <= i < |m| :: m'[i] == if save + p <= i < next then '\0' else m[i]
  {
  }

  /** Zeroes a stretch of a buffer. */
  method Zero(buf: array<char>, at: nat, k: nat)
    requires at + k <= buf.Length
    modifies buf
    ensures buf[..] == Zeroed(old(buf[..]), at, k)
  {
    for j := 0 to k
      invariant forall i | 0 <= i < buf.Length :: buf[i] == if at <= i < at + j then NUL else old(buf[i])
    {
      buf[at + j] := NUL;
    }
  }

  /** Splits the string at `save` in place; the token, if there is one, is then the string at `save`. */
  method StrSplit(buf: array<char>, save: nat, d: text) returns (token: bool, next: nat)
    requires save <= buf.Length && d != []
    modifies buf
    ensures save <= next <= buf.Length
    ensures var s := CString(old(buf[..])[save..]);
      (token <==> SplitOff(s, d).token.Some?) && (buf[..], next) == AfterSplit(old(buf[..]), save, s, d)
  {
    ghost var m := buf[..];
    ghost var s := CString(m[save..]);
    CStringEnds(m[save..]);
    var found := StrStr(buf, save, d);
    if found == None {
      token := save < buf.Length && buf[save] != NUL;
      assert save < buf.Length ==> m[save..][0] == buf[save];
      next := save;
    } else {
      var i := found.value;
      Zero(buf, save + i, |d|);
      token, next := true, save + i + |d|;
    }
  }

  // ---- strtok ----

  /** Where the first token of a string starts and ends. */
  function Token(s: text, delims: set<char>): (t: (nat, nat))
    ensures t.0 <= t.1 <= |s|
  {
    var from := Scan(s, 0, delims, false);
    (from, Scan(s, from, delims, true))
  }

  lemma TokenIs(s: text, delims: set<char>, n: nat)
    requires 0 < n <= |s| && Without(s[..n], delims) && (n < |s| ==> s[n] in delims)
    ensures Token(s, delims) == (0, n)
  {
    assert forall k | 0 <= k < n :: s[k] == s[..n][k];
    ScanIs(s, 0, 0, delims, false);
    ScanIs(s, 0, n, delims, true);
  }

  /** What is left behind the token. */
  function Behind(s: text, t: (nat, nat)): text {
    if t.1 < |s| then s[t.1 + 1..] else []
  }

  /** All tokens of a string, as repeated calls return them. */
  function Tokens(s: text, delims: set<char>): seq<text>
    decreases |s|
  {
    var t := Token(s, delims);
    if t.0 == t.1 then [] else [s[t.0..t.1]] + Tokens(Behind(s, t), delims)
  }

  /** Goes from `i` to the first place of the string at `at` where `Scan` stops. */
  method ScanBuffer(buf: array<char>, at: nat, i: nat, cs: set<char>, in_: bool) returns (j: nat)
    requires at <= buf.Length && i <= |CString(buf[..][at..])|
    ensures j == Scan(CString(buf[..][at..]), i, cs, in_)
  {
    ghost var mem := buf[..][at..];
    ghost var s := CString(mem);
    CStringEnds(mem);
    j := i;
    while at + j < buf.Length && buf[at + j] != NUL && (buf[at + j] in cs <==> !in_)
      invariant i <= j <= |s| && Scan(s, i, cs, in_) == Scan(s, j, cs, in_)
    {
      assert mem[j] == buf[at + j];
      assert s[j] == buf[at + j];
      j := j + 1;
    }
    assert at + j < buf.Length ==> mem[j] == buf[at + j];
  }

  /** What taking a token of the string at `at` leaves in memory, where the token is, and where to go on. */
  function AfterToken(m: text, at: nat, s: text, t: (nat, nat)): (r: (text, nat, nat))
    ensures |r.0| == |m|
  {
    if t.1 < |s| && at + t.1 < |m| then (m[at + t.1 := NUL], at + t.0, at + t.1 + 1) else (m, at + t.0, at + t.1)
  }

  /** Taking a token zeroes the byte behind it, if there is one in the string, and no other. */
  lemma TokenBytes(m: text, at: nat, s: text, t: (nat, nat))
    requires at <= |m| && s == CString(m[at..]) && t.0 <= t.1 <= |s|
    ensures var (m', from, next) := AfterToken(m, at, s, t);
      && |m'| == |m| && from == at + t.0 && next == at + t.1 + (if t.1 < |s| then 1 else 0)
      && forall i | 0 <= i < |m| :: m'[i] == if i == at + t.1 && t.1 < |s| then '\0' else m[i]
  {
  }

  /** The token and what is behind it, as strings in memory. */
  lemma AfterTokenReads(m: text, at: nat, s: text, t: (nat, nat))
    requires at <= |m| && s == CString(m[at..]) && t.0 <= t.1 <= |s|
    ensures var (m', from, next) := AfterToken(m, at, s, t);
      && from <= next <= |m| && CString(m'[from..]) == s[t.0..t.1] && CString(m'[next..]) == Behind(s, t)
  {
    var mem := m[at..];
    CStringEnds(mem);
    CStringDrop(mem, t.0);
    DropTwice(m, at, t.0);
    if t.1 < |s| {
      CutInMemory(m, m[at + t.1 := NUL], at + t.0, s[t.0..], t.1 - t.0, t.1 + 1 - t.0);
    } else {
      CStringDrop(mem, t.1);
      DropTwice(m, at, t.1);
    }
  }

  /** Copies the string at a place of a buffer. */
  method ReadString(buf: array<char>, at: nat) returns (s: text)
    requires at <= buf.Length
    ensures s == CString(buf[..][at..])
  {
    ghost var mem := buf[..][at..];
    CStringEnds(mem);
    var n := 0;
    while at + n < buf.Length && buf[at + n] != NUL
      invariant n <= |CString(mem)|
    {
      assert mem[n] == buf[at + n];
      n := n + 1;
    }
    assert at + n < buf.Length ==> mem[n] == buf[at + n];
    assert CString(mem) == mem[..n];
    s := buf[at..at + n];
  }

  /** Takes the next token of the string at `at`, ending it in place. */
  method StrTok(buf: array<char>, at: nat, delims: set<char>) returns (from: nat, next: nat)
    requires at <= buf.Length
    modifies buf
    ensures from <= next <= buf.Length
    ensures var s := CString(old(buf[..])[at..]);
      (buf[..], from, next) == AfterToken(old(buf[..]), at, s, Token(s, delims))
  {
    ghost var mem := buf[..][at..];
    var i := ScanBuffer(buf, at, 0, delims, false);
    var j := ScanBuffer(buf, at, i, delims, true);
    CStringEnds(mem);
    from, next := at + i, at + j;
    assert at + j < buf.Length ==> mem[j] == buf[at + j];
    if at + j < buf.Length && buf[at + j] != NUL {
      buf[at + j] := NUL;
      next := at + j + 1;
    }
  }
}
