/** A connection's frames as its reads deliver them, against the same bytes parsed at once. */
module WebSocketStream {
  import opened Sequences
  import opened Bytes
  import opened WebSocketFrame
  import opened StreamParser

  /** Whether the application accepts a text payload; otherwise the client is disconnected. */
  type Accepts = seq<byte> -> bool

  predicate Stops(f: Frame, accepts: Accepts) {
    f.opcode == CLOSE || (f.opcode == TEXT && !accepts(f.payload))
  }

  function StopsFor(accepts: Accepts): Frame -> bool {
    (f: Frame) => Stops(f, accepts)
  }

  function Zeros(n: nat): (s: seq<byte>)
    ensures |s| == n && forall i | 0 <= i < n :: s[i] == 0
  {
    seq(n, _ => 0)
  }

  /** The first frame of a byte string as the server reads it, if it is all there. */
  function First(s: seq<byte>): Item<Frame> {
    match FrameOf(s + Zeros(MAX_HEADER), |s|, Server)
    case None => Short
    case Some((f, size)) => Item(f, size)
  }

  /** The bytes of one frame after its payload has been unmasked where it lies. */
  function Unmasked(s: seq<byte>): (r: seq<byte>) {
    var h := HeaderOf(s + Zeros(MAX_HEADER), Server);
    match First(s)
    case Short => s
    case Item(f, size) => s[..h.offset] + f.payload + s[size..]
  }

  lemma SliceOfPrefix<T>(a: seq<T>, b: seq<T>, n: nat, i: nat, j: nat)
    requires n <= |a| && n <= |b| && a[..n] == b[..n] && i <= j <= n
    ensures a[i..j] == b[i..j]
    ensures forall k | 0 <= k < n :: a[k] == b[k]
  {
    assert a[i..j] == a[..n][i..j] && b[i..j] == b[..n][i..j];
    forall k | 0 <= k < n
      ensures a[k] == b[k]
    {
      assert a[k] == a[..n][k] && b[k] == b[..n][k];
    }
  }

  /** Where a header ends is known from two bytes, and what it says from the bytes before its end. */
  lemma HeaderPrefix(a: seq<byte>, b: seq<byte>, n: nat)
    requires |a| >= MAX_HEADER && |b| >= MAX_HEADER && 2 <= n <= |a| && n <= |b| && a[..n] == b[..n]
    ensures HeaderOf(a, Server).offset == HeaderOf(b, Server).offset
    ensures HeaderOf(a, Server).offset <= n ==> HeaderOf(a, Server) == HeaderOf(b, Server)
  {
    SliceOfPrefix(a, b, n, 0, 2);
    if 4 <= n {
      SliceOfPrefix(a, b, n, 2, 4);
    }
  }

  lemma PayloadPrefix(a: seq<byte>, b: seq<byte>, n: nat, h: Header)
    requires n <= |a| && n <= |b| && a[..n] == b[..n]
    requires h.offset + h.length <= n && (h.key.Some? ==> h.key.value + KEY_LEN <= h.offset)
    ensures PayloadAt(a, 0, h) == PayloadAt(b, 0, h)
  {
    SliceOfPrefix(a, b, n, h.offset, h.offset + h.length);
    if h.key.Some? {
      SliceOfPrefix(a, b, n, h.key.value, h.key.value + KEY_LEN);
    }
  }

  /** A frame is read from its own bytes alone: what lies behind them does not matter. */
  lemma FramePrefix(a: seq<byte>, b: seq<byte>, n: nat, m: nat)
    requires n <= m && n + MAX_HEADER <= |a| && m + MAX_HEADER <= |b| && a[..n] == b[..n]
    ensures FrameOf(a, n, Server).Some? ==>
      FrameOf(b, m, Server) == FrameOf(a, n, Server) && HeaderOf(a, Server) == HeaderOf(b, Server)
    ensures n == m ==> FrameOf(b, m, Server) == FrameOf(a, n, Server)
  {
    if n >= 2 {
      HeaderPrefix(a, b, n);
      var h := HeaderOf(a, Server);
      if h.offset + h.length <= n {
        PayloadPrefix(a, b, n, h);
      }
    }
  }

  /** Neither stale memory behind the bytes received nor bytes received later change a frame; and until a
      frame is there in full, stale memory never makes it look complete. */
  lemma FirstIgnores(s: seq<byte>, b: seq<byte>, n: nat)
    requires |s| <= n && n + MAX_HEADER <= |b| && b[..|s|] == s
    ensures var f := FrameOf(b, n, Server);
      && (First(s).Item? ==> f == Some((First(s).value, First(s).size)))
      && (n == |s| ==> (f == None <==> First(s).Short?))
  {
    var a := s + Zeros(MAX_HEADER);
    assert a[..|s|] == s;
    FramePrefix(a, b, |s|, n);
  }

  lemma ReaderIsStable()
    ensures Stable(First) && InPlace(Unmasked) && First([]).Short?
  {
    forall s: seq<byte>
      ensures FairAt(First, s) && SameLength(Unmasked, s)
    {
    }
    forall a: seq<byte>, b: seq<byte>
      ensures StableAt(First, a, b)
    {
      var c := (a + b) + Zeros(MAX_HEADER);
      assert c[..|a|] == a;
      FirstIgnores(a, c, |a + b|);
    }
  }

  /** The frames of a byte string in one go, up to the first that ends the connection. */
  ghost function ParseAll(s: seq<byte>, accepts: Accepts): Parsed<byte, Frame> {
    ReaderIsStable();
    ParseWith(s, First, StopsFor(accepts))
  }

  /** However a stream is cut into clean reads, the server dispatches the frames of the stream in order, each
      payload unmasked once, up to the first that ends the connection. */
  lemma ReadsDispatchStream(rs: seq<Read<byte>>, accepts: Accepts)
    requires Fair(First) && InPlace(Unmasked) && Clean(Idle, [], rs, First, Unmasked, StopsFor(accepts))
    ensures RunReads(Idle, rs, First, Unmasked, StopsFor(accepts)).1 == ParseAll(Chunks(rs), accepts).items
  {
    ReaderIsStable();
    CleanReadsParse(Idle, [], rs, First, Unmasked, StopsFor(accepts));
    assert [] + Chunks(rs) == Chunks(rs);
  }

  // ---- What clients send ----

  datatype Sent = Sent(opcode: byte, payload: seq<byte>, key: Option<seq<byte>>)

  predicate Sendable(f: Sent) {
    f.opcode < 16 && (f.key.Some? ==> |f.key.value| == KEY_LEN) && ServerCanRead(|f.payload|)
  }

  function Stream(fs: seq<Sent>): seq<byte>
    requires forall f | f in fs :: Sendable(f)
  {
    if fs == [] then []
    else
      assert Sendable(fs[0]);
      Wire(fs[0].opcode, fs[0].payload, fs[0].key) + Stream(fs[1..])
  }

  /** The frames up to and including the first that ends the connection. */
  function UpToStop(fs: seq<Sent>, accepts: Accepts): seq<Frame> {
    if fs == [] then []
    else
      var f := Frame(fs[0].opcode, fs[0].payload);
      if Stops(f, accepts) then [f] else [f] + UpToStop(fs[1..], accepts)
  }

  lemma FirstOfStream(f: Sent, post: seq<byte>)
    requires Sendable(f)
    ensures var w := Wire(f.opcode, f.payload, f.key); First(w + post) == Item(Frame(f.opcode, f.payload), |w|)
  {
    var w := Wire(f.opcode, f.payload, f.key);
    WireReadsBack(f.opcode, f.payload, f.key, post + Zeros(MAX_HEADER), |w + post|, Server);
    assert w + (post + Zeros(MAX_HEADER)) == (w + post) + Zeros(MAX_HEADER);
    LowNibble(f.opcode);
  }

  lemma LowNibble(b: byte)
    requires b < 16
    ensures b & 0x0F == b
  {
  }

  /** The frames of a stream of written frames are the frames that were written. */
  lemma {:induction false} StreamReadsBack(fs: seq<Sent>, accepts: Accepts)
    requires forall f | f in fs :: Sendable(f)
    ensures ParseAll(Stream(fs), accepts).items == UpToStop(fs, accepts)
  {
    ReaderIsStable();
    if fs != [] {
      var f, rest := fs[0], fs[1..];
      assert Sendable(f);
      var w := Wire(f.opcode, f.payload, f.key);
      FirstOfStream(f, Stream(rest));
      assert (w + Stream(rest))[|w|..] == Stream(rest);
      StreamReadsBack(rest, accepts);
    }
  }

  /** End to end: whatever frames a client sends, with payloads shorter than 65535 bytes, masked or not, and
      however clean reads cut the bytes, the server dispatches those frames in order. */
  lemma SentFramesAreDispatched(fs: seq<Sent>, rs: seq<Read<byte>>, accepts: Accepts)
    requires forall f | f in fs :: Sendable(f)
    requires Chunks(rs) == Stream(fs)
    requires Fair(First) && InPlace(Unmasked) && Clean(Idle, [], rs, First, Unmasked, StopsFor(accepts))
    ensures RunReads(Idle, rs, First, Unmasked, StopsFor(accepts)).1 == UpToStop(fs, accepts)
  {
    ReadsDispatchStream(rs, accepts);
    StreamReadsBack(fs, accepts);
  }

  // ---- A read that cuts a frame behind another ----

  lemma EmptyFrame(b0: byte, post: seq<byte>)
    ensures First([b0, 0] + post) == Item(Frame(b0 & 0x0F, []), 2)
    ensures First([b0]).Short?
  {
    var b := [b0, 0] + post + Zeros(MAX_HEADER);
    assert b[0] == b0 && b[1] == 0;
    var h := HeaderOf(b, Server);
    assert h == Header(b0 & 0x0F, None, 0, 2);
    assert b[2..2] == [];
  }

  lemma UnmaskedEmpty(b0: byte)
    ensures Unmasked([b0, 0]) == [b0, 0]
  {
    EmptyFrame(b0, []);
    assert [b0, 0] + [] == [b0, 0];
    var b := [b0, 0] + Zeros(MAX_HEADER);
    assert b[0] == b0 && b[1] == 0;
    assert HeaderOf(b, Server).offset == 2;
    assert [b0, 0][..2] + [] + [b0, 0][2..] == [b0, 0];
  }

  /** The first byte of the second frame comes with the first frame, and the connection takes the front of its
      buffer, which is the first frame, for the bytes it is waiting to complete. */
  lemma AfterCut(page: seq<byte>, fill: nat -> byte, accepts: Accepts)
    requires |page| > 3 && Stable(First) && InPlace(Unmasked)
    ensures var r := Read([0x89, 0x00, 0x8A], page, 2, fill);
      ReadStep(Idle, r, First, Unmasked, StopsFor(accepts)) == (Partial([0x89, 0x00], 1), [Frame(PING, [])])
  {
    var r := Read([0x89, 0x00, 0x8A], page, 2, fill);
    var mem := Received(Idle, r);
    var stops := StopsFor(accepts);
    assert mem[..2] == [0x89, 0x00] && mem[2..3] == [0x8A];
    assert mem[0..3] == [0x89, 0x00] + [0x8A];
    EmptyFrame(0x89, [0x8A]);
    EmptyFrame(0x8A, []);
    UnmaskedEmpty(0x89);
    assert mem[0..2] == [0x89, 0x00];
    assert Overwrite(mem, 0, [0x89, 0x00]) == mem;
    assert RunOver(mem, 2, 1, First, Unmasked, stops) == Outcome(mem, [], false, 1);
    assert RunOver(mem, 0, 3, First, Unmasked, stops) == Outcome(mem, [Frame(PING, [])], false, 1);
    assert Resized(mem, 2, fill) == [0x89, 0x00];
  }

  lemma AfterSecondRead(page: seq<byte>, fill: nat -> byte, accepts: Accepts)
    requires Stable(First) && InPlace(Unmasked)
    ensures var r := Read([0x00], page, 2, fill);
      ReadStep(Partial([0x89, 0x00], 1), r, First, Unmasked, StopsFor(accepts)).1 == [Frame(PING, [])]
  {
    var mem := Received(Partial([0x89, 0x00], 1), Read([0x00], page, 2, fill));
    assert mem == [0x89, 0x00] && mem[0..2] == [0x89, 0x00] + [];
    EmptyFrame(0x89, []);
    UnmaskedEmpty(0x89);
    assert RunOver(mem, 0, 2, First, Unmasked, StopsFor(accepts)).items == [Frame(PING, [])];
  }

  lemma ParseTwo(x: seq<byte>, y: seq<byte>, f: Frame, g: Frame, accepts: Accepts)
    requires Stable(First) && First(x + y) == Item(f, |x|) && First(y) == Item(g, |y|) && f.opcode == PING
    requires First([]).Short?
    ensures ParseAll(x + y, accepts).items == [f, g]
  {
    var stops := StopsFor(accepts);
    assert (x + y)[|x|..] == y && y[|y|..] == [];
    assert !stops(f);
    ParseMore(x + y, f, |x|, First, stops);
    assert ParseWith([], First, stops).items == [];
    assert ParseWith(y, First, stops).items == [g];
  }

  lemma EmptyFrameAlone(b0: byte)
    ensures First([b0, 0]) == Item(Frame(b0 & 0x0F, []), 2)
  {
    EmptyFrame(b0, []);
    assert [b0, 0] + [] == [b0, 0];
  }

  lemma PingAndPong()
    ensures (0x89 as byte) & 0x0F == PING && (0x8A as byte) & 0x0F == PONG
  {
  }

  lemma TwoEmptyFrames(x: seq<byte>, y: seq<byte>, accepts: Accepts)
    requires Stable(First) && x == [0x89, 0x00] && y == [0x8A, 0x00]
    ensures ParseAll(x + y, accepts).items == [Frame(PING, []), Frame(PONG, [])]
  {
    EmptyFrame(0x89, y);
    EmptyFrameAlone(0x8A);
    PingAndPong();
    ReaderIsStable();
    ParseTwo(x, y, Frame(PING, []), Frame(PONG, []), accepts);
  }

  lemma CutRuns(a: Read<byte>, b: Read<byte>, front: seq<byte>, page: seq<byte>, fill: nat -> byte, accepts: Accepts)
    requires |page| > 3 && Stable(First) && InPlace(Unmasked) && front == [0x89, 0x00]
    requires a == Read([0x89, 0x00, 0x8A], page, 2, fill) && b == Read([0x00], page, 2, fill)
    ensures RunReads(Idle, [a, b], First, Unmasked, StopsFor(accepts)).1 == [Frame(PING, []), Frame(PING, [])]
    ensures Chunks([a, b]) == a.chunk + b.chunk
  {
    AfterCut(page, fill, accepts);
    AfterSecondRead(page, fill, accepts);
    TwoReads(Idle, a, b, Partial(front, 1), [Frame(PING, [])], First, Unmasked, StopsFor(accepts));
  }

  /** A ping and a pong, cut after the first byte of the pong, are dispatched as two pings. */
  lemma CutBehindRepeatsFrame(a: Read<byte>, b: Read<byte>, page: seq<byte>, fill: nat -> byte, accepts: Accepts)
    requires |page| > 3 && Stable(First) && InPlace(Unmasked)
    requires a == Read([0x89, 0x00, 0x8A], page, 2, fill) && b == Read([0x00], page, 2, fill)
    ensures RunReads(Idle, [a, b], First, Unmasked, StopsFor(accepts)).1 == [Frame(PING, []), Frame(PING, [])]
    ensures ParseAll(Chunks([a, b]), accepts).items == [Frame(PING, []), Frame(PONG, [])]
  {
    var x, y := [0x89, 0x00], [0x8A, 0x00];
    CutRuns(a, b, x, page, fill, accepts);
    TwoEmptyFrames(x, y, accepts);
    assert a.chunk + b.chunk == x + y;
  }
}
