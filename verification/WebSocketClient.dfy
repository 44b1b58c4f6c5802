/** The receiving side of a WebSocket client: its buffer, filled read by read and parsed where it lies. */
module WebSocketClient {
  import opened Sequences
  import opened Bytes
  import opened WebSocketFrame
  import opened StreamParser
  import opened WebSocketStream

  const RECV_PAGE: nat := 4096

  // ---- What one frame does to the buffer ----

  /** A whole frame is read the same from exactly its own bytes. */
  lemma FirstExact(s: seq<byte>)
    requires First(s).Item?
    ensures var size := First(s).size;
      && 2 <= size <= |s| && First(s[..size]) == First(s)
      && HeaderOf(s[..size] + Zeros(MAX_HEADER), Server) == HeaderOf(s + Zeros(MAX_HEADER), Server)
  {
    var size := First(s).size;
    var a, b := s[..size] + Zeros(MAX_HEADER), s + Zeros(MAX_HEADER);
    assert a[..size] == s[..size] == b[..size];
    HeaderPrefix(b, a, size);
    FramePrefix(a, b, size, |s|);
  }

  /** The frame found in the buffer at a place, given what lies behind the buffer. */
  lemma FrameInBuffer(mem: seq<byte>, beyond: seq<byte>, at: nat, n: nat)
    requires at + n <= |mem| && |beyond| >= MAX_HEADER
    ensures var b := (mem + beyond)[at..]; var s := mem[at..at + n]; var h := HeaderOf(b, Server);
      && (First(s).Item? <==> h.length + h.offset <= n)
      && (First(s).Item? ==> First(s).size == h.length + h.offset && First(s).value == FrameOf(b, n, Server).value.0
                             && h == HeaderOf(s + Zeros(MAX_HEADER), Server))
  {
    var b, s := (mem + beyond)[at..], mem[at..at + n];
    assert b[..|s|] == s;
    FirstIgnores(s, b, n);
    var a := s + Zeros(MAX_HEADER);
    assert a[..n] == s;
    FramePrefix(a, b, n, n);
  }

  lemma UnmaskedOwn(own: seq<byte>, offset: nat)
    requires First(own).Item? && First(own).size == |own| && offset == HeaderOf(own + Zeros(MAX_HEADER), Server).offset
    ensures offset <= |own| && Unmasked(own) == own[..offset] + First(own).value.payload
  {
  }

  lemma Spliced(mem: seq<byte>, mem': seq<byte>, at: nat, offset: nat, size: nat, payload: seq<byte>)
    requires at + size <= |mem| == |mem'| && offset + |payload| == size
    requires mem'[..at + offset] == mem[..at + offset] && mem'[at + offset..at + size] == payload
      && mem'[at + size..] == mem[at + size..]
    ensures mem' == Overwrite(mem, at, mem[at..at + size][..offset] + payload)
  {
    assert mem[at..at + size][..offset] == mem[..at + offset][at..];
    assert mem' == mem'[..at + offset][..at] + mem'[..at + offset][at..] + mem'[at + offset..at + size]
      + mem'[at + size..];
  }

  /** Unmasking the payload where it lies is the rewriting of the frame's bytes. */
  lemma UnmaskedInBuffer(mem: seq<byte>, at: nat, n: nat, f: Frame, size: nat, offset: nat, mem': seq<byte>)
    requires at + n <= |mem| == |mem'| && First(mem[at..at + n]) == Item(f, size) && size <= n
    requires offset == HeaderOf(mem[at..at + n] + Zeros(MAX_HEADER), Server).offset && offset + |f.payload| == size
    requires mem'[..at + offset] == mem[..at + offset] && mem'[at + offset..at + size] == f.payload
      && mem'[at + size..] == mem[at + size..]
    ensures var own := mem[at..at + size]; |Unmasked(own)| == size && mem' == Overwrite(mem, at, Unmasked(own))
  {
    FirstExact(mem[at..at + n]);
    var own := mem[at..at + size];
    assert own == mem[at..at + n][..size];
    UnmaskedOwn(own, offset);
    Spliced(mem, mem', at, offset, size, f.payload);
  }

  lemma BehindPlace(mem: seq<byte>, beyond: seq<byte>, at: nat, i: nat, j: nat)
    requires i <= j && at + j <= |mem|
    ensures (mem + beyond)[at..][i..j] == mem[at + i..at + j]
  {
  }

  lemma SamePayload(a: seq<byte>, i: nat, b: seq<byte>, j: nat, h: Header)
    requires i + h.offset + h.length <= |a| && j + h.offset + h.length <= |b|
    requires h.key.Some? ==> h.key.value + KEY_LEN <= h.offset
    requires a[i + h.offset..i + (h.offset + h.length)] == b[j + h.offset..j + (h.offset + h.length)]
    requires h.key.Some? ==>
      a[i + h.key.value..i + (h.key.value + KEY_LEN)] == b[j + h.key.value..j + (h.key.value + KEY_LEN)]
    ensures PayloadAt(a, i, h) == PayloadAt(b, j, h)
  {
  }

  lemma PayloadInBuffer(b: seq<byte>, mem: seq<byte>, beyond: seq<byte>, at: nat, h: Header)
    requires at + h.offset + h.length <= |mem| && (h.key.Some? ==> h.key.value + KEY_LEN <= h.offset)
    requires b == (mem + beyond)[at..]
    ensures PayloadAt(b, 0, h) == PayloadAt(mem, at, h)
  {
    BehindPlace(mem, beyond, at, h.offset, h.offset + h.length);
    if h.key.Some? {
      BehindPlace(mem, beyond, at, h.key.value, h.key.value + KEY_LEN);
    }
    SamePayload(b, 0, mem, at, h);
  }

  lemma FrameFromHeader(b: seq<byte>, n: nat, h: Header)
    requires n + MAX_HEADER <= |b| && h == HeaderOf(b, Server) && h.length + h.offset <= n
    ensures h.key.Some? ==> h.key.value + KEY_LEN <= h.offset
    ensures FrameOf(b, n, Server) == Some((Frame(h.opcode, PayloadAt(b, 0, h)), h.length + h.offset))
  {
  }

  /** What the server takes for a whole frame is the first frame of the received bytes. */
  lemma WholeFrame(mem: seq<byte>, beyond: seq<byte>, at: nat, n: nat, h: Header)
    requires at + n <= |mem| && |beyond| >= MAX_HEADER
    requires h == HeaderOf((mem + beyond)[at..], Server) && h.length + h.offset <= n
    ensures h.key.Some? ==> h.key.value + KEY_LEN <= h.offset
    ensures First(mem[at..at + n]) == Item(Frame(h.opcode, PayloadAt(mem, at, h)), h.length + h.offset)
    ensures HeaderOf(mem[at..at + n] + Zeros(MAX_HEADER), Server) == h
  {
    FrameInBuffer(mem, beyond, at, n);
    FrameFromHeader((mem + beyond)[at..], n, h);
    PayloadInBuffer((mem + beyond)[at..], mem, beyond, at, h);
  }

  /** A whole frame is taken out of the buffer, which is rewritten in place. */
  ghost predicate Taken(mem: seq<byte>, at: nat, n: nat, frame: Frame, size: nat, mem': seq<byte>)
    requires at + n <= |mem|
  {
    && First(mem[at..at + n]) == Item(frame, size) && size <= n
    && |Unmasked(mem[at..at + size])| == size && mem' == Overwrite(mem, at, Unmasked(mem[at..at + size]))
  }

  /** The size that the frame at a place seems to have; its header may be stale, or lie behind the buffer. */
  function SeemingSize(mem: seq<byte>, beyond: seq<byte>, at: nat): nat
    requires at <= |mem| && |beyond| >= 14
  {
    var b := (mem + beyond)[at..];
    HeaderLength(b[1]) + Announced(b)
  }

  lemma SameSeemingSize(a: seq<byte>, b: seq<byte>, beyond: seq<byte>, at: nat)
    requires at <= |a| && at <= |b| && a[at..] == b[at..] && |beyond| >= 14
    ensures SeemingSize(a, beyond, at) == SeemingSize(b, beyond, at)
  {
    assert (a + beyond)[at..] == a[at..] + beyond == (b + beyond)[at..];
  }

  /** A frame is cut: the buffer is resized to the size that the frame seems to have. */
  ghost predicate Cut(mem: seq<byte>, beyond: seq<byte>, at: nat, n: nat, total: nat, fill: nat -> byte,
                      mem': seq<byte>)
    requires at + n <= |mem| && |beyond| >= 14
  {
    && First(mem[at..at + n]).Short?
    && n < total == SeemingSize(mem, beyond, at)
    && mem' == Resized(mem, total, fill)
  }

  lemma CutFrame(mem: seq<byte>, beyond: seq<byte>, at: nat, n: nat, h: Header)
    requires at + n <= |mem| && |beyond| >= 14 && h == HeaderOf((mem + beyond)[at..], Server) && h.length + h.offset > n
    ensures First(mem[at..at + n]).Short? && h.length + h.offset == SeemingSize(mem, beyond, at)
  {
    FrameInBuffer(mem, beyond, at, n);
    ServerHeader((mem + beyond)[at..]);
  }

  /** A run over the buffer of a client with these handlers. */
  ghost function Run(mem: seq<byte>, at: nat, n: nat, accepts: Accepts): Outcome<byte, Frame> {
    ReaderIsStable();
    if at + n <= |mem| then RunOver(mem, at, n, First, Unmasked, StopsFor(accepts)) else Outcome(mem, [], false, 0)
  }

  type Runs = (seq<byte>, nat, nat) -> Outcome<byte, Frame>

  ghost predicate RunsAt(run: Runs, mem: seq<byte>, at: nat, n: nat, accepts: Accepts) {
    run(mem, at, n) == Run(mem, at, n, accepts)
  }

  /** A name for `Run` under which the parser below does not look into it. */
  ghost predicate RunsFor(run: Runs, accepts: Accepts) {
    forall mem, at, n :: RunsAt(run, mem, at, n, accepts)
  }

  lemma RunCut(run: Runs, mem: seq<byte>, beyond: seq<byte>, at: nat, n: nat, total: nat, fill: nat -> byte,
               mem': seq<byte>, accepts: Accepts, rest: Rest)
    requires RunsFor(run, accepts) && at + n <= |mem| && |beyond| >= 14 && SizesFor(rest, beyond)
      && Cut(mem, beyond, at, n, total, fill, mem')
    ensures run(mem, at, n) == Outcome(mem, [], false, n)
    ensures |mem'| == total > n && mem' == Resized(mem, total, fill) && total == rest.sizes(mem, at)
  {
    assert SizeAt(rest, beyond, mem, at);
    ReaderIsStable();
    assert RunsAt(run, mem, at, n, accepts);
    RunShort(mem, at, n, First, Unmasked, StopsFor(accepts));
  }

  /** What a run over the buffer does, one frame at a time. */
  lemma RunTaken(run: Runs, mem: seq<byte>, at: nat, n: nat, frame: Frame, size: nat, mem': seq<byte>, accepts: Accepts)
    requires RunsFor(run, accepts) && at + n <= |mem| && Taken(mem, at, n, frame, size, mem')
    ensures |mem'| == |mem| && 0 < size <= n
    ensures run(mem, at, n) ==
      if size < n && !Stops(frame, accepts) then
        var inner := run(mem', at + size, n - size);
        inner.(items := [frame] + inner.items)
      else Outcome(mem', [frame], Stops(frame, accepts), 0)
  {
    ReaderIsStable();
    assert RunsAt(run, mem, at, n, accepts) && RunsAt(run, mem', at + size, n - size, accepts);
    var stops, item := StopsFor(accepts), Unmasked(mem[at..at + size]);
    assert stops(frame) == Stops(frame, accepts);
    if size < n && !Stops(frame, accepts) {
      RunMore(mem, at, n, First, Unmasked, stops, frame, size, item);
    } else {
      RunLast(mem, at, n, First, Unmasked, stops, frame, size, item);
    }
  }

  /** Where the bytes of a run end, and the sizes that frames in the buffer seem to have. */
  datatype Rest = Rest(end: nat, sizes: (seq<byte>, nat) -> nat)

  ghost predicate SizeAt(rest: Rest, beyond: seq<byte>, mem: seq<byte>, at: nat)
    requires |beyond| >= 14
  {
    at <= |mem| ==> rest.sizes(mem, at) == SeemingSize(mem, beyond, at)
  }

  ghost predicate SizesFor(rest: Rest, beyond: seq<byte>)
    requires |beyond| >= 14
  {
    forall mem, at: nat :: SizeAt(rest, beyond, mem, at)
  }

  /** A frame is cut in the last bytes of a run, and seems to have this size. */
  ghost predicate CutLeaves(o: Outcome<byte, Frame>, rest: Rest, total: nat) {
    0 < o.left <= rest.end <= |o.mem| && o.left < total == rest.sizes(o.mem, rest.end - o.left)
  }

  /** The client's fields after the frames of a run have been handled. */
  ghost predicate Handled(o: Outcome<byte, Frame>, disconnect: bool, busy: bool, dataSize: nat, offset: nat, total: nat,
                          fill: nat -> byte, mem: seq<byte>, rest: Rest)
  {
    && disconnect == o.stopped
    && (!disconnect ==> (busy <==> o.left > 0))
    && mem == (if !disconnect && busy then Resized(o.mem, total, fill) else o.mem)
    && (!disconnect && busy ==> dataSize == total && offset == o.left && CutLeaves(o, rest, total))
  }

  lemma HandledMore(inner: Outcome<byte, Frame>, frame: Frame, disconnect: bool, busy: bool, dataSize: nat, offset: nat,
                    total: nat, fill: nat -> byte, mem: seq<byte>, rest: Rest)
    requires Handled(inner, disconnect, busy, dataSize, offset, total, fill, mem, rest)
    ensures Handled(inner.(items := [frame] + inner.items), disconnect, busy, dataSize, offset, total, fill, mem, rest)
  {
  }

  lemma HandledState(o: Outcome<byte, Frame>, r: Read<byte>, disconnect: bool, busy: bool, dataSize: nat, offset: nat,
                     mem: seq<byte>, rest: Rest)
    requires Handled(o, disconnect, busy, dataSize, offset, r.total, r.fill, mem, rest)
    ensures After(o, r) == if disconnect then Closed else if busy then Partial(mem, offset) else Idle
    ensures !disconnect && busy ==> 0 < offset < |mem| == dataSize
  {
  }

  /** What a read makes of a client's connection, and the frames it dispatches. */
  ghost function Step(c: Conn<byte>, r: Read<byte>, accepts: Accepts): (Conn<byte>, seq<Frame>)
    requires !c.Closed? && Fits(c, r)
  {
    ReaderIsStable();
    ReadStep(c, r, First, Unmasked, StopsFor(accepts))
  }

  lemma StepIs(c: Conn<byte>, r: Read<byte>, accepts: Accepts, run: Runs)
    requires !c.Closed? && Fits(c, r) && RunsFor(run, accepts)
    ensures var o := run(Received(c, r), 0, Offset(c) + |r.chunk|); Step(c, r, accepts) == (After(o, r), o.items)
  {
    ReaderIsStable();
    assert RunsAt(run, Received(c, r), 0, Offset(c) + |r.chunk|, accepts);
  }

  /** The size to which the buffer is set does not matter to what is received. */
  lemma ReadIs(c: Conn<byte>, c': Conn<byte>, r: Read<byte>, mem: seq<byte>, n: nat, accepts: Accepts,
               beyond: seq<byte>, run: Runs)
    requires !c.Closed? && Fits(c, r) && RunsFor(run, accepts) && mem == Received(c, r.(total := 0))
    requires n == Offset(c) + |r.chunk| && c' == After(run(mem, 0, n), r) && RoomIsMade(c', mem, n, beyond)
    ensures Step(c, r, accepts) == (c', run(mem, 0, n).items)
    ensures RoomIsMade(c', Received(c, r), Offset(c) + |r.chunk|, beyond)
  {
    StepIs(c, r, accepts, run);
    assert Received(c, r) == mem;
  }

  /** A run rewrites nothing from a cut frame on. */
  ghost predicate Leaves(o: Outcome<byte, Frame>, mem: seq<byte>, n: nat)
    requires n <= |mem|
  {
    |o.mem| == |mem| && o.left <= n && (!o.stopped ==> o.mem[n - o.left..] == mem[n - o.left..])
  }

  lemma RunOverLeaves(mem: seq<byte>, n: nat, accepts: Accepts)
    requires n <= |mem|
    ensures Leaves(Run(mem, 0, n, accepts), mem, n)
  {
    ReaderIsStable();
    RunEnds(mem, 0, n, First, Unmasked, StopsFor(accepts));
  }

  lemma RunLeaves(run: Runs, mem: seq<byte>, n: nat, accepts: Accepts)
    requires RunsFor(run, accepts) && n <= |mem|
    ensures Leaves(run(mem, 0, n), mem, n)
  {
    RunOverLeaves(mem, n, accepts);
    assert RunsAt(run, mem, 0, n, accepts);
  }

  /** A connection that waits for the rest of a frame has a buffer of the size that the frame seems to have, going by
      the `n` bytes in the buffer before. */
  ghost predicate RoomIsMade(c: Conn<byte>, mem: seq<byte>, n: nat, beyond: seq<byte>) {
    c.Partial? ==>
      n <= |mem| && c.offset <= n && |beyond| >= 14 && |c.data| == SeemingSize(mem, beyond, n - c.offset)
  }

  lemma RoomFor(o: Outcome<byte, Frame>, r: Read<byte>, mem: seq<byte>, n: nat, beyond: seq<byte>, rest: Rest)
    requires n <= |mem| && Leaves(o, mem, n)
    requires |beyond| >= 14 && SizesFor(rest, beyond) && rest.end == n
    requires !o.stopped && o.left > 0 ==> CutLeaves(o, rest, r.total)
    ensures RoomIsMade(After(o, r), mem, n, beyond)
  {
    if !o.stopped && o.left > 0 {
      assert SizeAt(rest, beyond, o.mem, n - o.left);
      SameSeemingSize(o.mem, mem, beyond, n - o.left);
    }
  }

  class Client {
    var data: array?<byte>
    var dataSize: nat
    var offset: nat
    var busy: bool
    var closed: bool
    /** The frames handed to their handlers so far. */
    ghost var dispatched: seq<Frame>

    ghost predicate Valid()
      reads this
    {
      !closed ==>
        && (busy <==> data != null)
        && (data == null ==> dataSize == 0 && offset == 0)
        && (data != null ==> dataSize == data.Length && 0 < offset < dataSize)
    }

    ghost function State(): Conn<byte>
      reads this, data
    {
      if closed then Closed else if data == null then Idle else Partial(data[..], offset)
    }

    constructor ()
      ensures Valid() && State() == Idle && dispatched == []
    {
      data, dataSize, offset, busy, closed := null, 0, 0, false, false;
      dispatched := [];
    }

    /** The header at a place of the buffer; its bytes may be stale, or lie behind the buffer. */
    method ReadHeader(at: nat, beyond: seq<byte>) returns (h: Header)
      requires data != null && at <= data.Length && |beyond| >= MAX_HEADER
      ensures h == HeaderOf((data[..] + beyond)[at..], Server)
    {
      var b := (data[..] + beyond)[at..];
      var len7 := b[1] & 0x7F;
      var masked := b[1] & 0x80 != 0;
      var end := 2;
      if len7 == 126 {
        end := end + 2;
      } else if len7 == 127 {
        end := end + 8;
      }
      if masked {
        end := end + KEY_LEN;
      }
      var length := len7 as nat;
      if len7 == 126 {
        TwoBytes(b);
        length := b[2] as nat * 256 + b[3] as nat;
      } else if len7 == 127 {
        length := b[2] as nat;
      }
      h := Header(b[0] & 0x0F, if masked then Some(end - KEY_LEN) else None, length, end);
    }

    /** Gives the buffer a new size; its bytes are kept as far as they fit. */
    method Realloc(total: nat, fill: nat -> byte)
      requires data != null
      modifies `data, `dataSize
      ensures data != null && fresh(data) && data.Length == dataSize == total
      ensures data[..] == Resized(old(data[..]), total, fill)
    {
      var kept := data[..];
      var bigger := new byte[total](i requires i >= 0 => if i < |kept| then kept[i] else fill(i - |kept|));
      data := bigger;
      dataSize := total;
      assert data[..] == Resized(kept, total, fill);
    }

    /** Unmasks the payload of a frame where it lies, if it is masked. */
    method Unmask(at: nat, h: Header) returns (payload: seq<byte>)
      requires data != null && at + h.offset + h.length <= data.Length
      requires h.key.Some? ==> h.key.value + KEY_LEN <= h.offset
      modifies data
      ensures payload == old(PayloadAt(data[..], at, h)) && |payload| == h.length
      ensures h.key == None ==> forall i | 0 <= i < h.length :: payload[i] == old(data[at + h.offset + i])
      ensures h.key.Some? ==> forall i | 0 <= i < h.length ::
        payload[i] == old(data[at + h.offset + i]) ^ old(data[at + h.key.value + i % 4])
      ensures data[at + h.offset..at + h.offset + h.length] == payload
      ensures data[..at + h.offset] == old(data[..at + h.offset])
      ensures data[at + h.offset + h.length..] == old(data[at + h.offset + h.length..])
    {
      ghost var mem := data[..];
      var from, end := at + h.offset, at + (h.offset + h.length);
      assert mem[from..end] == data[from..end] && mem[..from] == data[..from] && mem[end..] == data[end..];
      if h.key.Some? {
        var k := at + h.key.value;
        var key := data[k..at + (h.key.value + KEY_LEN)];
        assert key == mem[k..at + (h.key.value + KEY_LEN)];
        Mask(data, from, h.length, key);
      }
      payload := data[from..end];
    }

    /** Takes the frame at a place of the buffer, if it is all there; otherwise makes room for it. */
    method TakeFrame(at: nat, n: nat, beyond: seq<byte>, fill: nat -> byte)
      returns (frame: Option<Frame>, totalSize: nat)
      requires data != null && 0 < n && at + n <= data.Length && |beyond| >= MAX_HEADER
      modifies `data, `dataSize, `offset, `busy, data
      ensures data != null
      ensures frame == None ==>
        && busy && offset == n && fresh(data) && data.Length == dataSize == totalSize
        && Cut(old(data[..]), beyond, at, n, totalSize, fill, data[..])
      ensures frame.Some? ==>
        && data == old(data) && unchanged(`dataSize, `offset, `busy)
        && Taken(old(data[..]), at, n, frame.value, totalSize, data[..])
    {
      ghost var mem := data[..];
      var h := ReadHeader(at, beyond);
      totalSize := h.length + h.offset;
      if totalSize > n {
        CutFrame(mem, beyond, at, n, h);
        Realloc(totalSize, fill);
        offset := n;
        busy := true;
        frame := None;
      } else {
        WholeFrame(mem, beyond, at, n, h);
        var payload := Unmask(at, h);
        frame := Some(Frame(h.opcode, payload));
        UnmaskedInBuffer(mem, at, n, frame.value, totalSize, h.offset, data[..]);
      }
    }

    /** Takes a frame as above, and says what that means for the run. */
    method NextFrame(at: nat, n: nat, accepts: Accepts, beyond: seq<byte>, fill: nat -> byte, ghost run: Runs,
                     ghost rest: Rest)
      returns (frame: Option<Frame>, totalSize: nat)
      requires data != null && 0 < n && at + n <= data.Length && |beyond| >= MAX_HEADER && RunsFor(run, accepts)
      requires rest.end == at + n && SizesFor(rest, beyond)
      modifies `data, `dataSize, `offset, `busy, data
      ensures data != null
      ensures frame == None ==>
        && fresh(data) && run(old(data[..]), at, n) == Outcome(old(data[..]), [], false, n)
        && Handled(run(old(data[..]), at, n), false, busy, dataSize, offset, totalSize, fill, data[..], rest)
      ensures frame.Some? ==>
        && data == old(data) && unchanged(`dataSize, `offset, `busy) && 0 < totalSize <= n
        && run(old(data[..]), at, n) ==
           if totalSize < n && !Stops(frame.value, accepts) then
             var inner := run(data[..], at + totalSize, n - totalSize);
             inner.(items := [frame.value] + inner.items)
           else Outcome(data[..], [frame.value], Stops(frame.value, accepts), 0)
    {
      ghost var mem := data[..];
      frame, totalSize := TakeFrame(at, n, beyond, fill);
      if frame == None {
        RunCut(run, mem, beyond, at, n, totalSize, fill, data[..], accepts, rest);
      } else {
        RunTaken(run, mem, at, n, frame.value, totalSize, data[..], accepts);
      }
    }

    /** Handles the frames in `n` bytes from `at` on, one inside the other as the calls go. */
    method WsParse(at: nat, n: nat, accepts: Accepts, beyond: seq<byte>, fill: nat -> byte, ghost run: Runs,
                   ghost rest: Rest)
      returns (disconnect: bool, ghost total: nat)
      requires data != null && 0 < n && at + n <= data.Length && |beyond| >= MAX_HEADER && RunsFor(run, accepts)
      requires rest.end == at + n && SizesFor(rest, beyond)
      modifies this, data
      ensures closed == old(closed) && data != null
      ensures var o := run(old(data[..]), at, n);
        && dispatched == old(dispatched) + o.items
        && Handled(o, disconnect, busy, dataSize, offset, total, fill, data[..], rest)
      ensures if !disconnect && busy then fresh(data) else data == old(data)
      decreases n
    {
      var taken, totalSize := NextFrame(at, n, accepts, beyond, fill, run, rest);
      total := totalSize;
      if taken == None {
        disconnect := false;
      } else {
        var frame := taken.value;
        dispatched := dispatched + [frame];
        var ok := frame.opcode != CLOSE && (frame.opcode == TEXT ==> accepts(frame.payload));
        if totalSize < n && ok {
          ghost var inner := run(data[..], at + totalSize, n - totalSize);
          disconnect, total := WsParse(at + totalSize, n - totalSize, accepts, beyond, fill, run, rest);
          assert old(dispatched) + [frame] + inner.items == old(dispatched) + ([frame] + inner.items);
          HandledMore(inner, frame, disconnect, busy, dataSize, offset, total, fill, data[..], rest);
        } else {
          if frame.opcode != CLOSE {
            busy := false;
          }
          disconnect := !ok;
        }
      }
    }

    /** Puts the bytes received behind those waiting, in a new page if there is no buffer. */
    method Receive(chunk: seq<byte>, ghost r: Read<byte>) returns (n: nat)
      requires Valid() && !closed && 0 < |chunk| <= (if data == null then 4095 else dataSize - offset)
      requires r.chunk == chunk && r.page == Zeros(4096)
      modifies `data, `dataSize, data
      ensures Fits(old(State()), r) && n == Offset(old(State())) + |chunk|
      ensures data != null && (fresh(data) || data == old(data)) && n <= data.Length
        && data[..] == Received(old(State()), r)
    {
      var from := 0;
      if data == null {
        data := new byte[RECV_PAGE](_ => 0);
        dataSize := RECV_PAGE - 1;
        assert data[..] == Zeros(RECV_PAGE);
      } else {
        from := offset;
      }
      ghost var before := data[..];
      assert before[..from] == data[..from] && before[from + |chunk|..] == data[from + |chunk|..];
      Copy(data, from, chunk);
      n := from + |chunk|;
      assert data[..] == data[..n] + data[n..];
    }

    /** Handles the frames in the first `n` bytes and lets the buffer go, unless a frame is cut. */
    method HandleReceived(n: nat, accepts: Accepts, beyond: seq<byte>, fill: nat -> byte, ghost run: Runs)
      returns (ghost total: nat)
      requires data != null && 0 < n <= data.Length && |beyond| >= MAX_HEADER && RunsFor(run, accepts)
      modifies this, data
      ensures Valid()
      ensures var o := run(old(data[..]), 0, n);
        && dispatched == old(dispatched) + o.items
        && (forall r: Read<byte> | r.total == total && r.fill == fill :: State() == After(o, r))
        && RoomIsMade(State(), old(data[..]), n, beyond)
    {
      ghost var mem, o := data[..], run(data[..], 0, n);
      ghost var rest := Rest(n, (m: seq<byte>, a: nat) => if a <= |m| then SeemingSize(m, beyond, a) else 0);
      assert SizesFor(rest, beyond);
      RunLeaves(run, mem, n, accepts);
      closed, total := WsParse(0, n, accepts, beyond, fill, run, rest);
      forall r: Read<byte> | r.total == total && r.fill == fill
        ensures After(o, r) == if closed then Closed else if busy then Partial(data[..], offset) else Idle
        ensures !closed && busy ==> 0 < offset < data.Length == dataSize
      {
        HandledState(o, r, closed, busy, dataSize, offset, data[..], rest);
      }
      HandledState(o, Read([], [], total, fill), closed, busy, dataSize, offset, data[..], rest);
      RoomFor(o, Read([], [], total, fill), mem, n, beyond, rest);
      if !closed && !busy {
        data := null;
        dataSize := 0;
        offset := 0;
      }
    }

    /** Reads what the socket has, at most as much as there is room for, and handles the frames in it. A buffer
        is kept only for a cut frame. */
    method ReadClient(chunk: seq<byte>, accepts: Accepts, beyond: seq<byte>, fill: nat -> byte)
      returns (ghost total: nat)
      requires Valid() && !closed && |beyond| >= MAX_HEADER
      requires |chunk| <= (if data == null then 4095 else dataSize - offset)
      modifies this, data
      ensures Valid()
      ensures chunk == [] ==> closed && dispatched == old(dispatched)
      ensures chunk != [] ==>
        var r := Read(chunk, Zeros(4096), total, fill);
        && Fits(old(State()), r)
        && State() == Step(old(State()), r, accepts).0
        && dispatched == old(dispatched) + Step(old(State()), r, accepts).1
        && RoomIsMade(State(), Received(old(State()), r), Offset(old(State())) + |chunk|, beyond)
    {
      if chunk == [] {
        closed := true;
        return 0;
      }
      ghost var c, run: Runs := State(), (m: seq<byte>, a: nat, k: nat) => Run(m, a, k, accepts);
      assert RunsFor(run, accepts);
      var n := Receive(chunk, Read(chunk, Zeros(RECV_PAGE), 0, fill));
      ghost var mem := data[..];
      total := HandleReceived(n, accepts, beyond, fill, run);
      ghost var r := Read(chunk, Zeros(RECV_PAGE), total, fill);
      ReadIs(c, State(), r, mem, n, accepts, beyond, run);
    }
  }
}
