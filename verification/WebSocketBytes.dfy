/** What the bytes of a frame mean, byte by byte: the frames the server reads, those it writes, and when a connection
    is closed. */
module WebSocketBytes {
  import opened Sequences
  import opened Bytes
  import opened WebSocketFrame
  import opened StreamParser
  import opened WebSocketStream

  // ---- Reading ----

  lemma HeaderInside(s: seq<byte>)
    ensures var b := s + Zeros(MAX_HEADER); var h := HeaderOf(b, Server);
      && b[..|s|] == s
      && (|s| >= 2 ==>
            && h.opcode == s[0] & 0x0F && h.offset == HeaderLength(s[1])
            && h.key == if s[1] & 0x80 == 0 then None else Some(HeaderLength(s[1]) - 4))
      && (|s| >= 4 ==> h.length == Announced(s))
      && (|s| >= 2 && s[1] & 0x7F < 126 ==> h.length == (s[1] & 0x7F) as nat)
  {
    ServerHeader(s + Zeros(MAX_HEADER));
  }

  /** The first frame is all there if and only if its header and the payload that it announces are. */
  lemma FirstIff(s: seq<byte>)
    ensures First(s).Item? <==>
      && |s| >= 2
      && var b1 := s[1] & 0x7F;
         var header := (if b1 == 126 then 4 else if b1 == 127 then 10 else 2) + (if s[1] & 0x80 == 0 then 0 else 4);
         && |s| >= header
         && |s| >= header + if b1 == 126 then 256 * s[2] as nat + s[3] as nat
                            else if b1 == 127 then s[2] as nat else b1 as nat
  {
    HeaderInside(s);
  }

  lemma PayloadBytes(b: seq<byte>, s: seq<byte>, h: Header, masked: bool)
    requires |s| <= |b| && b[..|s|] == s && 4 <= h.offset + (if masked then 0 else 4) && h.offset + h.length <= |s|
    requires h.key == if masked then Some(h.offset - 4) else None
    ensures |PayloadAt(b, 0, h)| == h.length
    ensures forall i | 0 <= i < h.length ::
      PayloadAt(b, 0, h)[i] == if masked then s[h.offset + i] ^ s[h.offset - 4 + i % 4] else s[h.offset + i]
  {
    SliceOfPrefix(b, s, |s|, 0, |s|);
  }

  lemma FirstFromHeader(s: seq<byte>, h: Header, masked: bool)
    requires First(s).Item? && h == HeaderOf(s + Zeros(MAX_HEADER), Server)
    requires h.key == if masked then Some(h.offset - 4) else None
    ensures var f := First(s).value;
      && f.opcode == h.opcode && |f.payload| == h.length && First(s).size == h.offset + h.length <= |s|
      && (masked ==> h.offset >= 4)
      && forall i | 0 <= i < h.length ::
           f.payload[i] == if masked then s[h.offset + i] ^ s[h.offset - 4 + i % 4] else s[h.offset + i]
  {
    var b := s + Zeros(MAX_HEADER);
    assert b[..|s|] == s;
    PayloadBytes(b, s, h, masked);
  }

  /** What the first frame is, in the bytes of the stream: `header` bytes, of which the last four are the key if there
      is one, and then the payload, byte by byte under the key. */
  lemma FirstSays(s: seq<byte>)
    requires First(s).Item?
    ensures |s| >= 2
    ensures var b1 := s[1] & 0x7F; var masked := s[1] & 0x80 != 0; var f := First(s).value;
      var header := (if b1 == 126 then 4 else if b1 == 127 then 10 else 2) + (if masked then 4 else 0);
      && header <= |s| && f.opcode == s[0] & 0x0F
      && |f.payload| == (if b1 == 126 then 256 * s[2] as nat + s[3] as nat
                         else if b1 == 127 then s[2] as nat else b1 as nat)
      && First(s).size == header + |f.payload| <= |s|
      && forall i | 0 <= i < |f.payload| ::
           f.payload[i] == if masked then s[header + i] ^ s[header - 4 + i % 4] else s[header + i]
  {
    HeaderInside(s);
    FirstIff(s);
    var h := HeaderOf(s + Zeros(MAX_HEADER), Server);
    FirstFromHeader(s, h, s[1] & 0x80 != 0);
  }

  /** Unmasking a frame where it lies changes its payload to what is dispatched, and nothing else. */
  lemma UnmaskedSays(s: seq<byte>)
    requires First(s).Item?
    ensures var size := First(s).size; var payload := First(s).value.payload; var header := size - |payload|;
      && |Unmasked(s)| == |s| && 0 <= header <= |s|
      && (forall i | 0 <= i < |s| && !(header <= i < size) :: Unmasked(s)[i] == s[i])
      && (forall i | 0 <= i < |payload| :: Unmasked(s)[header + i] == payload[i])
  {
    HeaderInside(s);
  }

  // ---- Writing ----

  /** The number in eight bytes, most significant first. */
  function EightBytesOf(s: seq<byte>): nat
    requires |s| == 8
  {
    0x100000000 * (0x1000000 * s[0] as nat + 0x10000 * s[1] as nat + 0x100 * s[2] as nat + s[3] as nat)
    + 0x1000000 * s[4] as nat + 0x10000 * s[5] as nat + 0x100 * s[6] as nat + s[7] as nat
  }

  lemma EightBytes(s: seq<byte>)
    requires |s| == 8
    ensures FromNetwork(s) == EightBytesOf(s)
  {
    FourBytes(s[..4]);
    assert s[..7][..6] == s[..6] && s[..6][..5] == s[..5] && s[..5][..4] == s[..4];
    assert FromNetwork(s[..5]) == 256 * FromNetwork(s[..4]) + s[4] as nat;
    assert FromNetwork(s[..6]) == 256 * FromNetwork(s[..5]) + s[5] as nat;
    assert FromNetwork(s[..7]) == 256 * FromNetwork(s[..6]) + s[6] as nat;
  }

  lemma FourBytes(s: seq<byte>)
    requires |s| == 4
    ensures FromNetwork(s) == 0x1000000 * s[0] as nat + 0x10000 * s[1] as nat + 0x100 * s[2] as nat + s[3] as nat
  {
    assert s[..3][..2] == s[..2] && s[..2][..1] == s[..1] && s[..1][..0] == [];
    assert FromNetwork(s[..1]) == s[0] as nat;
    assert FromNetwork(s[..2]) == 256 * FromNetwork(s[..1]) + s[1] as nat;
    assert FromNetwork(s[..3]) == 256 * FromNetwork(s[..2]) + s[2] as nat;
  }

  lemma HeadBits(opcode: byte)
    ensures ((opcode & 0x0F) | 0x80) & 0x80 != 0 && ((opcode & 0x0F) | 0x80) & 0x70 == 0
  {
  }

  lemma PlacedOne(w: seq<byte>, at: nat, p: seq<byte>)
    requires at + |p| <= |w| && w[at..at + |p|] == p
    ensures forall i | 0 <= i < |p| :: w[at + i] == p[i]
  {
    forall i | 0 <= i < |p|
      ensures w[at + i] == p[i]
    {
      assert w[at..at + |p|][i] == p[i];
    }
  }

  lemma Placed(a: seq<byte>, e: seq<byte>, k: seq<byte>, p: seq<byte>, w: seq<byte>)
    requires |a| == 2 && w == a + e + (k + p)
    ensures var o := 2 + |e| + |k|;
      && |w| == o + |p| && w[2..2 + |e|] == e && w[2 + |e|..o] == k
      && (forall i | 0 <= i < |p| :: w[o + i] == p[i])
  {
    Slices(a, e, k, p, []);
    assert w + [] == w;
    PlacedOne(w, 2 + |e| + |k|, p);
  }

  /** The length in the bytes behind the first two. */
  lemma ExtensionSays(len: nat)
    requires len < 0x1_0000_0000_0000_0000
    ensures var e := Extension(len);
      && |e| == (if len < 126 then 0 else if len < 65535 then 2 else 8)
      && (|e| == 2 ==> len == 256 * e[0] as nat + e[1] as nat)
      && (|e| == 8 ==> len == EightBytesOf(e))
  {
    var e := Extension(len);
    ExtensionReads(len);
    if len >= 65535 {
      EightBytes(e);
    } else if len >= 126 {
      assert ([0, 0] + e)[2..4] == e;
      TwoBytes([0, 0] + e);
    }
  }

  lemma LengthFieldSays(len: nat)
    ensures Length7(len) <= 127
    ensures Length7(len) as nat == if len < 126 then len else if len < 65535 then 126 else 127
  {
    if len < 126 {
      ByteRoundTrip(len);
    }
  }

  /** The first two bytes of a written frame: a final one, with the reserved bits clear. */
  lemma HeadSays(opcode: byte, payload: seq<byte>, key: Option<seq<byte>>)
    requires key.Some? ==> |key.value| == 4
    ensures var w := Wire(opcode, payload, key); var len := |payload|;
      && |w| >= 2 && w[0] & 0x80 != 0 && w[0] & 0x70 == 0 && w[0] & 0x0F == opcode & 0x0F
      && (w[1] & 0x80 != 0 <==> key.Some?)
      && (w[1] & 0x7F) as nat == if len < 126 then len else if len < 65535 then 126 else 127
  {
    LengthFieldSays(|payload|);
    HeadBits(opcode);
    HeaderBits(opcode, Length7(|payload|), key.Some?);
  }

  lemma WirePlaced(opcode: byte, payload: seq<byte>, key: Option<seq<byte>>, e: seq<byte>, k: seq<byte>, p: seq<byte>)
    requires (key.Some? ==> |key.value| == 4) && e == Extension(|payload|)
    requires k == KeyBytes(key) && p == Body(payload, key)
    ensures var w := Wire(opcode, payload, key); var o := 2 + |e| + |k|;
      |w| == o + |p| && w[2..2 + |e|] == e && w[2 + |e|..o] == k && forall i | 0 <= i < |p| :: w[o + i] == p[i]
  {
    var head := [(opcode & 0x0F) | 0x80, Length7(|payload|) | (if key.Some? then 0x80 else 0)];
    Placed(head, e, k, p, Wire(opcode, payload, key));
  }

  /** Behind them the length is written in network order, unless it fits into seven bits. */
  lemma LengthSays(opcode: byte, payload: seq<byte>, key: Option<seq<byte>>)
    requires (key.Some? ==> |key.value| == 4) && |payload| < 0x1_0000_0000_0000_0000
    ensures var w := Wire(opcode, payload, key); var len := |payload|;
      && (126 <= len < 65535 ==> |w| >= 4 && len == 256 * w[2] as nat + w[3] as nat)
      && (65535 <= len ==> |w| >= 10 && len == EightBytesOf(w[2..10]))
  {
    var e := Extension(|payload|);
    ExtensionSays(|payload|);
    WirePlaced(opcode, payload, key, e, KeyBytes(key), Body(payload, key));
    var w := Wire(opcode, payload, key);
    if |e| == 2 {
      assert w[2..4][0] == w[2] && w[2..4][1] == w[3];
    }
  }

  /** The key stands in front of the payload, which is written byte by byte under the key. */
  lemma PayloadSays(opcode: byte, payload: seq<byte>, key: Option<seq<byte>>, header: nat)
    requires (key.Some? ==> |key.value| == 4) && |payload| < 0x1_0000_0000_0000_0000
    requires header ==
      (if |payload| < 126 then 2 else if |payload| < 65535 then 4 else 10) + (if key.Some? then 4 else 0)
    ensures var w := Wire(opcode, payload, key);
      && |w| == header + |payload|
      && (key.Some? ==> w[header - 4..header] == key.value)
      && forall i | 0 <= i < |payload| ::
           w[header + i] == if key.Some? then payload[i] ^ key.value[i % 4] else payload[i]
  {
    var e, k, p := Extension(|payload|), KeyBytes(key), Body(payload, key);
    ExtensionSays(|payload|);
    WirePlaced(opcode, payload, key, e, k, p);
    var w := Wire(opcode, payload, key);
    forall i | 0 <= i < |payload|
      ensures w[header + i] == if key.Some? then payload[i] ^ key.value[i % 4] else payload[i]
    {
      BodySays(payload, key, i);
      SameByteAt(w, header, 2 + |e| + |k|, p, i);
    }
  }

  lemma SameByteAt(w: seq<byte>, header: nat, o: nat, p: seq<byte>, i: nat)
    requires header == o && i < |p| && o + |p| <= |w| && forall j | 0 <= j < |p| :: w[o + j] == p[j]
    ensures w[header + i] == p[i]
  {
  }

  lemma BodySays(payload: seq<byte>, key: Option<seq<byte>>, i: nat)
    requires (key.Some? ==> |key.value| == 4) && i < |payload|
    ensures Body(payload, key)[i] == if key.Some? then payload[i] ^ key.value[i % 4] else payload[i]
  {
  }

  // ---- Frames written out ----

  /** A masked frame from a client: the text `a`. */
  lemma MaskedLetter()
    ensures First([0x81, 0x81, 0x01, 0x02, 0x03, 0x04, 0x60]) == Item(Frame(0x1, [0x61]), 7)
  {
    var s: seq<byte> := [0x81, 0x81, 0x01, 0x02, 0x03, 0x04, 0x60];
    FirstIff(s);
    FirstSays(s);
    assert First(s).value.payload == [0x61];
  }

  /** The text `Hello` as in section 5.7 of RFC 6455, without and with a key: so the server writes it. */
  lemma HelloIsWritten(hello: seq<byte>, key: seq<byte>)
    requires hello == [0x48, 0x65, 0x6C, 0x6C, 0x6F] && key == [0x37, 0xFA, 0x21, 0x3D]
    ensures Wire(0x1, hello, None) == [0x81, 0x05, 0x48, 0x65, 0x6C, 0x6C, 0x6F]
    ensures Wire(0x1, hello, Some(key)) == [0x81, 0x85, 0x37, 0xFA, 0x21, 0x3D, 0x7F, 0x9F, 0x4D, 0x51, 0x58]
  {
    assert Length7(5) == 5;
    assert Wire(0x1, hello, None) == [0x81, 0x05] + [] + ([] + hello);
    HelloUnderKey(hello, key);
    assert Wire(0x1, hello, Some(key)) == [0x81, 0x85] + [] + (key + Masked(hello, key));
  }

  lemma HelloUnderKey(hello: seq<byte>, key: seq<byte>)
    requires hello == [0x48, 0x65, 0x6C, 0x6C, 0x6F] && key == [0x37, 0xFA, 0x21, 0x3D]
    ensures Masked(hello, key) == [0x7F, 0x9F, 0x4D, 0x51, 0x58]
  {
  }

  /** And so the server reads it. */
  lemma HelloIsRead(plain: seq<byte>, masked: seq<byte>)
    requires plain == [0x81, 0x05, 0x48, 0x65, 0x6C, 0x6C, 0x6F]
    requires masked == [0x81, 0x85, 0x37, 0xFA, 0x21, 0x3D, 0x7F, 0x9F, 0x4D, 0x51, 0x58]
    ensures First(plain) == Item(Frame(0x1, [0x48, 0x65, 0x6C, 0x6C, 0x6F]), 7)
    ensures First(masked) == Item(Frame(0x1, [0x48, 0x65, 0x6C, 0x6C, 0x6F]), 11)
  {
    PlainHello(plain);
    MaskedHello(masked);
  }

  lemma PlainHello(plain: seq<byte>)
    requires plain == [0x81, 0x05, 0x48, 0x65, 0x6C, 0x6C, 0x6F]
    ensures First(plain) == Item(Frame(0x1, [0x48, 0x65, 0x6C, 0x6C, 0x6F]), 7)
  {
    FirstIff(plain);
    FirstSays(plain);
    assert First(plain).value.payload == [0x48, 0x65, 0x6C, 0x6C, 0x6F];
  }

  lemma HelloUnmasked(p: seq<byte>, m: seq<byte>)
    requires m == [0x81, 0x85, 0x37, 0xFA, 0x21, 0x3D, 0x7F, 0x9F, 0x4D, 0x51, 0x58]
    requires |p| == 5 && forall i | 0 <= i < 5 :: p[i] == m[6 + i] ^ m[2 + i % 4]
    ensures p == [0x48, 0x65, 0x6C, 0x6C, 0x6F]
  {
    assert p[0] == m[6] ^ m[2] && p[1] == m[7] ^ m[3] && p[2] == m[8] ^ m[4] && p[3] == m[9] ^ m[5];
    assert p[4] == m[10] ^ m[2 + 4 % 4];
  }

  lemma MaskedHello(m: seq<byte>)
    requires m == [0x81, 0x85, 0x37, 0xFA, 0x21, 0x3D, 0x7F, 0x9F, 0x4D, 0x51, 0x58]
    ensures First(m) == Item(Frame(0x1, [0x48, 0x65, 0x6C, 0x6C, 0x6F]), 11)
  {
    assert m[0] == 0x81 && m[1] == 0x85;
    FirstIff(m);
    FirstSays(m);
    HelloUnmasked(First(m).value.payload, m);
  }

  // ---- When a connection is closed ----

  /** However the bytes come, a connection is closed by a close frame or by a text that is refused, and by nothing else;
      no frame is dispatched after it. */
  lemma ClosedIff(rs: seq<Read<byte>>, accepts: Accepts)
    requires Fair(First) && InPlace(Unmasked)
    ensures var r := RunReads(Idle, rs, First, Unmasked, StopsFor(accepts)); var fs := r.1; var k := |fs| - 1;
      && (r.0.Closed? <==> fs != [] && (fs[k].opcode == 0x8 || (fs[k].opcode == 0x1 && !accepts(fs[k].payload))))
      && forall i | 0 <= i < k :: fs[i].opcode != 0x8 && (fs[i].opcode == 0x1 ==> accepts(fs[i].payload))
  {
    ReadsEnd(Idle, rs, First, Unmasked, StopsFor(accepts));
    var fs := RunReads(Idle, rs, First, Unmasked, StopsFor(accepts)).1;
    forall i | 0 <= i < |fs| - 1
      ensures fs[i].opcode != 0x8 && (fs[i].opcode == 0x1 ==> accepts(fs[i].payload))
    {
      assert !StopsFor(accepts)(fs[i]);
    }
  }

  /** Of the frames a client sends those are handled that come up to the first one that closes. */
  lemma {:induction false} HandledUpToClose(fs: seq<Sent>, accepts: Accepts)
    ensures var u := UpToStop(fs, accepts); var k := |u| - 1;
      && |u| <= |fs|
      && (forall i | 0 <= i < |u| :: u[i].opcode == fs[i].opcode && u[i].payload == fs[i].payload)
      && (forall i | 0 <= i < k :: u[i].opcode != 0x8 && (u[i].opcode == 0x1 ==> accepts(u[i].payload)))
      && (|u| < |fs| ==> k >= 0 && (u[k].opcode == 0x8 || (u[k].opcode == 0x1 && !accepts(u[k].payload))))
    decreases |fs|
  {
    if fs != [] {
      HandledUpToClose(fs[1..], accepts);
    }
  }
}
