/** WebSocket frames: how the server writes them, how it reads them, and how section 5.2 of RFC 6455 does. */
module WebSocketFrame {
  import opened Sequences
  import opened Bytes

  const TEXT: byte := 0x1
  const CLOSE: byte := 0x8
  const PING: byte := 0x9
  const PONG: byte := 0xA

  const KEY_LEN: nat := 4
  const UINT16_MAX: nat := 65535
  /** One more than the largest length that eight bytes hold. */
  const U64: nat := 0x1_0000_0000_0000_0000
  /** No header is longer: two bytes, eight for the length, four for the key. */
  const MAX_HEADER: nat := 14

  datatype Frame = Frame(opcode: byte, payload: seq<byte>)

  /** Who interprets the 64-bit length: the server takes its first byte only. */
  datatype Reader = Server | Rfc

  datatype Header = Header(opcode: byte, key: Option<nat>, length: nat, offset: nat)

  // ---- Reading ----

  function ExtensionLength(len7: byte): nat {
    if len7 == 126 then 2 else if len7 == 127 then 8 else 0
  }

  /** The header that starts these bytes: opcode, place of the key if masked, payload length, header length. */
  function HeaderOf(b: seq<byte>, reader: Reader): (h: Header)
    requires |b| >= MAX_HEADER
    ensures 2 <= h.offset <= MAX_HEADER
    ensures h.key.Some? ==> h.key.value == h.offset - KEY_LEN && h.key.value >= 2
  {
    var len7 := b[1] & 0x7F;
    var masked := b[1] & 0x80 != 0;
    var offset := 2 + ExtensionLength(len7) + if masked then KEY_LEN else 0;
    var length :=
      if len7 == 126 then FromNetwork(b[2..4])
      else if len7 == 127 then (if reader.Rfc? then FromNetwork(b[2..10]) else b[2] as nat)
      else len7 as nat;
    Header(b[0] & 0x0F, if masked then Some(offset - KEY_LEN) else None, length, offset)
  }

  /** The length of the header that starts these bytes: their second byte says it. */
  function HeaderLength(b1: byte): (n: nat)
    ensures 2 <= n <= 14
  {
    (if b1 & 0x7F == 127 then 10 else if b1 & 0x7F == 126 then 4 else 2) + (if b1 & 0x80 == 0 then 0 else 4)
  }

  /** The number of payload bytes that the server takes a header to announce. */
  function Announced(b: seq<byte>): nat
    requires |b| >= 4
  {
    match b[1] & 0x7F
    case 126 => 256 * b[2] as nat + b[3] as nat
    case 127 => b[2] as nat
    case n => n as nat
  }

  lemma TwoBytes(b: seq<byte>)
    requires |b| >= 4
    ensures FromNetwork(b[2..4]) == b[2] as nat * 256 + b[3] as nat
  {
    assert b[2..4][..1] == [b[2]] && [b[2]][..0] == [];
    assert FromNetwork([b[2]]) == b[2] as nat;
  }

  /** The header that the server reads, in numbers. */
  lemma ServerHeader(b: seq<byte>)
    requires |b| >= 14
    ensures var h := HeaderOf(b, Server);
      && h.opcode == b[0] & 0x0F && h.length == Announced(b) && h.offset == HeaderLength(b[1])
      && h.key == if b[1] & 0x80 == 0 then None else Some(HeaderLength(b[1]) - 4)
  {
    TwoBytes(b);
  }

  /** The payload of a frame at a place of some memory. */
  function PayloadAt(mem: seq<byte>, at: nat, h: Header): seq<byte>
    requires at + h.offset + h.length <= |mem| && (h.key.Some? ==> h.key.value + KEY_LEN <= h.offset)
  {
    var raw := mem[at + h.offset..at + (h.offset + h.length)];
    match h.key
    case None => raw
    case Some(k) => Masked(raw, mem[at + k..at + (k + KEY_LEN)])
  }

  /** The frame that starts these bytes if the first `n` of them hold all of it, and its size. */
  function FrameOf(b: seq<byte>, n: nat, reader: Reader): (f: Option<(Frame, nat)>)
    requires n + MAX_HEADER <= |b|
    ensures f.Some? ==> 2 <= f.value.1 <= n
  {
    var h := HeaderOf(b, reader);
    var size := h.length + h.offset;
    if size > n then None else Some((Frame(h.opcode, PayloadAt(b, 0, h)), size))
  }

  // ---- Writing ----

  function Length7(len: nat): byte {
    if len >= UINT16_MAX then 127 else if len >= 126 then 126 else len as byte
  }

  /** The length behind the first two bytes: two or eight bytes of the memory image, reversed. */
  function Extension(len: nat): seq<byte> {
    var image := LittleEndian(len, 8);
    if len >= UINT16_MAX then Reversed(image) else if len >= 126 then Reversed(image[..2]) else []
  }

  function KeyBytes(key: Option<seq<byte>>): seq<byte> {
    match key case None => [] case Some(k) => k
  }

  function Body(payload: seq<byte>, key: Option<seq<byte>>): (body: seq<byte>)
    requires key.Some? ==> |key.value| == KEY_LEN
    ensures |body| == |payload|
  {
    match key case None => payload case Some(k) => Masked(payload, k)
  }

  /** A final frame from its parts. */
  function WireOf(opcode: byte, len7: byte, extension: seq<byte>, payload: seq<byte>,
                  key: Option<seq<byte>>): (w: seq<byte>)
    requires key.Some? ==> |key.value| == KEY_LEN
    ensures |w| == 2 + |extension| + |KeyBytes(key)| + |payload|
  {
    [(opcode & 0x0F) | 0x80, len7 | (if key.Some? then 0x80 else 0)] + extension + (KeyBytes(key) + Body(payload, key))
  }

  function Wire(opcode: byte, payload: seq<byte>, key: Option<seq<byte>>): seq<byte>
    requires key.Some? ==> |key.value| == KEY_LEN
  {
    WireOf(opcode, Length7(|payload|), Extension(|payload|), payload, key)
  }

  /** The length field of the second byte and the bytes of a longer length. */
  method WriteLength(len: nat) returns (len7: byte, extension: seq<byte>)
    ensures len7 == Length7(len) && extension == Extension(len)
  {
    len7 := if len < 126 then len as byte else 0;
    extension := [];
    if len >= 126 {
      var image := LittleEndian(len, 8);
      var ext := new byte[8](_ => 0);
      if len >= UINT16_MAX {
        len7 := 127;
        SwpCpy(ext, image, 8);
        assert image[..8] == image;
        extension := ext[..8];
      } else {
        len7 := 126;
        SwpCpy(ext, image, 2);
        extension := ext[..2];
      }
    }
  }

  /** Masks the payload where it lies. */
  method MaskAll(buf: array<byte>, key: seq<byte>)
    requires key != []
    modifies buf
    ensures buf[..] == Masked(old(buf[..]), key)
    ensures forall i | 0 <= i < buf.Length :: buf[i] == old(buf[i]) ^ key[i % |key|]
  {
    Mask(buf, 0, buf.Length, key);
    assert buf[..] == buf[0..0 + buf.Length] && old(buf[..]) == old(buf[0..0 + buf.Length]);
  }

  /** Builds the frame piece by piece and joins the pieces; masking changes the caller's buffer. */
  method SendAdv(opcode: byte, buf: array<byte>, key: Option<seq<byte>>) returns (frame: array<byte>)
    requires key.Some? ==> |key.value| == KEY_LEN
    modifies buf
    ensures fresh(frame) && frame[..] == Wire(opcode, old(buf[..]), key)
    ensures buf[..] == Body(old(buf[..]), key)
    ensures forall i | 0 <= i < buf.Length ::
      buf[i] == if key.Some? then old(buf[i]) ^ key.value[i % 4] else old(buf[i])
  {
    var len := buf.Length;
    var len7, extension := WriteLength(len);
    var head := [(opcode & 0x0F) | 0x80, len7 | (if key.Some? then 0x80 else 0)];
    var iov := [head];
    if len >= 126 {
      iov := iov + [extension];
    }
    if key.Some? {
      iov := iov + [key.value];
      MaskAll(buf, key.value);
    }
    iov := iov + [buf[..]];
    JoinPieces(head, extension, KeyBytes(key), buf[..], len >= 126, key.Some?, iov);
    frame := CombineBuffers(iov);
  }

  lemma JoinPieces(head: seq<byte>, extension: seq<byte>, key: seq<byte>, body: seq<byte>,
                   long: bool, masked: bool, iov: seq<seq<byte>>)
    requires iov == [head] + (if long then [extension] else []) + (if masked then [key] else []) + [body]
    requires !long ==> extension == []
    requires !masked ==> key == []
    ensures Flatten(iov) == head + extension + (key + body)
  {
    FlattenSnoc([head] + (if long then [extension] else []) + (if masked then [key] else []), body);
    var a := [head] + (if long then [extension] else []);
    FlattenOne(head);
    if long {
      FlattenSnoc([head], extension);
    } else {
      assert a == [head];
    }
    if masked {
      FlattenSnoc(a, key);
    } else {
      assert a + [] == a;
    }
    assert Flatten(a) == head + extension;
    assert head + extension + key + body == head + extension + (key + body);
  }

  // ---- Round trips ----

  /** When the server reads a payload length as it was written. */
  predicate ServerCanRead(len: nat) {
    len < UINT16_MAX
  }

  lemma Powers()
    ensures Pow256(0) == 1 && Pow256(1) == 256 && Pow256(2) == 65536 && Pow256(8) == 0x1_0000_0000_0000_0000
  {
    assert Pow256(4) == 0x1_0000_0000;
    assert Pow256(6) == 0x1_0000_0000_0000;
  }

  lemma {:induction false} LittleEndianPrefix(n: nat, k: nat, j: nat)
    requires j <= k
    ensures LittleEndian(n, k)[..j] == LittleEndian(n, j)
  {
    if j > 0 {
      LittleEndianPrefix(n / 256, k - 1, j - 1);
    }
  }

  lemma ExtensionReads(len: nat)
    requires len < U64
    ensures |Extension(len)| == ExtensionLength(Length7(len)) <= 8
    ensures len >= 126 ==> FromNetwork(Extension(len)) == len
    ensures len < 126 ==> Length7(len) as nat == len
  {
    Powers();
    if len >= UINT16_MAX {
      NetworkRoundTrip(len, 8);
    } else if len >= 126 {
      LittleEndianPrefix(len, 8, 2);
      NetworkRoundTrip(len, 2);
    } else {
      ByteRoundTrip(len);
    }
  }

  lemma HeaderBits(opcode: byte, len7: byte, masked: bool)
    requires len7 <= 127
    ensures ((opcode & 0x0F) | 0x80) & 0x0F == opcode & 0x0F
    ensures (len7 | (if masked then 0x80 else 0)) & 0x7F == len7
    ensures (len7 | (if masked then 0x80 else 0)) & 0x80 != 0 <==> masked
  {
  }

  lemma Slices(a: seq<byte>, e: seq<byte>, k: seq<byte>, p: seq<byte>, post: seq<byte>)
    ensures var b := a + e + (k + p) + post; var o := |a| + |e| + |k|;
      && b[..|a|] == a && b[|a|..|a| + |e|] == e && b[|a| + |e|..o] == k && b[o..o + |p|] == p
  {
  }

  /** A length as its form says: in the second byte or in the bytes behind. */
  function LengthIn(len7: byte, extension: seq<byte>, reader: Reader): nat
    requires |extension| == ExtensionLength(len7)
  {
    if len7 == 126 then FromNetwork(extension)
    else if len7 == 127 then (if reader.Rfc? then FromNetwork(extension) else extension[0] as nat)
    else len7 as nat
  }

  lemma LengthReads(len: nat, reader: Reader)
    requires len < U64
    ensures |Extension(len)| == ExtensionLength(Length7(len)) && Length7(len) <= 127
    ensures var l := LengthIn(Length7(len), Extension(len), reader);
      if reader.Rfc? || ServerCanRead(len) then l == len else l < 256
  {
    ExtensionReads(len);
  }

  /** A header from its pieces: the fields of the first two bytes and the bytes of a longer length. */
  lemma HeaderFromFields(b: seq<byte>, op: byte, len7: byte, masked: bool, extension: seq<byte>, reader: Reader)
    requires |b| >= MAX_HEADER && |extension| == ExtensionLength(len7)
    requires b[0] & 0x0F == op && b[1] & 0x7F == len7 && (b[1] & 0x80 != 0 <==> masked)
    requires b[2..2 + |extension|] == extension
    ensures var e := |extension|;
      HeaderOf(b, reader) == Header(op, if masked then Some(2 + e) else None, LengthIn(len7, extension, reader),
                                    2 + e + (if masked then KEY_LEN else 0))
  {
    if len7 == 127 {
      assert b[2] == extension[0];
    }
  }

  /** A frame from its pieces. */
  lemma FrameFromPieces(b: seq<byte>, n: nat, reader: Reader, h: Header, payload: seq<byte>, key: Option<seq<byte>>)
    requires key.Some? ==> |key.value| == KEY_LEN
    requires n + MAX_HEADER <= |b| && HeaderOf(b, reader) == h && (h.key.Some? <==> key.Some?)
    requires h.offset + |payload| <= n && b[h.offset..h.offset + |payload|] == Body(payload, key)
    requires key.Some? ==> b[h.offset - KEY_LEN..h.offset] == key.value
    ensures h.length == |payload| ==> FrameOf(b, n, reader) == Some((Frame(h.opcode, payload), h.offset + |payload|))
    ensures h.length < |payload| ==> FrameOf(b, n, reader).Some? && FrameOf(b, n, reader).value.1 < h.offset + |payload|
  {
    if key.Some? {
      MaskedTwice(payload, key.value);
    }
  }

  /** These bytes start with the pieces of a frame. */
  ghost predicate StartsWith(b: seq<byte>, op: byte, len7: byte, extension: seq<byte>, payload: seq<byte>,
                             key: Option<seq<byte>>)
    requires key.Some? ==> |key.value| == KEY_LEN
  {
    var e := 2 + |extension|;
    var o := e + |KeyBytes(key)|;
    && |extension| == ExtensionLength(len7) && o + |payload| + MAX_HEADER <= |b|
    && b[0] & 0x0F == op && b[1] & 0x7F == len7 && (b[1] & 0x80 != 0 <==> key.Some?)
    && b[2..e] == extension && b[e..o] == KeyBytes(key) && b[o..o + |payload|] == Body(payload, key)
  }

  /** Bytes that start with these pieces are read as a frame, in full exactly if their length is. */
  lemma PiecesRead(b: seq<byte>, n: nat, op: byte, len7: byte, extension: seq<byte>, payload: seq<byte>,
                   key: Option<seq<byte>>, reader: Reader)
    requires key.Some? ==> |key.value| == KEY_LEN
    requires StartsWith(b, op, len7, extension, payload, key)
    requires 2 + |extension| + |KeyBytes(key)| + |payload| <= n && n + MAX_HEADER <= |b|
    requires LengthIn(len7, extension, reader) <= |payload|
    ensures FrameOf(b, n, reader) == Some((Frame(op, payload), 2 + |extension| + |KeyBytes(key)| + |payload|))
      <==> LengthIn(len7, extension, reader) == |payload|
  {
    HeaderFromFields(b, op, len7, key.Some?, extension, reader);
    FrameFromPieces(b, n, reader, HeaderOf(b, reader), payload, key);
  }

  lemma JoinedPieces(head: seq<byte>, op: byte, len7: byte, extension: seq<byte>, payload: seq<byte>,
                     key: Option<seq<byte>>, post: seq<byte>)
    requires key.Some? ==> |key.value| == KEY_LEN
    requires |head| == 2 && |extension| == ExtensionLength(len7) && |post| >= MAX_HEADER
    requires head[0] & 0x0F == op && head[1] & 0x7F == len7 && (head[1] & 0x80 != 0 <==> key.Some?)
    ensures var b := head + extension + (KeyBytes(key) + Body(payload, key)) + post;
      StartsWith(b, op, len7, extension, payload, key)
  {
    var b := head + extension + (KeyBytes(key) + Body(payload, key)) + post;
    Slices(head, extension, KeyBytes(key), Body(payload, key), post);
    assert b[0] == b[..2][0] && b[1] == b[..2][1];
  }

  lemma WireOfReads(opcode: byte, len7: byte, extension: seq<byte>, payload: seq<byte>, key: Option<seq<byte>>,
                    post: seq<byte>, n: nat, reader: Reader)
    requires key.Some? ==> |key.value| == KEY_LEN
    requires |post| >= MAX_HEADER && len7 <= 127 && |extension| == ExtensionLength(len7)
    requires LengthIn(len7, extension, reader) <= |payload|
    requires var w := WireOf(opcode, len7, extension, payload, key); |w| <= n && n + MAX_HEADER <= |w| + |post|
    ensures var w := WireOf(opcode, len7, extension, payload, key);
      FrameOf(w + post, n, reader) == Some((Frame(opcode & 0x0F, payload), |w|))
      <==> LengthIn(len7, extension, reader) == |payload|
  {
    HeaderBits(opcode, len7, key.Some?);
    var head := [(opcode & 0x0F) | 0x80, len7 | (if key.Some? then 0x80 else 0)];
    JoinedPieces(head, opcode & 0x0F, len7, extension, payload, key, post);
    PiecesRead(WireOf(opcode, len7, extension, payload, key) + post, n, opcode & 0x0F, len7, extension, payload, key,
      reader);
  }

  /** A written frame, for any opcode, payload and key, reads back under the standard, and at the server
      exactly when the payload is shorter than 65535 bytes: from there on the length takes eight bytes, of
      which the server reads the first. */
  lemma WireReadsBack(opcode: byte, payload: seq<byte>, key: Option<seq<byte>>, post: seq<byte>, n: nat, reader: Reader)
    requires key.Some? ==> |key.value| == 4
    requires |payload| < 0x1_0000_0000_0000_0000 && |post| >= 14
    requires var w := Wire(opcode, payload, key); |w| <= n && n + 14 <= |w| + |post|
    ensures FrameOf(Wire(opcode, payload, key) + post, n, reader)
        == Some((Frame(opcode & 0x0F, payload), |Wire(opcode, payload, key)|))
      <==> (reader.Rfc? || |payload| < 65535)
  {
    LengthReads(|payload|, reader);
    WireOfReads(opcode, Length7(|payload|), Extension(|payload|), payload, key, post, n, reader);
  }

  /** The server and the standard agree on a header unless it announces eight length bytes that are not zero. */
  lemma ServerLengthIff(b: seq<byte>)
    requires |b| >= MAX_HEADER
    ensures HeaderOf(b, Server) == HeaderOf(b, Rfc) <==> (b[1] & 0x7F == 127 ==> FromNetwork(b[2..10]) == 0)
  {
    var s := b[2..10];
    FirstByte(s);
    assert s[0] == b[2];
  }

  /** A number in network order equals its first byte only if it is zero. */
  lemma {:induction false} FirstByte(s: seq<byte>)
    requires s != []
    ensures FromNetwork(s) >= s[0] as nat
    ensures |s| > 1 && FromNetwork(s) == s[0] as nat ==> FromNetwork(s) == 0
    ensures FromNetwork(s) == 0 ==> s[0] == 0
  {
    if |s| > 1 {
      FirstByte(s[..|s| - 1]);
    }
  }

  /** The shortest of the three length forms, as section 5.2 of RFC 6455 demands. */
  function ShortestForm(len: nat): byte {
    if len < 126 then len as byte else if len < 65536 then 126 else 127
  }

  /** The server uses the shortest form for every length but 65535. */
  lemma ShortestFormIff(len: nat)
    ensures Length7(len) == ShortestForm(len) <==> len != 65535
  {
  }
}
