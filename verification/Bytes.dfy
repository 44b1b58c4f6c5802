/** Byte buffers: masking, byte order and concatenation. */
module Bytes {
  import opened Sequences

  type byte = bv8

  lemma XorTwice(a: byte, k: byte)
    ensures (a ^ k) ^ k == a
  {
  }

  lemma NextByte(b: byte)
    requires b < 255
    ensures (b + 1) as nat == b as nat + 1
  {
  }

  lemma SameByte(b: byte)
    ensures (b as nat) as byte == b
  {
  }

  /** Every small number is that of some byte. */
  lemma {:induction false} ByteOf(n: nat) returns (b: byte)
    requires n < 256
    ensures b as nat == n
  {
    if n == 0 {
      b := 0;
    } else {
      var a := ByteOf(n - 1);
      NextByte(a);
      b := a + 1;
    }
  }

  /** A small number survives being stored in a byte. */
  lemma ByteRoundTrip(n: nat)
    requires n < 256
    ensures (n as byte) as nat == n
  {
    var b := ByteOf(n);
    SameByte(b);
  }

  function Masked(s: seq<byte>, key: seq<byte>): (m: seq<byte>)
    requires key != []
    ensures |m| == |s|
  {
    seq(|s|, i requires 0 <= i < |s| => s[i] ^ key[i % |key|])
  }

  /** Masking twice with the same key gives back the bytes. */
  lemma MaskedTwice(s: seq<byte>, key: seq<byte>)
    requires key != []
    ensures Masked(Masked(s, key), key) == s
  {
    forall i | 0 <= i < |s|
      ensures Masked(Masked(s, key), key)[i] == s[i]
    {
      XorTwice(s[i], key[i % |key|]);
    }
  }

  /** Masks a stretch of a buffer in place. */
  method Mask(buf: array<byte>, at: nat, len: nat, key: seq<byte>)
    requires at + len <= buf.Length && key != []
    modifies buf
    ensures buf[at..at + len] == Masked(old(buf[at..at + len]), key)
    ensures forall i | 0 <= i < len :: buf[at + i] == old(buf[at + i]) ^ key[i % |key|]
    ensures buf[..at] == old(buf[..at]) && buf[at + len..] == old(buf[at + len..])
  {
    for i := 0 to len
      invariant forall j | 0 <= j < i :: buf[at + j] == old(buf[at + j]) ^ key[j % |key|]
      invariant forall j | 0 <= j < buf.Length && !(at <= j < at + i) :: buf[j] == old(buf[j])
    {
      buf[at + i] := buf[at + i] ^ key[i % |key|];
    }
  }

  function Reversed(s: seq<byte>): (r: seq<byte>)
    ensures |r| == |s|
    ensures forall i | 0 <= i < |s| :: r[i] == s[|s| - 1 - i]
  {
    seq(|s|, i requires 0 <= i < |s| => s[|s| - 1 - i])
  }

  /** Copies the first `n` bytes in the opposite order. */
  method SwpCpy(dest: array<byte>, src: seq<byte>, n: nat)
    requires n <= dest.Length && n <= |src|
    modifies dest
    ensures dest[..n] == Reversed(src[..n]) && dest[n..] == old(dest[n..])
  {
    for i := 0 to n
      invariant forall j | 0 <= j < i :: dest[j] == src[n - 1 - j]
      invariant forall j | i <= j < dest.Length :: dest[j] == old(dest[j])
    {
      dest[i] := src[n - 1 - i];
    }
  }

  /** The low `k` bytes of a number in memory order, least significant first. */
  function LittleEndian(n: nat, k: nat): (s: seq<byte>)
    ensures |s| == k
  {
    if k == 0 then [] else [(n % 256) as byte] + LittleEndian(n / 256, k - 1)
  }

  /** The number that bytes in network order, most significant first, stand for. */
  function FromNetwork(s: seq<byte>): nat {
    if s == [] then 0 else 256 * FromNetwork(s[..|s| - 1]) + s[|s| - 1] as nat
  }

  function Pow256(k: nat): nat {
    if k == 0 then 1 else 256 * Pow256(k - 1)
  }

  /** A number written in network order by reversing its memory image reads back, if it fits. */
  lemma {:induction false} NetworkRoundTrip(n: nat, k: nat)
    requires n < Pow256(k)
    ensures FromNetwork(Reversed(LittleEndian(n, k))) == n
  {
    if k > 0 {
      var s := LittleEndian(n, k);
      var r := Reversed(s);
      assert r[..k - 1] == Reversed(LittleEndian(n / 256, k - 1));
      NetworkRoundTrip(n / 256, k - 1);
      ByteRoundTrip(n % 256);
    }
  }

  /** Copies buffers one behind the other into a new one. */
  method CombineBuffers(iov: seq<seq<byte>>) returns (buffer: array<byte>)
    ensures fresh(buffer) && buffer[..] == Flatten(iov)
  {
    var size := 0;
    for i := 0 to |iov|
      invariant size == |Flatten(iov[..i])|
    {
      FlattenSnoc(iov[..i], iov[i]);
      assert iov[..i + 1] == iov[..i] + [iov[i]];
      size := size + |iov[i]|;
    }
    assert iov[..|iov|] == iov;
    buffer := new byte[size](_ => 0);
    var index := 0;
    for i := 0 to |iov|
      invariant index == |Flatten(iov[..i])| <= buffer.Length == |Flatten(iov)|
      invariant buffer[..index] == Flatten(iov[..i])
    {
      FlattenSnoc(iov[..i], iov[i]);
      assert iov[..i + 1] == iov[..i] + [iov[i]];
      FlattenAppend(iov[..i + 1], iov[i + 1..]);
      assert iov == iov[..i + 1] + iov[i + 1..];
      Copy(buffer, index, iov[i]);
      index := index + |iov[i]|;
    }
  }

  method Copy(buffer: array<byte>, at: nat, src: seq<byte>)
    requires at + |src| <= buffer.Length
    modifies buffer
    ensures buffer[..at + |src|] == old(buffer[..at]) + src && buffer[at + |src|..] == old(buffer[at + |src|..])
  {
    for i := 0 to |src|
      invariant buffer[..at + i] == old(buffer[..at]) + src[..i]
      invariant forall j | at + i <= j < buffer.Length :: buffer[j] == old(buffer[j])
    {
      buffer[at + i] := src[i];
    }
  }
}
