/** GVSP packets byte by byte: the header accessors of capture/include/capture/gvsp.h. */
module GvspPacket {

  type Byte = n: int | 0 <= n < 256

  // ----- byte order -----

  function BigEndian(s: seq<Byte>): nat {
    if s == [] then 0 else BigEndian(s[..|s| - 1]) * 256 + s[|s| - 1]
  }

  /** The `n` low bytes of `v`, most significant first. */
  function Bytes(n: nat, v: nat): (s: seq<Byte>)
    ensures |s| == n
  {
    if n == 0 then [] else Bytes(n - 1, v / 256) + [v % 256]
  }

  function Reversed(s: seq<Byte>): (r: seq<Byte>)
    ensures |r| == |s|
    ensures forall k :: 0 <= k < |s| ==> r[k] == s[|s| - 1 - k]
  {
    seq(|s|, k requires 0 <= k < |s| => s[|s| - 1 - k])
  }

  function LittleEndian(s: seq<Byte>): nat { BigEndian(Reversed(s)) }

  function Power256(n: nat): (p: nat)
    ensures p > 0
  {
    if n == 0 then 1 else Power256(n - 1) * 256
  }

  /** Writing a number and reading it back. */
  lemma {:induction false} NumberRoundTrip(n: nat, v: nat)
    requires v < Power256(n)
    ensures BigEndian(Bytes(n, v)) == v
  {
    if n > 0 {
      NumberRoundTrip(n - 1, v / 256);
      assert Bytes(n, v)[..n - 1] == Bytes(n - 1, v / 256);
    }
  }

  /** Reading bytes and writing them back. */
  lemma {:induction false} BytesRoundTrip(s: seq<Byte>)
    ensures BigEndian(s) < Power256(|s|)
    ensures Bytes(|s|, BigEndian(s)) == s
  {
    if s != [] {
      var front := s[..|s| - 1];
      BytesRoundTrip(front);
      assert s == front + [s[|s| - 1]];
    }
  }

  lemma ReversedTwice(s: seq<Byte>)
    ensures Reversed(Reversed(s)) == s
  { }

  /** Different bytes are different numbers, in either order. */
  lemma NumbersAreInjective(a: seq<Byte>, b: seq<Byte>)
    requires |a| == |b|
    ensures BigEndian(a) == BigEndian(b) <==> a == b
    ensures LittleEndian(a) == LittleEndian(b) <==> a == b
  {
    hide BigEndian, Bytes;
    BytesRoundTrip(a);
    BytesRoundTrip(b);
    BytesRoundTrip(Reversed(a));
    BytesRoundTrip(Reversed(b));
    ReversedTwice(a);
    ReversedTwice(b);
  }

  // ----- the accessors -----

  /** The longest header; the receive buffer is longer. */
  const EXTENDED_DATA := 20
  const STANDARD_DATA := 8

  type Packet = p: seq<Byte> | |p| >= EXTENDED_DATA witness seq(20, _ => 0)

  const PACKET_TYPE_ERROR := 0x0080
  const CONTENT_LEADER := 1
  const CONTENT_TRAILER := 2
  const CONTENT_BLOCK := 3

  function PacketType(p: Packet): nat { BigEndian(p[0..2]) }

  predicate IsError(p: Packet) { PacketType(p) == PACKET_TYPE_ERROR }

  predicate HasExtendedIds(p: Packet) { p[4] / 128 == 1 }

  /** packet_info is at the same place in both headers. */
  function PacketInfo(p: Packet): nat { BigEndian(p[4..8]) }

  function ContentType(p: Packet): nat { PacketInfo(p) / 0x1_00_0000 % 128 }

  function PacketId(p: Packet): nat {
    if HasExtendedIds(p) then BigEndian(p[16..20]) else PacketInfo(p) % 0x1_00_0000
  }

  /** The extended id is not converted from network order; the host is little-endian. */
  function FrameId(p: Packet): nat {
    if HasExtendedIds(p) then LittleEndian(p[8..16]) else BigEndian(p[2..4])
  }

  function DataStart(p: Packet): (n: nat)
    ensures n <= |p|
  {
    if HasExtendedIds(p) then EXTENDED_DATA else STANDARD_DATA
  }

  function Data(p: Packet): seq<Byte> { p[DataStart(p)..] }

  /** The size the code copies: it is taken from the size of the receive buffer, not of the datagram. */
  function DataSize(p: Packet, packetSize: nat): int {
    packetSize - DataStart(p)
  }

  // ----- the accessors read exactly the header -----

  datatype Header =
    | Standard(status: nat, blockId: nat, content: nat, id24: nat)
    | Extended(status: nat, flags: nat, content: nat, reserved: nat, blockId64: nat, id32: nat)

  ghost predicate InRange(h: Header) {
    match h
    case Standard(status, blockId, content, id24) =>
      status < 0x1_0000 && blockId < 0x1_0000 && content < 128 && id24 < 0x100_0000
    case Extended(status, flags, content, reserved, blockId64, id32) =>
      && status < 0x1_0000 && flags < 0x1_0000 && content < 128 && reserved < 0x100_0000
      && blockId64 < 0x1_0000_0000_0000_0000 && id32 < 0x1_0000_0000
  }

  /** The header on the wire, every number in network order. */
  ghost function Encode(h: Header): (s: seq<Byte>)
    ensures |s| == if h.Standard? then STANDARD_DATA else EXTENDED_DATA
  {
    match h
    case Standard(status, blockId, content, id24) =>
      Bytes(2, status) + Bytes(2, blockId) + Bytes(1, content) + Bytes(3, id24)
    case Extended(status, flags, content, reserved, blockId64, id32) =>
      Bytes(2, status) + Bytes(2, flags) + Bytes(1, 128 + content) + Bytes(3, reserved)
      + Bytes(8, blockId64) + Bytes(4, id32)
  }

  ghost function Decode(p: Packet): Header {
    if HasExtendedIds(p) then
      Extended(PacketType(p), BigEndian(p[2..4]), ContentType(p), PacketInfo(p) % 0x1_00_0000,
               BigEndian(p[8..16]), PacketId(p))
    else
      Standard(PacketType(p), FrameId(p), ContentType(p), PacketId(p))
  }

  lemma InfoBytes(p: Packet)
    ensures BigEndian(p[5..8]) < 0x100_0000
    ensures ContentType(p) == p[4] % 128
    ensures PacketInfo(p) % 0x100_0000 == BigEndian(p[5..8])
  {
    var a, b := p[4..8], p[5..8];
    var b4: int, b5: int, b6: int := p[4], p[5], p[6];
    assert a[..3][..2][..1] == p[4..5] && a[..3][..2] == p[4..6] && a[..3] == p[4..7];
    assert b[..2] == p[5..7] && b[..2][..1] == p[5..6];
    assert BigEndian(p[4..5]) == p[4];
    assert BigEndian(p[4..6]) == b4 * 256 + b5;
    assert BigEndian(p[4..7]) == b4 * 0x1_0000 + b5 * 256 + b6;
    assert BigEndian(p[5..6]) == p[5];
    assert BigEndian(p[5..7]) == b5 * 256 + b6;
  }

  /** Every accessor returns the field that was sent, except that a 64-bit block id comes out with its bytes
      reversed. */
  lemma AccessorsReadHeader(h: Header, data: seq<Byte>)
    requires InRange(h) && |Encode(h) + data| >= EXTENDED_DATA
    ensures var p: Packet := Encode(h) + data;
            && Decode(p) == h && Data(p) == data
            && FrameId(p) == if h.Standard? then h.blockId else BigEndian(Reversed(Bytes(8, h.blockId64)))
  {
    hide BigEndian, Bytes, Power256;
    var p: Packet := Encode(h) + data;
    InfoBytes(p);
    Powers();
    NumberRoundTrip(2, h.status);
    assert p[0..2] == Bytes(2, h.status);
    match h
    case Standard(status, blockId, content, id24) =>
      OneByte(content);
      NumberRoundTrip(2, blockId);
      NumberRoundTrip(3, id24);
      assert p[2..4] == Bytes(2, blockId) && p[4] == content && p[5..8] == Bytes(3, id24);
    case Extended(status, flags, content, reserved, blockId64, id32) =>
      OneByte(128 + content);
      NumberRoundTrip(2, flags);
      NumberRoundTrip(3, reserved);
      NumberRoundTrip(8, blockId64);
      NumberRoundTrip(4, id32);
      assert p[2..4] == Bytes(2, flags) && p[4] == 128 + content && p[5..8] == Bytes(3, reserved);
      assert p[8..16] == Bytes(8, blockId64) && p[16..20] == Bytes(4, id32);
  }

  lemma OneByte(v: nat)
    requires v < 256
    ensures Bytes(1, v) == [v]
  { }

  lemma Powers()
    ensures Power256(1) == 0x100 && Power256(2) == 0x1_0000 && Power256(3) == 0x100_0000
    ensures Power256(4) == 0x1_0000_0000 && Power256(8) == 0x1_0000_0000_0000_0000
  {
    assert Power256(4) == 0x1_0000_0000;
    assert Power256(6) == 0x1_0000_0000_0000;
  }

  /** Conversely, every packet is its decoded header followed by its data. */
  lemma PacketIsHeaderAndData(p: Packet)
    ensures InRange(Decode(p)) && Encode(Decode(p)) + Data(p) == p
  {
    hide BigEndian, Bytes, Power256;
    InfoBytes(p);
    Powers();
    BytesRoundTrip(p[0..2]);
    BytesRoundTrip(p[2..4]);
    BytesRoundTrip(p[5..8]);
    OneByte(p[4]);
    if HasExtendedIds(p) {
      BytesRoundTrip(p[8..16]);
      BytesRoundTrip(p[16..20]);
    }
  }

  /** Reversing the bytes loses nothing: two extended packets get the same frame id exactly when they carry the same
      block id, so frames are told apart correctly. */
  lemma FrameIdsTellApart(p: Packet, q: Packet)
    requires HasExtendedIds(p) && HasExtendedIds(q)
    ensures FrameId(p) == FrameId(q) <==> Decode(p).blockId64 == Decode(q).blockId64
  {
    NumbersAreInjective(p[8..16], q[8..16]);
  }

  /** For a packet of a frame with block id 1 the code reports 2^56. */
  lemma FrameIdOfOne(data: seq<Byte>)
    ensures var p: Packet := Encode(Extended(0, 0, CONTENT_BLOCK, 0, 1, 0)) + data;
            Decode(p).blockId64 == 1 && FrameId(p) == 0x100_0000_0000_0000
  {
    var h := Extended(0, 0, CONTENT_BLOCK, 0, 1, 0);
    AccessorsReadHeader(h, data);
    BytesOfOne();
  }

  lemma BytesOfOne()
    ensures BigEndian(Reversed(Bytes(8, 1))) == 0x100_0000_0000_0000
  {
    Powers();
    var first, zeros: seq<Byte> := [1], [0, 0, 0, 0, 0, 0, 0];
    assert Bytes(2, 0) == [0, 0];
    assert Bytes(4, 0) == [0, 0, 0, 0];
    assert Bytes(6, 0) == [0, 0, 0, 0, 0, 0];
    assert Bytes(7, 0) == zeros;
    assert Bytes(8, 1) == zeros + first;
    assert Reversed(Bytes(8, 1)) == first + zeros == first + seq(7, _ => 0);
    Shifted(first, 7);
    assert first[..0] == [] && BigEndian(first) == 1;
    assert Power256(7) == 0x100_0000_0000_0000;
  }

  /** A number followed by `n` zero bytes. */
  lemma {:induction false} Shifted(s: seq<Byte>, n: nat)
    ensures BigEndian(s + seq(n, _ => 0)) == BigEndian(s) * Power256(n)
  {
    var all: seq<Byte> := s + seq(n, _ => 0);
    if n == 0 {
      assert all == s;
    } else {
      assert all[..|all| - 1] == s + seq(n - 1, _ => 0);
      Shifted(s, n - 1);
    }
  }

  /** The id the code reports is the one sent if and only if its eight bytes read the same backwards. */
  lemma FrameIdIsSentIff(p: Packet)
    requires HasExtendedIds(p)
    ensures FrameId(p) == Decode(p).blockId64 <==> Reversed(p[8..16]) == p[8..16]
  {
    NumbersAreInjective(Reversed(p[8..16]), p[8..16]);
  }
}
