/** The fixed RTP header (RFC 3550 section 5.1) as the packetizers write it and the depacketizers read it. */
module Rtp {
  import opened Bytes

  const HEADER_SIZE: nat := 12
  const MTU: nat := 1300

  datatype Codec = Codec(payloadType: nat, ssrc: u32, increment: u32)

  const AV1 := Codec(45, 2, 3000)
  const H264 := Codec(96, 1, 3000)

  function NextSeq(sn: u16): u16 {
    (sn + 1) % 0x1_0000
  }

  function Tick(ts: u32, increment: u32): u32 {
    (ts + increment) % 0x1_0000_0000
  }

  function U32(v: u32): seq<byte> {
    [v / 0x100_0000, v / 0x1_0000 % 256, v / 256 % 256, v % 256]
  }

  /** Version 2, no padding, no extension, no CSRC. */
  function Header(codec: Codec, marker: bool, sn: u16, ts: u32): (h: seq<byte>)
    requires codec.payloadType < 128
    ensures |h| == HEADER_SIZE
  {
    [0x80, (if marker then 128 else 0) + codec.payloadType] + Be16(sn) + U32(ts) + U32(codec.ssrc)
  }

  function CsrcCount(p: seq<byte>): nat
    requires |p| >= HEADER_SIZE
  {
    p[0] % 16
  }

  predicate Extended(p: seq<byte>)
    requires |p| >= HEADER_SIZE
  {
    p[0] / 16 % 2 == 1
  }

  predicate Padded(p: seq<byte>)
    requires |p| >= HEADER_SIZE
  {
    p[0] / 32 % 2 == 1
  }

  predicate Marker(p: seq<byte>)
    requires |p| >= HEADER_SIZE
  {
    p[1] >= 128
  }

  function Seq(p: seq<byte>): u16
    requires |p| >= HEADER_SIZE
  {
    var high: int := p[2];
    high * 256 + p[3]
  }

  /** A 32-bit field, as its reader puts it together. */
  function UnU32(p: seq<byte>, at: nat): int
    requires at + 4 <= |p|
  {
    var (a: int, b: int, c: int) := (p[at], p[at + 1], p[at + 2]);
    a * 0x100_0000 + b * 0x1_0000 + c * 0x100 + p[at + 3]
  }

  lemma U32Back(p: seq<byte>, at: nat, v: u32)
    requires at + 4 <= |p| && p[at..at + 4] == U32(v)
    ensures UnU32(p, at) == v
  {
    var w := p[at..at + 4];
    assert w[0] == p[at] && w[1] == p[at + 1] && w[2] == p[at + 2] && w[3] == p[at + 3];
    FourBytes(v);
  }

  lemma FourBytes(v: u32)
    ensures v / 0x100_0000 * 0x100_0000 + v / 0x1_0000 % 256 * 0x1_0000 + v / 256 % 256 * 0x100 + v % 256 == v
  {
    var q := v / 0x1_0000;
    assert v / 0x100_0000 == q / 256;
    assert v == 0x1_0000 * q + v % 0x1_0000;
  }

  lemma HeaderReadsBack(codec: Codec, marker: bool, sn: u16, ts: u32, body: seq<byte>)
    requires codec.payloadType < 128
    ensures var p := Header(codec, marker, sn, ts) + body;
            CsrcCount(p) == 0 && !Extended(p) && !Padded(p) &&
            Marker(p) == marker && Seq(p) == sn
    ensures var p := Header(codec, marker, sn, ts) + body;
            p[0] / 64 == 2 && p[1] % 128 == codec.payloadType && UnU32(p, 4) == ts && UnU32(p, 8) == codec.ssrc && p[12..] == body
  {
    var p := Header(codec, marker, sn, ts) + body;
    assert p[0] == 0x80;
    assert p[2] == sn / 256 && p[3] == sn % 256;
    U32Back(p, 4, ts);
    U32Back(p, 8, codec.ssrc);
  }
}
