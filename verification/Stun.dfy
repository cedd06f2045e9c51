/** STUN messages: written attribute by attribute, walked back, closed and checked (RFC 5389). */
module Stun {
  import opened Bytes
  import Crc32
  import opened Words

  const BUF_SIZE: nat := 256
  const HEADER: nat := 20
  const FINGERPRINT_XOR: bv32 := 0x5354554e

  const USERNAME: u16 := 0x0006
  const MESSAGE_INTEGRITY: u16 := 0x0008
  const REALM: u16 := 0x0014
  const NONCE: u16 := 0x0015
  const XOR_RELAYED_ADDRESS: u16 := 0x0016
  const XOR_MAPPED_ADDRESS: u16 := 0x0020
  const MAPPED_ADDRESS: u16 := 0x0001
  const FINGERPRINT: u16 := 0x8028

  function UnBe16(s: seq<byte>, at: nat): u16
    requires at + 2 <= |s|
  {
    var h: int := s[at];
    h * 256 + s[at + 1]
  }

  /** A length rounded up to whole words. */
  function Pad(n: nat): (p: nat)
    ensures n <= p < n + 4 && p % 4 == 0
  {
    4 * ((n + 3) / 4)
  }

  datatype Attr = Attr(typ: u16, value: seq<byte>)

  // ---- The walk over the attributes ----

  /** What follows an attribute of `n` bytes. */
  function Rest(s: seq<byte>, n: nat): (r: seq<byte>)
    requires |s| >= 4
    ensures |r| < |s|
  {
    if 4 + Pad(n) <= |s| then s[4 + Pad(n)..] else []
  }

  /** The attributes in `s`, or none where the walk would leave it. */
  function Walk(s: seq<byte>): Option<seq<Attr>>
    decreases |s|
  {
    if s == [] then Some([])
    else if |s| < 4 then None
    else
      var n := UnBe16(s, 2);
      if 4 + n > |s| then None
      else
        match Walk(Rest(s, n))
        case None => None
        case Some(rest) => Some([Attr(UnBe16(s, 0), s[4..4 + n])] + rest)
  }

  /** An attribute on the wire, with whatever the padding bytes happen to be. */
  predicate Encodes(e: seq<byte>, a: Attr) {
    && |a.value| < 0x1_0000 && |e| == 4 + Pad(|a.value|)
    && e[..4] == Be16(a.typ) + Be16(|a.value|) && e[4..4 + |a.value|] == a.value
  }

  lemma Be16Reads(v: u16, s: seq<byte>, at: nat)
    requires at + 2 <= |s| && s[at..at + 2] == Be16(v)
    ensures UnBe16(s, at) == v
  {
    assert s[at] == s[at..at + 2][0] && s[at + 1] == s[at..at + 2][1];
  }

  lemma WalkOne(e: seq<byte>, a: Attr, rest: seq<byte>)
    requires Encodes(e, a)
    ensures Walk(e + rest) == match Walk(rest) case None => None case Some(x) => Some([a] + x)
  {
    var s, n := e + rest, |a.value|;
    assert s[0..2] == e[..4][0..2] == Be16(a.typ);
    assert s[2..4] == e[..4][2..4] == Be16(n);
    Be16Reads(a.typ, s, 0);
    Be16Reads(n, s, 2);
    assert s[4..4 + n] == e[4..4 + n];
    assert s[4 + Pad(n)..] == rest;
    hide Be16, UnBe16, Pad;
  }

  lemma WalkFirst(s: seq<byte>, n: nat)
    requires |s| >= 4 && n == UnBe16(s, 2) && 4 + Pad(n) <= |s|
    ensures Walk(s) == match Walk(s[4 + Pad(n)..])
                       case None => None
                       case Some(x) => Some([Attr(UnBe16(s, 0), s[4..4 + n])] + x)
  {
    hide UnBe16, Pad, Rest;
    RestIs(s, n);
  }

  lemma RestIs(s: seq<byte>, n: nat)
    requires |s| >= 4 && 4 + Pad(n) <= |s|
    ensures Rest(s, n) == s[4 + Pad(n)..]
  {
    hide Pad;
  }

  lemma FirstFits(s: seq<byte>)
    requires |s| % 4 == 0 && s != [] && Walk(s).Some?
    ensures |s| >= 4 && 4 + Pad(UnBe16(s, 2)) <= |s|
    ensures (|s| - 4 - Pad(UnBe16(s, 2))) % 4 == 0
  {
    hide UnBe16, Pad;
    PadFits(UnBe16(s, 2), |s|);
  }

  lemma PadFits(n: nat, len: nat)
    requires len % 4 == 0 && 4 + n <= len
    ensures 4 + Pad(n) <= len && (len - 4 - Pad(n)) % 4 == 0
  {
    var p, q := Pad(n) / 4, len / 4;
    assert Pad(n) == 4 * p && len == 4 * q;
    hide Pad;
    assert 4 * p < 4 * q;
    assert len - 4 - Pad(n) == 4 * (q - 1 - p);
  }

  lemma FrontOf(s: seq<byte>, e: seq<byte>, n: nat)
    requires |s| >= 4 && 4 + Pad(n) <= |s|
    ensures (s + e)[4 + Pad(n)..] == s[4 + Pad(n)..] + e
    ensures UnBe16(s + e, 2) == UnBe16(s, 2) && UnBe16(s + e, 0) == UnBe16(s, 0) && (s + e)[4..4 + n] == s[4..4 + n]
  {
  }

  lemma Regroup(a: Attr, x: seq<Attr>, b: Attr)
    ensures [a] + (x + [b]) == ([a] + x) + [b]
  {
  }

  /** One more attribute at the end is one more attribute walked. */
  lemma {:induction false} WalkAppend(s: seq<byte>, e: seq<byte>, a: Attr)
    requires |s| % 4 == 0 && Walk(s).Some? && Encodes(e, a)
    ensures Walk(s + e) == Some(Walk(s).value + [a])
  {
    if s == [] {
      assert s + e == e + [] && Walk([]) == Some([]) && [a] + [] == [] + [a];
      hide Walk, Encodes;
      WalkOne(e, a, []);
    } else {
      FirstFits(s);
      hide Walk, Encodes, UnBe16, Pad;
      var n := UnBe16(s, 2);
      WalkFirst(s, n);
      FrontOf(s, e, n);
      WalkFirst(s + e, n);
      var t := s[4 + Pad(n)..];
      WalkAppend(t, e, a);
      Regroup(Attr(UnBe16(s, 0), s[4..4 + n]), Walk(t).value, a);
    }
  }

  // ---- Building a message ----

  const COOKIE: seq<byte> := [0x21, 0x12, 0xA4, 0x42]

  function Header(typ: u16): (r: seq<byte>)
    ensures |r| == HEADER
  {
    Be16(typ) + [0, 0] + COOKIE + Be32(0x77073096) + Be32(0xee0e612c) + Be32(0x990951ba)
  }

  function Create(buf: seq<byte>, typ: u16): (r: seq<byte>)
    requires |buf| == BUF_SIZE
    ensures |r| == BUF_SIZE
  {
    Overwrite(buf, 0, Header(typ))
  }

  function HeaderLength(buf: seq<byte>): u16
    requires |buf| >= HEADER
  {
    UnBe16(buf, 2)
  }

  function SetLength(buf: seq<byte>, n: u16): (r: seq<byte>)
    requires |buf| >= HEADER
    ensures |r| == |buf|
  {
    Overwrite(buf, 2, Be16(n))
  }

  predicate Fits(size: nat, a: Attr) { size + 4 + Pad(|a.value|) <= BUF_SIZE }

  /** The attribute's header and value; the padding keeps what the buffer held. */
  function Put(buf: seq<byte>, size: nat, a: Attr): (r: seq<byte>)
    requires |buf| == BUF_SIZE && Fits(size, a)
    ensures |r| == BUF_SIZE
  {
    Overwrite(buf, size, Be16(a.typ) + Be16(|a.value|) + a.value)
  }

  /** stun_msg_write_attr */
  function WriteAttr(buf: seq<byte>, size: nat, a: Attr): (r: seq<byte>)
    requires |buf| == BUF_SIZE && Fits(size, a)
    ensures |r| == BUF_SIZE
  {
    SetLength(Put(buf, size, a), (HeaderLength(buf) + 4 + Pad(|a.value|)) % 0x1_0000)
  }

  /** A message under construction: its length field, its size and the attributes a walk finds agree. */
  ghost predicate Message(buf: seq<byte>, size: nat, attrs: seq<Attr>) {
    && |buf| == BUF_SIZE && HEADER <= size <= BUF_SIZE && size % 4 == 0
    && HeaderLength(buf) == size - HEADER
    && Walk(buf[HEADER..size]) == Some(attrs)
  }

  lemma CreateStarts(buf: seq<byte>, typ: u16)
    requires |buf| == BUF_SIZE
    ensures Message(Create(buf, typ), HEADER, [])
    ensures Create(buf, typ)[..HEADER] == Header(typ) && Create(buf, typ)[HEADER..] == buf[HEADER..]
  {
    var r := Create(buf, typ);
    assert r[HEADER..HEADER] == [] && r[2] == 0 && r[3] == 0;
  }

  lemma SetLengthParts(buf: seq<byte>, n: u16)
    requires |buf| >= HEADER
    ensures var r := SetLength(buf, n);
            HeaderLength(r) == n && r[4..] == buf[4..] && r[..2] == buf[..2]
  {
    var r := SetLength(buf, n);
    assert r[2..4] == Be16(n);
    Be16Reads(n, r, 2);
    hide Be16, UnBe16;
  }

  lemma PutParts(buf: seq<byte>, size: nat, a: Attr)
    requires |buf| == BUF_SIZE && Fits(size, a)
    ensures var r := Put(buf, size, a);
            && r[..size] == buf[..size]
            && Encodes(r[size..size + 4 + Pad(|a.value|)], a)
  {
    hide Be16, Pad;
    var r, e := Put(buf, size, a), Be16(a.typ) + Be16(|a.value|) + a.value;
    assert r[size..size + |e|] == e;
    var w := r[size..size + 4 + Pad(|a.value|)];
    assert w[..|e|] == e;
    assert e[..4] == Be16(a.typ) + Be16(|a.value|) && e[4..] == a.value;
    assert w[..4] == e[..4] && w[4..4 + |a.value|] == e[4..];
  }

  lemma Tails(a: seq<byte>, b: seq<byte>, from: nat, i: nat, j: nat)
    requires |a| == |b| && from <= i <= j <= |a| && a[from..] == b[from..]
    ensures a[i..j] == b[i..j]
  {
    SliceOfDrop(a, from, i - from, j - from);
    SliceOfDrop(b, from, i - from, j - from);
  }

  lemma Fronts(a: seq<byte>, b: seq<byte>, to: nat, i: nat, j: nat)
    requires i <= j <= to <= |a| && to <= |b| && a[..to] == b[..to]
    ensures a[i..j] == b[i..j]
  {
    SliceOfSlice(a, 0, to, i, j);
    SliceOfSlice(b, 0, to, i, j);
  }

  lemma Split(a: seq<byte>, i: nat, j: nat, k: nat)
    requires i <= j <= k <= |a|
    ensures a[i..k] == a[i..j] + a[j..k]
  {
  }

  /** What writing an attribute leaves past the header: the old attributes, then the new one. */
  lemma WriteBytes(buf: seq<byte>, size: nat, a: Attr)
    requires |buf| == BUF_SIZE && HEADER <= size && Fits(size, a)
    ensures var r, k := WriteAttr(buf, size, a), 4 + Pad(|a.value|);
            && r[HEADER..size] == buf[HEADER..size] && Encodes(r[size..size + k], a)
            && r[4..HEADER] == buf[4..HEADER] && r[..2] == buf[..2]
            && HeaderLength(r) == (HeaderLength(buf) + k) % 0x1_0000
  {
    hide Put, SetLength, Encodes, HeaderLength, Pad;
    var p, r, k := Put(buf, size, a), WriteAttr(buf, size, a), 4 + Pad(|a.value|);
    PutParts(buf, size, a);
    SetLengthParts(p, (HeaderLength(buf) + k) % 0x1_0000);
    Tails(r, p, 4, HEADER, size);
    Tails(r, p, 4, size, size + k);
    Tails(r, p, 4, 4, HEADER);
    Fronts(p, buf, size, HEADER, size);
    Fronts(p, buf, size, 4, HEADER);
    Fronts(p, buf, size, 0, 2);
  }

  /** Writing an attribute that fits adds it to what a walk finds, and keeps length field and size in step. */
  lemma WriteAdds(buf: seq<byte>, size: nat, attrs: seq<Attr>, a: Attr)
    requires Message(buf, size, attrs) && Fits(size, a)
    ensures Message(WriteAttr(buf, size, a), size + 4 + Pad(|a.value|), attrs + [a])
  {
    hide WriteAttr, Encodes, HeaderLength, Pad, Walk;
    var r, k := WriteAttr(buf, size, a), 4 + Pad(|a.value|);
    WriteBytes(buf, size, a);
    WholeWords(size, k);
    WalkAppend(buf[HEADER..size], r[size..size + k], a);
    Split(r, HEADER, size, size + k);
  }

  /** Where the message ends once `attrs` have been written from `size` on. */
  function EndOf(size: nat, attrs: seq<Attr>): (end: nat)
    ensures end >= size
    decreases |attrs|
  {
    if attrs == [] then size else EndOf(size, attrs[..|attrs| - 1]) + 4 + Pad(|attrs[|attrs| - 1].value|)
  }

  function WriteAll(buf: seq<byte>, size: nat, attrs: seq<Attr>): (r: seq<byte>)
    requires |buf| == BUF_SIZE && EndOf(size, attrs) <= BUF_SIZE
    ensures |r| == BUF_SIZE
    decreases |attrs|
  {
    if attrs == [] then buf
    else
      var before := attrs[..|attrs| - 1];
      WriteAttr(WriteAll(buf, size, before), EndOf(size, before), attrs[|attrs| - 1])
  }

  /** Any list of attributes that fits, written to an empty message, is what the walk finds; the header stands. */
  lemma {:induction false} ListWritten(buf: seq<byte>, attrs: seq<Attr>)
    requires Message(buf, HEADER, []) && EndOf(HEADER, attrs) <= BUF_SIZE
    ensures Lists(buf, WriteAll(buf, HEADER, attrs), EndOf(HEADER, attrs), attrs)
    decreases |attrs|
  {
    assert |buf| == BUF_SIZE;
    hide Message, Lists, WriteAttr, Pad, WriteAll, EndOf;
    EndOfGrows(HEADER, attrs);
    WriteAllGrows(buf, HEADER, attrs);
    if attrs == [] {
      NoneListed(buf);
    } else {
      var before := attrs[..|attrs| - 1];
      ListWritten(buf, before);
      OneMoreListed(buf, WriteAll(buf, HEADER, before), EndOf(HEADER, before), attrs);
    }
  }

  /** `r` is `buf` with `attrs` written behind its header. */
  ghost predicate Lists(buf: seq<byte>, r: seq<byte>, end: nat, attrs: seq<Attr>)
    requires |buf| == |r| == BUF_SIZE
  {
    Message(r, end, attrs) && r[..2] == buf[..2] && r[4..HEADER] == buf[4..HEADER]
  }

  lemma NoneListed(buf: seq<byte>)
    requires Message(buf, HEADER, [])
    ensures Lists(buf, buf, HEADER, [])
  {
    hide Walk;
  }

  lemma OneMoreListed(buf: seq<byte>, r: seq<byte>, end: nat, attrs: seq<Attr>)
    requires |buf| == |r| == BUF_SIZE && attrs != [] && Lists(buf, r, end, attrs[..|attrs| - 1]) && Fits(end, attrs[|attrs| - 1])
    ensures var a := attrs[|attrs| - 1]; Lists(buf, WriteAttr(r, end, a), end + 4 + Pad(|a.value|), attrs)
  {
    hide Message, WriteAttr, Pad;
    var before, a := attrs[..|attrs| - 1], attrs[|attrs| - 1];
    WriteAddsBehind(r, end, before, a);
    assert before + [a] == attrs;
  }

  lemma EndOfGrows(size: nat, attrs: seq<Attr>)
    ensures attrs == [] ==> EndOf(size, attrs) == size
    ensures attrs != [] ==>
              EndOf(size, attrs) == EndOf(size, attrs[..|attrs| - 1]) + 4 + Pad(|attrs[|attrs| - 1].value|)
  {
    hide Pad;
  }

  lemma WriteAllGrows(buf: seq<byte>, size: nat, attrs: seq<Attr>)
    requires |buf| == BUF_SIZE && EndOf(size, attrs) <= BUF_SIZE
    ensures attrs == [] ==> WriteAll(buf, size, attrs) == buf
    ensures attrs != [] ==>
              var before := attrs[..|attrs| - 1];
              WriteAll(buf, size, attrs) == WriteAttr(WriteAll(buf, size, before), EndOf(size, before), attrs[|attrs| - 1])
  {
    hide Pad, WriteAttr;
  }

  lemma WriteAddsBehind(buf: seq<byte>, size: nat, attrs: seq<Attr>, a: Attr)
    requires Message(buf, size, attrs) && Fits(size, a)
    ensures var r := WriteAttr(buf, size, a);
            && Message(r, size + 4 + Pad(|a.value|), attrs + [a])
            && r[..2] == buf[..2] && r[4..HEADER] == buf[4..HEADER]
  {
    WriteAdds(buf, size, attrs, a);
    assert |buf| == BUF_SIZE && HEADER <= size;
    hide Message, WriteAttr, Encodes, Pad, HeaderLength;
    WriteBytes(buf, size, a);
  }

  /** So it is after a fresh header. */
  lemma ListReadsBack(buf: seq<byte>, typ: u16, attrs: seq<Attr>)
    requires |buf| == BUF_SIZE && EndOf(HEADER, attrs) <= BUF_SIZE
    ensures Message(WriteAll(Create(buf, typ), HEADER, attrs), EndOf(HEADER, attrs), attrs)
  {
    hide Message, WriteAll, Create, EndOf;
    CreateStarts(buf, typ);
    ListWritten(Create(buf, typ), attrs);
  }

  lemma WholeWords(size: nat, k: nat)
    requires size % 4 == 0 && k % 4 == 0 && HEADER <= size && size + k <= BUF_SIZE
    ensures (size + k) % 4 == 0 && (size - HEADER) % 4 == 0 && (size - HEADER + k) % 0x1_0000 == size + k - HEADER
  {
  }

  // ---- Closing a message ----

  /** A keyed digest left uninterpreted; whatever it is, twenty bytes of it are kept. */
  type Hmac = (seq<byte>, seq<byte>) -> seq<byte>

  const TAG: nat := 20
  const PRINT: nat := 4

  function Tag(hmac: Hmac, key: seq<byte>, m: seq<byte>): (r: seq<byte>)
    ensures |r| == TAG
  {
    var t := hmac(key, m);
    if |t| >= TAG then t[..TAG] else t + seq(TAG - |t|, i => 0)
  }

  /** stun_calculate_fingerprint */
  function Print(m: seq<byte>): (r: seq<byte>)
    ensures |r| == PRINT
  {
    Be32(Crc32.Xor(Crc32.Crc(m), FINGERPRINT_XOR))
  }

  /** The length field as it is when the digest is taken: counting the digest, not the fingerprint. */
  function Tagged(hmac: Hmac, key: seq<byte>, buf: seq<byte>, size: nat): (r: Attr)
    requires |buf| == BUF_SIZE && size <= BUF_SIZE
  {
    Attr(MESSAGE_INTEGRITY, Tag(hmac, key, SetLength(buf, (HeaderLength(buf) + 24) % 0x1_0000)[..size]))
  }

  function Printed(buf: seq<byte>, size: nat): (r: Attr)
    requires |buf| == BUF_SIZE && size <= BUF_SIZE
  {
    Attr(FINGERPRINT, Print(SetLength(buf, (HeaderLength(buf) + 8) % 0x1_0000)[..size]))
  }

  /** stun_msg_finish with a short-term key. */
  function Finish(hmac: Hmac, key: seq<byte>, buf: seq<byte>, size: nat): (r: seq<byte>)
    requires |buf| == BUF_SIZE && size + 32 <= BUF_SIZE
    ensures |r| == BUF_SIZE
  {
    var b := WriteAttr(buf, size, Tagged(hmac, key, buf, size));
    WriteAttr(b, size + 24, Printed(b, size + 24))
  }

  // ---- Reading a message ----

  /** What the parser keeps: the last of each attribute it knows. */
  datatype Fields = Fields(fingerprint: seq<byte>, integrity: seq<byte>, username: seq<byte>, realm: seq<byte>,
                           nonce: seq<byte>, mapped: Option<Address>, relayed: Option<Address>)

  datatype Address = V4(port: u16, ip: seq<byte>) | V6(port: u16, ip: seq<byte>)

  function XorAll(a: seq<byte>, mask: seq<byte>): (r: seq<byte>)
    requires |a| <= |mask|
    ensures |r| == |a| && forall i :: 0 <= i < |a| ==> r[i] == XorByte(a[i], mask[i])
  {
    if a == [] then [] else XorAll(a[..|a| - 1], mask) + [XorByte(a[|a| - 1], mask[|a| - 1])]
  }

  /** stun_get_mapped_address; none where it would read past the value. */
  function GetAddress(value: seq<byte>, mask: seq<byte>): Option<Address>
    requires |mask| == 16
  {
    if |value| < 8 then None
    else
      var port := UnBe16(XorAll(value[2..4], mask), 0);
      if value[1] == 2 then
        if |value| < 20 then None else Some(V6(port, XorAll(value[4..20], mask)))
      else Some(V4(port, XorAll(value[4..8], mask)))
  }

  /** stun_set_mapped_address over `value`, whose first byte it leaves; and the length it reports. */
  function SetAddress(value: seq<byte>, mask: seq<byte>, a: Address): (r: seq<byte>)
    requires |value| >= 20 && |mask| == 16 && |a.ip| == (if a.V6? then 16 else 4)
    ensures |r| == |value|
  {
    Overwrite(value, 1, [if a.V6? then 2 else 1] + XorAll(Be16(a.port), mask) + XorAll(a.ip, mask))
  }

  function AddressLength(a: Address): nat { if a.V6? then 20 else 8 }

  lemma XorAllTwice(a: seq<byte>, mask: seq<byte>)
    requires |a| <= |mask|
    ensures XorAll(XorAll(a, mask), mask) == a
  {
    var r := XorAll(XorAll(a, mask), mask);
    forall i | 0 <= i < |a|
      ensures r[i] == a[i]
    {
      XorByteTwice(a[i], mask[i]);
    }
    hide XorByte;
  }

  /** Reading an address back from what was written, under any mask, whatever the buffer held. */
  lemma AddressRoundTrip(value: seq<byte>, mask: seq<byte>, a: Address)
    requires |value| >= 20 && |mask| == 16 && |a.ip| == (if a.V6? then 16 else 4)
    ensures GetAddress(SetAddress(value, mask, a)[..AddressLength(a)], mask) == Some(a)
  {
    hide XorAll, Be16, UnBe16;
    var n := AddressLength(a);
    var w := [if a.V6? then 2 else 1] + XorAll(Be16(a.port), mask) + XorAll(a.ip, mask);
    var r := SetAddress(value, mask, a);
    assert r[1..n] == w;
    var v := r[..n];
    assert v[1] == w[0] && v[2..4] == w[1..3] == XorAll(Be16(a.port), mask) && v[4..n] == w[3..] == XorAll(a.ip, mask);
    XorAllTwice(Be16(a.port), mask);
    XorAllTwice(a.ip, mask);
    assert Be16(a.port)[0..2] == Be16(a.port);
    Be16Reads(a.port, Be16(a.port), 0);
  }

  function Mask(buf: seq<byte>, typ: u16): (r: seq<byte>)
    requires |buf| >= HEADER
    ensures |r| == 16
  {
    if typ == MAPPED_ADDRESS then seq(16, i => 0) else COOKIE + buf[8..HEADER]
  }

  /** One attribute taken in; none where the parser would write past a field or read past the value. */
  function Take(f: Fields, a: Attr, buf: seq<byte>): Option<Fields>
    requires |buf| >= HEADER && |f.fingerprint| == PRINT && |f.integrity| == TAG
  {
    if a.typ == USERNAME then (if |a.value| <= 128 then Some(f.(username := a.value)) else None)
    else if a.typ == REALM then (if |a.value| <= 64 then Some(f.(realm := a.value)) else None)
    else if a.typ == NONCE then (if |a.value| <= 64 then Some(f.(nonce := a.value)) else None)
    else if a.typ == MESSAGE_INTEGRITY then
      (if |a.value| <= TAG then Some(f.(integrity := Overwrite(f.integrity, 0, a.value))) else None)
    else if a.typ == FINGERPRINT then
      (if |a.value| <= PRINT then Some(f.(fingerprint := Overwrite(f.fingerprint, 0, a.value))) else None)
    else if a.typ == MAPPED_ADDRESS || a.typ == XOR_MAPPED_ADDRESS then
      (match GetAddress(a.value, Mask(buf, a.typ)) case None => None case Some(x) => Some(f.(mapped := Some(x))))
    else if a.typ == XOR_RELAYED_ADDRESS then
      (match GetAddress(a.value, Mask(buf, a.typ)) case None => None case Some(x) => Some(f.(relayed := Some(x))))
    else Some(f)
  }

  function Gather(f: Fields, attrs: seq<Attr>, buf: seq<byte>): (r: Option<Fields>)
    requires |buf| >= HEADER && |f.fingerprint| == PRINT && |f.integrity| == TAG
    ensures r.Some? ==> |r.value.fingerprint| == PRINT && |r.value.integrity| == TAG
    decreases |attrs|
  {
    if attrs == [] then Some(f)
    else
      match Gather(f, attrs[..|attrs| - 1], buf)
      case None => None
      case Some(g) => Take(g, attrs[|attrs| - 1], buf)
  }

  /** Types whose value the parser copies, and types it reads an address of. */
  predicate Copied(typ: u16) {
    typ == USERNAME || typ == MESSAGE_INTEGRITY || typ == REALM || typ == NONCE || typ == FINGERPRINT
  }

  predicate Addressed(typ: u16) {
    typ == MAPPED_ADDRESS || typ == XOR_MAPPED_ADDRESS || typ == XOR_RELAYED_ADDRESS
  }

  /**
   What the parser may look at of an attribute of `n` bytes: those it copies, wherever the message
   ends; for an address all that follows; of the others nothing. None where it would leave the buffer.
   */
  function Seen(buf: seq<byte>, pos: nat, typ: u16, n: nat): Option<seq<byte>>
    requires pos + 4 <= |buf|
  {
    if Addressed(typ) then Some(buf[pos + 4..])
    else if !Copied(typ) then Some([])
    else if pos + 4 + n <= |buf| then Some(buf[pos + 4..pos + 4 + n])
    else None
  }

  /** The attributes the parser's loop comes by from `pos` on, until it is at `end` or past it. */
  function Scan(buf: seq<byte>, pos: nat, end: nat): Option<seq<Attr>>
    decreases if pos < end then end - pos else 0
  {
    if pos >= end then Some([])
    else if pos + 4 > |buf| then None
    else
      var typ, n := UnBe16(buf, pos), UnBe16(buf, pos + 2);
      match (Seen(buf, pos, typ, n), Scan(buf, pos + 4 + Pad(n), end))
      case (Some(v), Some(rest)) => Some([Attr(typ, v)] + rest)
      case _ => None
  }

  /** stun_parse_msg_buf on a full buffer, starting from fields `f`; none where it would leave the buffer or a field. */
  function Parse(f: Fields, buf: seq<byte>): (r: Option<Fields>)
    requires |buf| == BUF_SIZE && |f.fingerprint| == PRINT && |f.integrity| == TAG
    ensures r.Some? ==> |r.value.fingerprint| == PRINT && |r.value.integrity| == TAG
  {
    match Scan(buf, HEADER, HeaderLength(buf) + HEADER)
    case None => None
    case Some(attrs) => Gather(f, attrs, buf)
  }

  // ---- The scan of a whole message is its walk ----

  /** `y` as the parser sees `x`: what it copies is the same, an address goes on into what follows. */
  predicate AsSeen(x: Attr, y: Attr) {
    && x.typ == y.typ && (Copied(x.typ) ==> x.value == y.value) && (Addressed(x.typ) ==> x.value <= y.value)
  }

  ghost predicate AllAsSeen(xs: seq<Attr>, ys: seq<Attr>) {
    |xs| == |ys| && forall i :: 0 <= i < |xs| ==> AsSeen(xs[i], ys[i])
  }

  /** The walk from `pos` on, after the attributes already taken. */
  lemma WalkGoes(s: seq<byte>, pos: nat)
    requires pos < |s|
    ensures |s| - pos < 4 ==> Walk(s[pos..]).None?
    ensures |s| - pos >= 4 ==>
              var n := UnBe16(s, pos + 2);
              && (pos + 4 + n > |s| ==> Walk(s[pos..]).None?)
              && (pos + 4 + n <= |s| ==>
                    var next := if pos + 4 + Pad(n) <= |s| then pos + 4 + Pad(n) else |s|;
                    Walk(s[pos..]) == match Walk(s[next..])
                                      case None => None
                                      case Some(x) => Some([Attr(UnBe16(s, pos), s[pos + 4..pos + 4 + n])] + x))
  {
    hide UnBe16, Pad, Rest;
    if |s| - pos >= 4 {
      HeadAt(s, pos);
      if pos + 4 + UnBe16(s, pos + 2) <= |s| { RestAt(s, pos, UnBe16(s, pos + 2)); }
    }
  }

  lemma HeadAt(s: seq<byte>, pos: nat)
    requires pos + 4 <= |s|
    ensures UnBe16(s[pos..], 2) == UnBe16(s, pos + 2) && UnBe16(s[pos..], 0) == UnBe16(s, pos)
  {
  }

  lemma RestAt(s: seq<byte>, pos: nat, n: nat)
    requires pos + 4 + n <= |s|
    ensures s[pos..][4..4 + n] == s[pos + 4..pos + 4 + n]
    ensures Rest(s[pos..], n) == s[if pos + 4 + Pad(n) <= |s| then pos + 4 + Pad(n) else |s|..]
  {
    hide Pad;
    assert s[|s|..] == [];
  }

  lemma ScanGoes(buf: seq<byte>, pos: nat, end: nat)
    requires pos < end && pos + 4 <= |buf|
    ensures var typ, n := UnBe16(buf, pos), UnBe16(buf, pos + 2);
            Scan(buf, pos, end) ==
            match (Seen(buf, pos, typ, n), Scan(buf, pos + 4 + Pad(n), end))
            case (Some(v), Some(rest)) => Some([Attr(typ, v)] + rest)
            case _ => None
  {
    hide Seen, UnBe16, Pad;
  }

  lemma ScanEnds(buf: seq<byte>, pos: nat, end: nat)
    requires pos >= end
    ensures Scan(buf, pos, end) == Some([])
  {
  }

  lemma SeenInside(buf: seq<byte>, end: nat, pos: nat, typ: u16, n: nat)
    requires pos + 4 + n <= end <= |buf|
    ensures var v := Seen(buf, pos, typ, n);
            v.Some? && AsSeen(Attr(typ, buf[..end][pos + 4..pos + 4 + n]), Attr(typ, v.value))
  {
    assert buf[..end][pos + 4..pos + 4 + n] == buf[pos + 4..pos + 4 + n];
    assert buf[pos + 4..][..n] == buf[pos + 4..pos + 4 + n];
  }

  lemma ReadsInside(buf: seq<byte>, end: nat, pos: nat)
    requires pos + 4 <= end <= |buf|
    ensures UnBe16(buf[..end], pos) == UnBe16(buf, pos) && UnBe16(buf[..end], pos + 2) == UnBe16(buf, pos + 2)
  {
  }

  lemma AsSeenCons(x: Attr, xs: seq<Attr>, y: Attr, ys: seq<Attr>)
    requires AsSeen(x, y) && AllAsSeen(xs, ys)
    ensures AllAsSeen([x] + xs, [y] + ys)
  {
    hide AsSeen;
  }

  lemma NothingWalked(s: seq<byte>, pos: nat)
    requires pos == |s|
    ensures Walk(s[pos..]) == Some([])
  {
  }

  /** Where no attribute reaches past the end, the parser comes by what the walk finds. */
  lemma {:induction false} ScanIsWalk(buf: seq<byte>, pos: nat, end: nat)
    requires pos <= end <= |buf| && Walk(buf[..end][pos..]).Some?
    ensures Scan(buf, pos, end).Some? && AllAsSeen(Walk(buf[..end][pos..]).value, Scan(buf, pos, end).value)
    decreases end - pos
  {
    hide Walk, Scan, UnBe16, Pad, Seen, AsSeen;
    var s := buf[..end];
    if pos == end {
      NothingWalked(s, pos);
      ScanEnds(buf, pos, end);
    } else {
      WalkGoes(s, pos);
      ReadsInside(buf, end, pos);
      ScanGoes(buf, pos, end);
      var typ, n := UnBe16(buf, pos), UnBe16(buf, pos + 2);
      SeenInside(buf, end, pos, typ, n);
      var next := pos + 4 + Pad(n);
      if next <= end {
        ScanIsWalk(buf, next, end);
        AsSeenCons(Attr(typ, s[pos + 4..pos + 4 + n]), Walk(s[next..]).value,
                   Attr(typ, Seen(buf, pos, typ, n).value), Scan(buf, next, end).value);
      } else {
        ScanEnds(buf, next, end);
        NothingWalked(s, end);
        AsSeenCons(Attr(typ, s[pos + 4..pos + 4 + n]), [], Attr(typ, Seen(buf, pos, typ, n).value), []);
      }
    }
  }

  lemma AddressGoesOn(v: seq<byte>, w: seq<byte>, mask: seq<byte>)
    requires |mask| == 16 && v <= w && GetAddress(v, mask).Some?
    ensures GetAddress(w, mask) == GetAddress(v, mask)
  {
    hide XorAll, UnBe16;
    assert w[2..4] == v[2..4] && w[4..8] == v[4..8];
    if |v| >= 20 { assert w[4..20] == v[4..20]; }
  }

  lemma TakeAsSeen(f: Fields, x: Attr, y: Attr, buf: seq<byte>)
    requires |buf| >= HEADER && |f.fingerprint| == PRINT && |f.integrity| == TAG
    requires AsSeen(x, y) && Take(f, x, buf).Some?
    ensures Take(f, y, buf) == Take(f, x, buf)
  {
    hide GetAddress;
    if Addressed(x.typ) { AddressGoesOn(x.value, y.value, Mask(buf, x.typ)); }
  }

  lemma {:induction false} GatherAsSeen(f: Fields, xs: seq<Attr>, ys: seq<Attr>, buf: seq<byte>)
    requires |buf| >= HEADER && |f.fingerprint| == PRINT && |f.integrity| == TAG
    requires AllAsSeen(xs, ys) && Gather(f, xs, buf).Some?
    ensures Gather(f, ys, buf) == Gather(f, xs, buf)
    decreases |xs|
  {
    hide Take, AsSeen;
    if xs != [] {
      GatherAsSeen(f, xs[..|xs| - 1], ys[..|ys| - 1], buf);
      TakeAsSeen(Gather(f, xs[..|xs| - 1], buf).value, xs[|xs| - 1], ys[|ys| - 1], buf);
    }
  }

  /**
   stun_msg_is_valid on a message of `size` bytes copied into the buffer; none where the parser has no
   answer, or a message too short makes a length wrap around.
   */
  function IsValid(hmac: Hmac, key: seq<byte>, f: Fields, buf: seq<byte>, size: nat): Option<bool>
    requires |buf| == BUF_SIZE && size <= BUF_SIZE && |f.fingerprint| == PRINT && |f.integrity| == TAG
  {
    match Parse(f, buf)
    case None => None
    case Some(g) =>
      if size < 8 then None
      else if Print(buf[..size - 8]) != g.fingerprint then Some(false)
      else if size < 32 then None
      else Some(Tag(hmac, key, SetLength(buf, (HeaderLength(buf) - 8) % 0x1_0000)[..size - 32]) == g.integrity)
  }

  // ---- A finished message passes ----

  lemma FrontFrom(r: seq<byte>, s: seq<byte>, size: nat)
    requires HEADER <= size <= |r| && size <= |s| && r[..2] == s[..2] && r[2..4] == s[2..4]
    requires r[4..HEADER] == s[4..HEADER] && r[HEADER..size] == s[HEADER..size]
    ensures r[..size] == s[..size]
  {
    assert r[..size] == r[..2] + r[2..4] + r[4..HEADER] + r[HEADER..size];
    assert s[..size] == s[..2] + s[2..4] + s[4..HEADER] + s[HEADER..size];
  }

  /** Two buffers alike but for the length field are alike once it is set to the same number. */
  lemma SameBut(a: seq<byte>, b: seq<byte>, n: u16, size: nat)
    requires HEADER <= size <= |a| && size <= |b| && a[..2] == b[..2]
    requires a[4..HEADER] == b[4..HEADER] && a[HEADER..size] == b[HEADER..size]
    ensures SetLength(a, n)[..size] == SetLength(b, n)[..size]
  {
    hide Be16;
    var x, y := SetLength(a, n), SetLength(b, n);
    assert x[2..4] == y[2..4];
    Tails(x, a, 4, 4, HEADER);
    Tails(y, b, 4, 4, HEADER);
    Tails(x, a, 4, HEADER, size);
    Tails(y, b, 4, HEADER, size);
    FrontFrom(x, y, size);
  }

  lemma LengthSet(a: seq<byte>, size: nat)
    requires HEADER <= size <= |a|
    ensures SetLength(a, HeaderLength(a))[..size] == a[..size]
  {
    assert Be16(HeaderLength(a)) == a[2..4];
    hide Be16, UnBe16;
  }

  /** What a fingerprint or a digest was taken over is what the receiver takes it over. */
  lemma WrittenFront(buf: seq<byte>, size: nat, a: Attr)
    requires |buf| == BUF_SIZE && HEADER <= size && Fits(size, a)
    ensures WriteAttr(buf, size, a)[..size] ==
            SetLength(buf, (HeaderLength(buf) + 4 + Pad(|a.value|)) % 0x1_0000)[..size]
  {
    var r := WriteAttr(buf, size, a);
    WriteBytes(buf, size, a);
    hide WriteAttr, HeaderLength, SetLength, Pad, Encodes;
    SameBut(r, buf, HeaderLength(r), size);
    LengthSet(r, size);
  }

  lemma SameMask(f: Fields, attrs: seq<Attr>, a: seq<byte>, b: seq<byte>)
    requires |a| >= HEADER && |b| >= HEADER && a[8..HEADER] == b[8..HEADER]
    requires |f.fingerprint| == PRINT && |f.integrity| == TAG
    ensures Gather(f, attrs, a) == Gather(f, attrs, b)
    decreases |attrs|
  {
    if attrs != [] { SameMask(f, attrs[..|attrs| - 1], a, b); }
    hide GetAddress;
  }

  lemma GatherTwo(f: Fields, attrs: seq<Attr>, x: Attr, y: Attr, buf: seq<byte>)
    requires |buf| >= HEADER && |f.fingerprint| == PRINT && |f.integrity| == TAG
    requires Gather(f, attrs, buf).Some?
    requires x.typ == MESSAGE_INTEGRITY && |x.value| == TAG && y.typ == FINGERPRINT && |y.value| == PRINT
    ensures var g := Gather(f, attrs + [x] + [y], buf);
            g.Some? && g.value.integrity == x.value && g.value.fingerprint == y.value
  {
    var s, t := attrs + [x], attrs + [x] + [y];
    assert s[..|s| - 1] == attrs && t[..|t| - 1] == s;
    var g := Gather(f, attrs, buf).value;
    assert Overwrite(g.integrity, 0, x.value) == x.value && Overwrite(g.fingerprint, 0, y.value) == y.value;
    hide Overwrite;
  }

  /** Finishing adds the digest and then the fingerprint, last of all attributes. */
  lemma FinishAdds(hmac: Hmac, key: seq<byte>, buf: seq<byte>, size: nat, attrs: seq<Attr>)
    requires Message(buf, size, attrs) && size + 32 <= BUF_SIZE
    ensures Message(Finish(hmac, key, buf, size), size + 32, FinishedAttrs(hmac, key, buf, size, attrs))
  {
    assert |buf| == BUF_SIZE;
    hide WriteAttr, Message, Tag, Print;
    var x := Tagged(hmac, key, buf, size);
    WriteAdds(buf, size, attrs, x);
    var b := WriteAttr(buf, size, x);
    WriteAdds(b, size + 24, attrs + [x], Printed(b, size + 24));
  }

  lemma MessageParses(f: Fields, buf: seq<byte>, size: nat, attrs: seq<Attr>)
    requires Message(buf, size, attrs) && |f.fingerprint| == PRINT && |f.integrity| == TAG
    requires Gather(f, attrs, buf).Some?
    ensures Parse(f, buf) == Gather(f, attrs, buf)
  {
    hide Walk, Gather, HeaderLength, Scan, AllAsSeen;
    assert buf[..size][HEADER..] == buf[HEADER..size];
    ScanIsWalk(buf, HEADER, size);
    GatherAsSeen(f, attrs, Scan(buf, HEADER, size).value, buf);
  }

  /** The header aside, finishing leaves the message as it was. */
  lemma FinishFront(hmac: Hmac, key: seq<byte>, buf: seq<byte>, size: nat)
    requires |buf| == BUF_SIZE && HEADER <= size && size + 32 <= BUF_SIZE && HeaderLength(buf) == size - HEADER
    ensures var b, r := WriteAttr(buf, size, Tagged(hmac, key, buf, size)), Finish(hmac, key, buf, size);
            && HeaderLength(b) == size + 4 && HeaderLength(r) == size + 12
            && r[..2] == buf[..2] && r[4..HEADER] == buf[4..HEADER] && r[HEADER..size] == buf[HEADER..size]
            && r[..size + 24] == SetLength(b, size + 12)[..size + 24]
  {
    hide WriteAttr, HeaderLength, SetLength, Encodes, Tag, Print;
    var x := Tagged(hmac, key, buf, size);
    var b := WriteAttr(buf, size, x);
    var y := Printed(b, size + 24);
    var r := WriteAttr(b, size + 24, y);
    WriteBytes(buf, size, x);
    WriteBytes(b, size + 24, y);
    WrittenFront(b, size + 24, y);
    Narrower(r, b, size);
  }

  lemma Narrower(r: seq<byte>, b: seq<byte>, size: nat)
    requires |r| == |b| && HEADER <= size && size + 24 <= |r| && r[HEADER..size + 24] == b[HEADER..size + 24]
    ensures r[HEADER..size] == b[HEADER..size]
  {
    SliceOfSlice(r, HEADER, size + 24, 0, size - HEADER);
    SliceOfSlice(b, HEADER, size + 24, 0, size - HEADER);
  }

  /** The attributes of a finished message. */
  function FinishedAttrs(hmac: Hmac, key: seq<byte>, buf: seq<byte>, size: nat, attrs: seq<Attr>): seq<Attr>
    requires |buf| == BUF_SIZE && size + 32 <= BUF_SIZE
  {
    var x := Tagged(hmac, key, buf, size);
    attrs + [x] + [Printed(WriteAttr(buf, size, x), size + 24)]
  }

  /** The parser ends up with the digest and the fingerprint just written. */
  lemma FinishedFields(hmac: Hmac, key: seq<byte>, buf: seq<byte>, size: nat, attrs: seq<Attr>, f: Fields)
    requires Message(buf, size, attrs) && size + 32 <= BUF_SIZE
    requires |f.fingerprint| == PRINT && |f.integrity| == TAG && Gather(f, attrs, buf).Some?
    ensures var x := Tagged(hmac, key, buf, size);
            var g := Parse(f, Finish(hmac, key, buf, size));
            && g.Some? && g.value.integrity == x.value
            && g.value.fingerprint == Printed(WriteAttr(buf, size, x), size + 24).value
    ensures var all := FinishedAttrs(hmac, key, buf, size, attrs);
            && Message(Finish(hmac, key, buf, size), size + 32, all)
            && Gather(f, all, Finish(hmac, key, buf, size)).Some?
  {
    assert |buf| == BUF_SIZE && HeaderLength(buf) == size - HEADER && HEADER <= size;
    hide Message, Walk, Gather, WriteAttr, HeaderLength, SetLength, Finish, Tag, Print, Parse;
    var x := Tagged(hmac, key, buf, size);
    var r, y := Finish(hmac, key, buf, size), Printed(WriteAttr(buf, size, x), size + 24);
    FinishAdds(hmac, key, buf, size, attrs);
    FinishFront(hmac, key, buf, size);
    SliceOfSlice(r, 4, HEADER, 4, 16);
    SliceOfSlice(buf, 4, HEADER, 4, 16);
    SameMask(f, attrs, r, buf);
    GatherTwo(f, attrs, x, y, r);
    MessageParses(f, r, size + 32, attrs + [x] + [y]);
  }

  /**
   A message built attribute by attribute and closed with a key passes the check with that key,
   whatever the digest function, and whatever the receiver's fields held before.
   */
  lemma FinishedIsValid(hmac: Hmac, key: seq<byte>, buf: seq<byte>, size: nat, attrs: seq<Attr>, f: Fields)
    requires Message(buf, size, attrs) && size + 32 <= BUF_SIZE
    requires |f.fingerprint| == PRINT && |f.integrity| == TAG && Gather(f, attrs, buf).Some?
    ensures IsValid(hmac, key, f, Finish(hmac, key, buf, size), size + 32) == Some(true)
  {
    hide Message, Gather, WriteAttr, HeaderLength, SetLength, Finish, Tag, Print, Parse, IsValid;
    MessageMeans(buf, size, attrs);
    FinishedFields(hmac, key, buf, size, attrs, f);
    FinishedDigest(hmac, key, buf, size);
    AllAgrees(hmac, key, f, Finish(hmac, key, buf, size), size + 32);
  }

  lemma MessageMeans(buf: seq<byte>, size: nat, attrs: seq<Attr>)
    requires Message(buf, size, attrs)
    ensures |buf| == BUF_SIZE && HeaderLength(buf) == size - HEADER && HEADER <= size <= BUF_SIZE
  {
    hide Walk;
  }

  /** The digest and the fingerprint found, as the receiver takes them. */
  lemma FinishedDigest(hmac: Hmac, key: seq<byte>, buf: seq<byte>, size: nat)
    requires |buf| == BUF_SIZE && HEADER <= size && size + 32 <= BUF_SIZE && HeaderLength(buf) == size - HEADER
    ensures var x, r := Tagged(hmac, key, buf, size), Finish(hmac, key, buf, size);
            && Printed(WriteAttr(buf, size, x), size + 24).value == Print(r[..size + 24])
            && x.value == Tag(hmac, key, SetLength(r, (HeaderLength(r) - 8) % 0x1_0000)[..size])
  {
    hide WriteAttr, HeaderLength, SetLength, Finish, Tag, Print;
    FinishFront(hmac, key, buf, size);
    SameBut(Finish(hmac, key, buf, size), buf, size + 4, size);
  }

  lemma AllAgrees(hmac: Hmac, key: seq<byte>, f: Fields, buf: seq<byte>, size: nat)
    requires |buf| == BUF_SIZE && 32 <= size <= BUF_SIZE && |f.fingerprint| == PRINT && |f.integrity| == TAG
    requires Parse(f, buf).Some? && Parse(f, buf).value.fingerprint == Print(buf[..size - 8])
    requires Parse(f, buf).value.integrity ==
             Tag(hmac, key, SetLength(buf, (HeaderLength(buf) - 8) % 0x1_0000)[..size - 32])
    ensures IsValid(hmac, key, f, buf, size) == Some(true)
  {
    hide Parse, Print, Tag, SetLength, HeaderLength;
  }

  /** Only a whole message's own bytes count, not what lies behind them in the buffer. */
  lemma RestIsFree(hmac: Hmac, key: seq<byte>, f: Fields, a: seq<byte>, b: seq<byte>, size: nat, attrs: seq<Attr>)
    requires Message(a, size, attrs) && |b| == BUF_SIZE && 32 <= size && a[..size] == b[..size]
    requires |f.fingerprint| == PRINT && |f.integrity| == TAG && Gather(f, attrs, a).Some?
    ensures Message(b, size, attrs) && IsValid(hmac, key, f, a, size) == IsValid(hmac, key, f, b, size)
  {
    hide Print, Tag, HeaderLength, Walk, Gather, SetLength, Parse;
    Fronts(a, b, size, HEADER, size);
    Fronts(a, b, size, 8, HEADER);
    Fronts(a, b, size, 4, HEADER);
    Fronts(a, b, size, 0, 2);
    Fronts(a, b, size, 0, size - 8);
    SameLength(a, b, size);
    SliceOfSlice(a, HEADER, size, 0, size - 32);
    SameMask(f, attrs, a, b);
    MessageParses(f, a, size, attrs);
    MessageParses(f, b, size, attrs);
    if size >= 32 + HEADER {
      Fronts(a, b, size, HEADER, size - 32);
      SameBut(a, b, (HeaderLength(a) - 8) % 0x1_0000, size - 32);
    } else {
      ShortFront(a, b, (HeaderLength(a) - 8) % 0x1_0000, size - 32, size);
    }
  }

  lemma SameLength(a: seq<byte>, b: seq<byte>, size: nat)
    requires |a| == |b| == BUF_SIZE && HEADER <= size <= BUF_SIZE && a[..size] == b[..size]
    ensures HeaderLength(a) == HeaderLength(b)
  {
    assert a[..size][2] == a[2] && b[..size][2] == b[2] && a[..size][3] == a[3] && b[..size][3] == b[3];
  }

  lemma ShortFront(a: seq<byte>, b: seq<byte>, n: u16, k: nat, size: nat)
    requires |a| == |b| == BUF_SIZE && k <= HEADER <= size <= BUF_SIZE && a[..size] == b[..size]
    ensures SetLength(a, n)[..k] == SetLength(b, n)[..k]
  {
    hide Be16;
    assert SetLength(a, n)[..size] == SetLength(a[..size], n);
    assert SetLength(b, n)[..size] == SetLength(b[..size], n);
    Fronts(SetLength(a, n), SetLength(b, n), size, 0, k);
    hide SetLength;
  }

  /** The same at the other end: the finished bytes, copied over any buffer, pass with the key. */
  lemma ReceivedIsValid(hmac: Hmac, key: seq<byte>, buf: seq<byte>, size: nat, attrs: seq<Attr>, f: Fields, other: seq<byte>)
    requires Message(buf, size, attrs) && size + 32 <= BUF_SIZE && |other| == BUF_SIZE
    requires |f.fingerprint| == PRINT && |f.integrity| == TAG && Gather(f, attrs, buf).Some?
    ensures var m := Finish(hmac, key, buf, size)[..size + 32];
            IsValid(hmac, key, f, Overwrite(other, 0, m), size + 32) == Some(true)
  {
    assert |buf| == BUF_SIZE && HeaderLength(buf) == size - HEADER && HEADER <= size;
    hide Message, Gather, HeaderLength, Finish, IsValid, FinishedAttrs, Parse;
    FinishedIsValid(hmac, key, buf, size, attrs, f);
    FinishedFields(hmac, key, buf, size, attrs, f);
    var r := Finish(hmac, key, buf, size);
    var e := Overwrite(other, 0, r[..size + 32]);
    assert e[..size + 32] == r[..size + 32];
    RestIsFree(hmac, key, f, r, e, size + 32, FinishedAttrs(hmac, key, buf, size, attrs));
  }

  // ---- The message type ----

  function TypeOf(buf: seq<byte>): bv16
    requires |buf| >= HEADER
  {
    UnBe16(buf, 0) as bv16
  }

  /** The class stun_parse_msg_buf settles on. */
  function ClassOf(t: bv16): bv16 {
    if t & 0x0110 == 0x0110 then 0x0110
    else if t & 0x0010 == 0x0010 then 0x0010
    else if t & 0x0100 == 0x0100 then 0x0100
    else 0
  }

  function MethodOf(t: bv16): bv16 {
    var m := t & 0x0FFF;
    if m & 3 == 3 then 3 else if m & 1 == 1 then 1 else m
  }

  /** Every class with either method is read back from the type it was combined into. */
  lemma TypeReadsBack(class_: bv16, method_: bv16)
    requires class_ == 0 || class_ == 0x0010 || class_ == 0x0100 || class_ == 0x0110
    requires method_ == 1 || method_ == 3
    ensures ClassOf(class_ | method_) == class_ && MethodOf(class_ | method_) == method_
  {
  }

  // ---- What the check catches ----

  /**
   A message that passes, changed in one byte anywhere before the fingerprint, fails: unless the
   change makes the parser find another fingerprint.
   */
  lemma OneByteChangeFails(hmac: Hmac, key: seq<byte>, f: Fields, buf: seq<byte>, size: nat, k: nat, b: byte)
    requires |buf| == BUF_SIZE && 32 <= size <= BUF_SIZE && |f.fingerprint| == PRINT && |f.integrity| == TAG
    requires IsValid(hmac, key, f, buf, size) == Some(true) && k < size - 8 && b != buf[k]
    requires Parse(f, buf[k := b]).Some? ==>
               Parse(f, buf[k := b]).value.fingerprint == Parse(f, buf).value.fingerprint
    ensures IsValid(hmac, key, f, buf[k := b], size) == if Parse(f, buf[k := b]).Some? then Some(false) else None
  {
    hide Parse, Print, Tag, SetLength, HeaderLength;
    var m, e := buf[..size - 8], buf[k := b];
    assert e[..size - 8] == m[k := b];
    PrintTells(m, k, b);
  }

  lemma PrintTells(m: seq<byte>, k: nat, b: byte)
    requires k < |m| && b != m[k]
    ensures Print(m[k := b]) != Print(m)
  {
    hide Crc32.Crc, Crc32.Xor;
    Crc32.OneByteChangesCrc(m, k, b);
    Crc32.XorCancels(Crc32.Crc(m), Crc32.Crc(m[k := b]), FINGERPRINT_XOR);
    if Print(m[k := b]) == Print(m) {
      Be32Injective(Crc32.Xor(Crc32.Crc(m), FINGERPRINT_XOR), Crc32.Xor(Crc32.Crc(m[k := b]), FINGERPRINT_XOR));
    }
  }
}
