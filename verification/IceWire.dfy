/** The agent's messages byte by byte, and what whoever receives them reads out of them. */
module IceWire {
  import opened Bytes
  import opened Stun
  import opened StunChange
  import opened IceAnswer
  import Crc32
  import Words

  // ---- What the parser keeps of a list of attributes ----

  /** The last value of a type in a list. */
  function Last(attrs: seq<Attr>, typ: u16): Option<seq<byte>>
    decreases |attrs|
  {
    if attrs == [] then None
    else if attrs[|attrs| - 1].typ == typ then Some(attrs[|attrs| - 1].value)
    else Last(attrs[..|attrs| - 1], typ)
  }

  function Or<T>(x: Option<T>, y: T): T { if x.Some? then x.value else y }

  /** A value that spells an address, of which byte `i` of port and number is masked with `mask[i]`. */
  predicate Spells(v: seq<byte>, mask: seq<byte>, a: Address)
    requires |mask| == 16
  {
    && |v| >= 8 && (a.V6? <==> v[1] == 2) && (a.V6? ==> |v| >= 20) && |a.ip| == (if a.V6? then 16 else 4)
    && a.port == 256 * XorByte(v[2], mask[0]) + XorByte(v[3], mask[1])
    && forall i :: 0 <= i < |a.ip| ==> a.ip[i] == XorByte(v[4 + i], mask[i])
  }

  lemma GetSpells(v: seq<byte>, mask: seq<byte>)
    requires |mask| == 16 && GetAddress(v, mask).Some?
    ensures Spells(v, mask, GetAddress(v, mask).value)
  {
    hide XorByte, XorAll;
  }

  lemma SetSpells(scratch: seq<byte>, mask: seq<byte>, a: Address)
    requires |scratch| == 32 && |mask| == 16 && |a.ip| == (if a.V6? then 16 else 4)
    ensures Spells(SetAddress(scratch, mask, a)[..AddressLength(a)], mask, a)
  {
    hide Spells, SetAddress, GetAddress;
    AddressRoundTrip(scratch, mask, a);
    GetSpells(SetAddress(scratch, mask, a)[..AddressLength(a)], mask);
  }

  /** The user name, realm and nonce kept are those carried last. */
  lemma {:induction false} GatherLast(f: Fields, attrs: seq<Attr>, buf: seq<byte>)
    requires |buf| >= HEADER && Blank(f) && Gather(f, attrs, buf).Some?
    ensures var g := Gather(f, attrs, buf).value;
            && g.username == Or(Last(attrs, 0x0006), f.username) && g.realm == Or(Last(attrs, 0x0014), f.realm)
            && g.nonce == Or(Last(attrs, 0x0015), f.nonce)
    decreases |attrs|
  {
    if attrs != [] {
      GatherLast(f, attrs[..|attrs| - 1], buf);
      hide Gather;
      GatherOne(f, attrs, buf);
      hide GetAddress, Overwrite;
    }
  }

  lemma GatherOne(f: Fields, attrs: seq<Attr>, buf: seq<byte>)
    requires |buf| >= HEADER && Blank(f) && attrs != []
    ensures var g := Gather(f, attrs[..|attrs| - 1], buf);
            Gather(f, attrs, buf) == if g.Some? then Take(g.value, attrs[|attrs| - 1], buf) else None
  {
    hide Take;
  }

  /** An address field after a list of attributes: as before, or what the last value of the type spells. */
  ghost predicate Addresses(last: Option<seq<byte>>, mask: seq<byte>, was: Option<Address>, now: Option<Address>)
    requires |mask| == 16
  {
    if last.None? then now == was else now.Some? && Spells(last.value, mask, now.value)
  }

  lemma TakeMasked(f: Fields, a: Attr, buf: seq<byte>)
    requires |buf| >= HEADER && Blank(f) && Take(f, a, buf).Some? && a.typ != 0x0001
    ensures var g, mask := Take(f, a, buf).value, [0x21, 0x12, 0xA4, 0x42] + buf[8..20];
            && Addresses(if a.typ == 0x0020 then Some(a.value) else None, mask, f.mapped, g.mapped)
            && Addresses(if a.typ == 0x0016 then Some(a.value) else None, mask, f.relayed, g.relayed)
  {
    hide GetAddress, Spells, Overwrite;
    var mask := [0x21, 0x12, 0xA4, 0x42] + buf[8..20];
    if GetAddress(a.value, mask).Some? { GetSpells(a.value, mask); }
  }

  lemma AddressesThen(last: Option<seq<byte>>, next: Option<seq<byte>>, mask: seq<byte>, x: Option<Address>, y: Option<Address>, z: Option<Address>)
    requires |mask| == 16 && Addresses(last, mask, x, y) && Addresses(next, mask, y, z)
    ensures Addresses(if next.Some? then next else last, mask, x, z)
  {
    hide Spells;
  }

  /** Which address is kept: of the last attribute that carries one. */
  lemma {:induction false} GatherAddress(f: Fields, attrs: seq<Attr>, buf: seq<byte>)
    requires |buf| >= HEADER && Blank(f) && Gather(f, attrs, buf).Some? && Last(attrs, 0x0001).None?
    ensures var g, mask := Gather(f, attrs, buf).value, [0x21, 0x12, 0xA4, 0x42] + buf[8..20];
            && Addresses(Last(attrs, 0x0020), mask, f.mapped, g.mapped)
            && Addresses(Last(attrs, 0x0016), mask, f.relayed, g.relayed)
    decreases |attrs|
  {
    if attrs != [] {
      var front, a := attrs[..|attrs| - 1], attrs[|attrs| - 1];
      GatherOne(f, attrs, buf);
      GatherAddress(f, front, buf);
      hide Gather, Take, Addresses;
      var x, mask := Gather(f, front, buf).value, [0x21, 0x12, 0xA4, 0x42] + buf[8..20];
      TakeMasked(x, a, buf);
      var y := Take(x, a, buf).value;
      AddressesThen(Last(front, 0x0020), if a.typ == 0x0020 then Some(a.value) else None, mask, f.mapped, x.mapped, y.mapped);
      AddressesThen(Last(front, 0x0016), if a.typ == 0x0016 then Some(a.value) else None, mask, f.relayed, x.relayed, y.relayed);
    }
  }

  /** An address that is not masked. */
  lemma PlainAddress(f: Fields, a: Attr, buf: seq<byte>)
    requires |buf| >= HEADER && Blank(f) && a.typ == 0x0001 && Take(f, a, buf).Some?
    ensures var g := Take(f, a, buf).value;
            g.mapped.Some? && Spells(a.value, seq(16, i => 0), g.mapped.value) && g == f.(mapped := g.mapped)
  {
    hide GetAddress, Spells;
    GetSpells(a.value, seq(16, i => 0));
  }

  // ---- A closed message at the other end ----

  /** The bytes of a message closed behind `attrs`, with some digest and some fingerprint. */
  ghost predicate Sealed(hmac: Hmac, key: seq<byte>, bytes: seq<byte>, attrs: seq<Attr>) {
    && 52 <= |bytes| <= 256 && |bytes| % 4 == 0
    && var n, at := |bytes| - 20, |bytes| - 32;
       var tag := Tag(hmac, key, bytes[..2] + [(n - 8) / 256, (n - 8) % 256] + bytes[4..at]);
       var mark := Words.Be32(Crc32.Xor(Crc32.Crc(bytes[..|bytes| - 8]), 0x5354554e));
       && bytes[2] == n / 256 && bytes[3] == n % 256
       && Walk(bytes[20..at]) == Some(attrs)
       && Walk(bytes[20..]) == Some(attrs + [Attr(0x0008, tag), Attr(0x8028, mark)])
  }

  lemma TagBytes(r: seq<byte>, size: nat, n: u16)
    requires |r| == BUF_SIZE && 20 <= size <= 256
    ensures SetLength(r, n)[..size] == r[..2] + [n / 256, n % 256] + r[4..size]
  {
    assert n / 256 % 256 == n / 256;
  }

  lemma MessageWalk(buf: seq<byte>, size: nat, attrs: seq<Attr>)
    requires Message(buf, size, attrs)
    ensures |buf| == BUF_SIZE && HEADER <= size <= BUF_SIZE && size % 4 == 0 && HeaderLength(buf) == size - HEADER
    ensures Walk(buf[HEADER..size]) == Some(attrs)
  {
    hide Walk, HeaderLength;
  }

  /** The digest and the fingerprint a message is closed with. */
  function Digested(hmac: Hmac, key: seq<byte>, buf: seq<byte>, size: nat): seq<byte>
    requires |buf| == BUF_SIZE && size <= BUF_SIZE
  {
    Tagged(hmac, key, buf, size).value
  }

  function Marked(hmac: Hmac, key: seq<byte>, buf: seq<byte>, size: nat): seq<byte>
    requires |buf| == BUF_SIZE && size + 32 <= BUF_SIZE
  {
    Printed(WriteAttr(buf, size, Tagged(hmac, key, buf, size)), size + 24).value
  }

  lemma ClosedAttrs(hmac: Hmac, key: seq<byte>, buf: seq<byte>, size: nat, attrs: seq<Attr>)
    requires |buf| == BUF_SIZE && size + 32 <= BUF_SIZE
    ensures FinishedAttrs(hmac, key, buf, size, attrs) ==
            attrs + [Attr(0x0008, Digested(hmac, key, buf, size))] + [Attr(0x8028, Marked(hmac, key, buf, size))]
  {
    hide WriteAttr, SetLength, Tag, Print, HeaderLength;
  }

  lemma ClosedWith(hmac: Hmac, key: seq<byte>, buf: seq<byte>, size: nat)
    requires |buf| == BUF_SIZE && HEADER <= size && size + 32 <= BUF_SIZE && HeaderLength(buf) == size - HEADER
    ensures var r := Finish(hmac, key, buf, size);
            && r[HEADER..size] == buf[HEADER..size] && Marked(hmac, key, buf, size) == Print(r[..size + 24])
            && Digested(hmac, key, buf, size) == Tag(hmac, key, SetLength(r, size + 4)[..size])
            && HeaderLength(r) == size + 12
  {
    hide Finish, WriteAttr, HeaderLength, SetLength, Tag, Print;
    FinishFront(hmac, key, buf, size);
    FinishedDigest(hmac, key, buf, size);
  }

  /** Closing a message seals it. */
  lemma ClosedSealed(hmac: Hmac, key: seq<byte>, buf: seq<byte>, size: nat, attrs: seq<Attr>)
    requires Message(buf, size, attrs) && size + 32 <= BUF_SIZE
    ensures Sealed(hmac, key, Finish(hmac, key, buf, size)[..size + 32], attrs)
  {
    hide Message, Walk, Finish, Tag, SetLength, HeaderLength, Sealed, FinishedAttrs, Digested, Marked, Crc32.Crc, Crc32.Xor, Words.Be32;
    MessageWalk(buf, size, attrs);
    var r, tag, mark := Finish(hmac, key, buf, size), Digested(hmac, key, buf, size), Marked(hmac, key, buf, size);
    FinishAdds(hmac, key, buf, size, attrs);
    ClosedAttrs(hmac, key, buf, size, attrs);
    ClosedWith(hmac, key, buf, size);
    MessageWalk(r, size + 32, attrs + [Attr(0x0008, tag)] + [Attr(0x8028, mark)]);
    TagBytes(r, size, size + 4);
    LengthBytes(r, size + 12);
    SealedParts(r, r[..size + 32], size);
    Sealing(hmac, key, r[..size + 32], attrs, tag, mark);
  }

  lemma SealedParts(r: seq<byte>, bytes: seq<byte>, size: nat)
    requires 20 <= size && size + 32 <= |r| && bytes == r[..size + 32]
    ensures bytes[20..size] == r[20..size] && bytes[20..] == r[20..size + 32] && bytes[..2] == r[..2] && bytes[4..size] == r[4..size]
    ensures bytes[..size + 24] == r[..size + 24] && bytes[2] == r[2] && bytes[3] == r[3]
  {
  }

  lemma LengthBytes(r: seq<byte>, n: u16)
    requires |r| >= HEADER && HeaderLength(r) == n
    ensures r[2] == n / 256 && r[3] == n % 256
  {
  }

  lemma Sealing(hmac: Hmac, key: seq<byte>, bytes: seq<byte>, attrs: seq<Attr>, tag: seq<byte>, mark: seq<byte>)
    requires 52 <= |bytes| <= 256 && |bytes| % 4 == 0 && bytes[2] == (|bytes| - 20) / 256 && bytes[3] == (|bytes| - 20) % 256
    requires var n, at := |bytes| - 20, |bytes| - 32;
             && tag == Tag(hmac, key, bytes[..2] + [(n - 8) / 256, (n - 8) % 256] + bytes[4..at])
             && mark == Words.Be32(Crc32.Xor(Crc32.Crc(bytes[..|bytes| - 8]), 0x5354554e))
             && Walk(bytes[20..at]) == Some(attrs)
    requires Walk(bytes[20..]) == Some(attrs + [Attr(0x0008, tag)] + [Attr(0x8028, mark)])
    ensures Sealed(hmac, key, bytes, attrs)
  {
    hide Walk, Tag, Crc32.Crc, Crc32.Xor;
    assert attrs + [Attr(0x0008, tag)] + [Attr(0x8028, mark)] == attrs + [Attr(0x0008, tag), Attr(0x8028, mark)];
  }

  lemma SealedWalk(hmac: Hmac, key: seq<byte>, bytes: seq<byte>, attrs: seq<Attr>) returns (all: seq<Attr>)
    requires Sealed(hmac, key, bytes, attrs)
    ensures Walk(bytes[20..]) == Some(all) && |all| == |attrs| + 2 && all[..|attrs|] == attrs
    ensures all[|attrs|].typ == 0x0008 && |all[|attrs|].value| == 20
    ensures all[|attrs| + 1].typ == 0x8028 && |all[|attrs| + 1].value| == 4
    ensures 52 <= |bytes| <= 256 && |bytes| % 4 == 0 && UnBe16(bytes, 2) == |bytes| - 20
  {
    hide Walk, Tag, Crc32.Crc, Crc32.Xor, Words.Be32;
    all := Walk(bytes[20..]).value;
  }

  lemma HeldMessage(j: Junk, bytes: seq<byte>, all: seq<Attr>)
    requires 52 <= |bytes| <= 256 && |bytes| % 4 == 0 && UnBe16(bytes, 2) == |bytes| - 20 && Walk(bytes[20..]) == Some(all)
    ensures Message(Held(j, bytes), |bytes|, all)
  {
    hide Walk;
    var h := Held(j, bytes);
    assert h[20..|bytes|] == bytes[20..] && h[2] == bytes[2] && h[3] == bytes[3];
  }

  lemma AllTaken(attrs: seq<Attr>, all: seq<Attr>)
    requires |all| == |attrs| + 2 && all[..|attrs|] == attrs && AllTakeable(attrs)
    requires all[|attrs|].typ == 0x0008 && |all[|attrs|].value| == 20
    requires all[|attrs| + 1].typ == 0x8028 && |all[|attrs| + 1].value| == 4
    ensures AllTakeable(all)
  {
    hide Takeable;
    assert Takeable(all[|attrs|]) && Takeable(all[|attrs| + 1]) by { LastTwo(all[|attrs|], all[|attrs| + 1]); }
    forall i | 0 <= i < |all| ensures Takeable(all[i]) {
      if i < |attrs| { assert all[i] == attrs[i]; }
    }
  }

  lemma LastTwo(x: Attr, y: Attr)
    requires x.typ == 0x0008 && |x.value| == 20 && y.typ == 0x8028 && |y.value| == 4
    ensures Takeable(x) && Takeable(y)
  {
  }

  /** Parsing a sealed message: all its attributes, whatever the memory held. */
  lemma SealedParses(hmac: Hmac, key: seq<byte>, bytes: seq<byte>, attrs: seq<Attr>, j: Junk) returns (all: seq<Attr>)
    requires Sealed(hmac, key, bytes, attrs) && AllTakeable(attrs)
    ensures |all| == |attrs| + 2 && all[..|attrs|] == attrs && all[|attrs|].typ == 0x0008 && all[|attrs| + 1].typ == 0x8028
    ensures |bytes| <= 256 && Parse(j.1, Held(j, bytes)).Some? && Parse(j.1, Held(j, bytes)) == Gather(j.1, all, Held(j, bytes))
  {
    hide Sealed, Walk, Gather, Parse, Message, AllTakeable, Held;
    all := SealedWalk(hmac, key, bytes, attrs);
    HeldMessage(j, bytes, all);
    AllTaken(attrs, all);
    GatherKeeps(j.1, all, Held(j, bytes));
    MessageParses(j.1, Held(j, bytes), |bytes|, all);
  }

  lemma SpellsOne(v: seq<byte>, mask: seq<byte>, a: Address, b: Address)
    requires |mask| == 16 && Spells(v, mask, a) && Spells(v, mask, b)
    ensures a == b
  {
    hide XorByte;
    assert a.ip == b.ip;
  }

  lemma ClosedFront(hmac: Hmac, key: seq<byte>, buf: seq<byte>, size: nat, attrs: seq<Attr>)
    requires Message(buf, size, attrs) && size + 32 <= BUF_SIZE
    ensures |buf| == BUF_SIZE && HEADER <= size
    ensures var bytes := Finish(hmac, key, buf, size)[..size + 32]; bytes[..2] == buf[..2] && bytes[4..20] == buf[4..20]
  {
    hide Message, Finish, WriteAttr, SetLength, HeaderLength, Tag;
    MessageMeans(buf, size, attrs);
    FinishFront(hmac, key, buf, size);
    var r := Finish(hmac, key, buf, size);
    Fronts(r[..size + 32], r, size + 32, 4, 20);
    Fronts(r[..size + 32], r, size + 32, 0, 2);
  }

  lemma Listed(start: seq<byte>, attrs: seq<Attr>)
    requires Message(start, HEADER, []) && EndOf(HEADER, attrs) <= BUF_SIZE
    ensures |start| == BUF_SIZE
    ensures var buf := WriteAll(start, HEADER, attrs);
            Message(buf, EndOf(HEADER, attrs), attrs) && buf[..2] == start[..2] && buf[4..20] == start[4..20]
  {
    assert |start| == BUF_SIZE;
    hide Message, WriteAll, EndOf;
    ListWritten(start, attrs);
  }

  /** What a built message is, read from its bytes. */
  lemma BuiltSealed(hmac: Hmac, key: seq<byte>, start: seq<byte>, attrs: seq<Attr>)
    requires Message(start, HEADER, []) && EndOf(HEADER, attrs) + 32 <= BUF_SIZE
    ensures |start| == BUF_SIZE
    ensures var bytes := Built(hmac, key, start, attrs);
            Sealed(hmac, key, bytes, attrs) && |bytes| == EndOf(HEADER, attrs) + 32 && bytes[..2] == start[..2] && bytes[4..20] == start[4..20]
  {
    hide Message, Finish, WriteAll, EndOf, Sealed;
    Listed(start, attrs);
    var buf, size := WriteAll(start, HEADER, attrs), EndOf(HEADER, attrs);
    ClosedSealed(hmac, key, buf, size, attrs);
    ClosedFront(hmac, key, buf, size, attrs);
  }

  // ---- The reply ----

  /** The type, cookie and transaction id of a message. */
  predicate Headed(bytes: seq<byte>, hi: byte, lo: byte, id: seq<byte>) {
    |bytes| >= 20 && bytes[0] == hi && bytes[1] == lo && bytes[4..8] == [0x21, 0x12, 0xA4, 0x42] && bytes[8..20] == id
  }

  lemma StampedId(buf: seq<byte>, id: seq<byte>)
    requires |buf| == BUF_SIZE && |id| == 12
    ensures Stamped(buf, id)[8..20] == id
  {
  }

  lemma StartHeaded(start: seq<byte>, bytes: seq<byte>, typ: u16, id: seq<byte>)
    requires |start| >= 20 && |bytes| >= 20 && bytes[..2] == start[..2] == Be16(typ) && bytes[4..20] == start[4..20]
    requires start[4..8] == COOKIE && start[8..20] == id
    ensures Headed(bytes, typ / 256, typ % 256, id)
  {
    assert bytes[0] == bytes[..2][0] && bytes[1] == bytes[..2][1];
    assert bytes[4..8] == bytes[4..20][..4] == start[4..20][..4] == start[4..8];
    assert bytes[8..20] == bytes[4..20][4..] == start[4..20][4..] == start[8..20];
  }

  lemma MappedSpells(scratch: seq<byte>, id: seq<byte>, from: Address) returns (v: seq<byte>)
    requires |id| == 12 && |scratch| == 32 && |from.ip| == (if from.V6? then 16 else 4)
    ensures v == Mapped(scratch, id, from) && Spells(v, [0x21, 0x12, 0xA4, 0x42] + id, from)
    ensures forall u :: |u| <= 128 ==> AllTakeable([Attr(0x0020, v), Attr(0x0006, u)])
  {
    hide Spells;
    v := Mapped(scratch, id, from);
    SetSpells(scratch, COOKIE + id, from);
    MappedTakeable(scratch, id, from);
    hide Mapped;
  }

  /** The response's bytes: its header, the masked address, the user name, digest and fingerprint. */
  lemma ResponseBytes(hmac: Hmac, key: seq<byte>, stack: Junk, id: seq<byte>, scratch: seq<byte>, from: Address, username: seq<byte>)
    returns (v: seq<byte>)
    requires |id| == 12 && |scratch| == 32 && |from.ip| == (if from.V6? then 16 else 4) && |username| <= 128
    ensures var bytes := BindingResponse(hmac, key, stack, id, Mapped(scratch, id, from), username);
            && |bytes| <= 256 && Headed(bytes, 0x01, 0x01, id)
            && Sealed(hmac, key, bytes, [Attr(0x0020, v), Attr(0x0006, username)])
    ensures |v| == (if from.V6? then 20 else 8) && Spells(v, [0x21, 0x12, 0xA4, 0x42] + id, from)
    ensures AllTakeable([Attr(0x0020, v), Attr(0x0006, username)])
  {
    v := MappedSpells(scratch, id, from);
    hide Spells, AllTakeable, Built, Create, Mapped, Message, EndOf, Stamped, Sealed, Spells, Headed, Be16;
    var attrs := ResponseAttrs(v, username);
    EndOfTwo(attrs[0], attrs[1]);
    StampedStarts(stack.0, 0x0101, id);
    var start := Stamped(Create(stack.0, 0x0101), id);
    StampedId(Create(stack.0, 0x0101), id);
    BuiltSealed(hmac, key, start, attrs);
    StartHeaded(start, Built(hmac, key, start, attrs), 0x0101, id);
  }

  /** What the reply leaves in whoever asked: its own address as the agent saw it, and the agent's name. */
  ghost predicate Told(j: Junk, bytes: seq<byte>, from: Address, username: seq<byte>) {
    |bytes| <= BUF_SIZE && var g := Parse(j.1, Held(j, bytes)); g.Some? && g.value.mapped == Some(from) && g.value.username == username
  }

  lemma LastOfFour(a: Attr, b: Attr, all: seq<Attr>)
    requires |all| == 4 && all[..2] == [a, b] && all[2].typ == 0x0008 && all[3].typ == 0x8028
    requires a.typ == 0x0020 && b.typ == 0x0006
    ensures Last(all, 0x0020) == Some(a.value) && Last(all, 0x0006) == Some(b.value) && Last(all, 0x0001).None?
  {
    assert all[..3][..2] == [a, b] && [a, b][..1] == [a];
    assert Last([a], 0x0020) == Some(a.value) && Last([a], 0x0001) == Last([], 0x0001) == None by { assert [a][..0] == []; }
    assert Last([a, b], 0x0020) == Some(a.value) && Last([a, b], 0x0006) == Some(b.value) && Last([a, b], 0x0001).None?;
    assert Last(all[..3], 0x0020) == Some(a.value) && Last(all[..3], 0x0006) == Some(b.value) && Last(all[..3], 0x0001).None?;
  }

  lemma ResponseTells(hmac: Hmac, key: seq<byte>, bytes: seq<byte>, v: seq<byte>, id: seq<byte>, from: Address, username: seq<byte>, j: Junk)
    requires |id| == 12 && Headed(bytes, 0x01, 0x01, id) && Spells(v, [0x21, 0x12, 0xA4, 0x42] + id, from)
    requires var attrs := [Attr(0x0020, v), Attr(0x0006, username)]; Sealed(hmac, key, bytes, attrs) && AllTakeable(attrs)
    ensures Told(j, bytes, from, username)
  {
    var a, b := Attr(0x0020, v), Attr(0x0006, username);
    assert |bytes| <= 256;
    hide Sealed, AllTakeable, Spells, Gather, Last;
    var all := SealedParses(hmac, key, bytes, [a, b], j);
    LastOfFour(a, b, all);
    var h := Held(j, bytes);
    GatherLast(j.1, all, h);
    GatherAddress(j.1, all, h);
    assert h[8..20] == bytes[8..20] == id;
    SpellsOne(v, [0x21, 0x12, 0xA4, 0x42] + id, from, Parse(j.1, h).value.mapped.value);
  }

  /** An authentic request gets one reply, which carries its transaction id and tells the asker its own address. */
  lemma ReplyTells(hmac: Hmac, key: seq<byte>, username: seq<byte>, d: Datagram, j: Junk)
    requires Proper(d) && |username| <= 128 && Authentic(hmac, key, 0, d)
    ensures var r := Reply(hmac, key, username, d);
            |r| == 1 && Told(j, r[0], d.from, username) && Headed(r[0], 0x01, 0x01, Held(d.first, d.bytes)[8..20])
  {
    var id := Held(d.first, d.bytes)[8..20];
    hide Authentic, BindingResponse, Mapped, Told, Spells, Sealed, Headed;
    var v := ResponseBytes(hmac, key, d.reply, id, d.scratch, d.from, username);
    ResponseTells(hmac, key, BindingResponse(hmac, key, d.reply, id, Mapped(d.scratch, id, d.from), username), v, id, d.from, username, j);
  }

  /** So does any response built for that address, whatever memory it is built in. */
  lemma BuiltTells(hmac: Hmac, key: seq<byte>, stack: Junk, id: seq<byte>, scratch: seq<byte>, from: Address, username: seq<byte>)
    requires |id| == 12 && |scratch| == 32 && |from.ip| == (if from.V6? then 16 else 4) && |username| <= 128
    ensures var bytes := BindingResponse(hmac, key, stack, id, Mapped(scratch, id, from), username);
            Headed(bytes, 0x01, 0x01, id) && forall j: Junk :: Told(j, bytes, from, username)
  {
    hide BindingResponse, Mapped, Told, Spells, Sealed, Headed, AllTakeable;
    var v := ResponseBytes(hmac, key, stack, id, scratch, from, username);
    var bytes := BindingResponse(hmac, key, stack, id, Mapped(scratch, id, from), username);
    forall j: Junk ensures Told(j, bytes, from, username) {
      ResponseTells(hmac, key, bytes, v, id, from, username, j);
    }
  }

  // ---- The request ----

  /** The request's bytes: the attributes a check carries in either role, digest and fingerprint. */
  lemma RequestBytes(hmac: Hmac, key: seq<byte>, stack: Junk, username: seq<byte>, priority: seq<byte>, controlling: bool, tie: seq<byte>)
    requires |username| <= 128 && |priority| == 4 && |tie| == 8
    ensures var bytes := BindingRequest(hmac, key, stack, username, priority, controlling, tie);
            && Headed(bytes, 0x00, 0x01, [0x77, 0x07, 0x30, 0x96, 0xee, 0x0e, 0x61, 0x2c, 0x99, 0x09, 0x51, 0xba])
            && Sealed(hmac, key, bytes,
                      if controlling then [Attr(0x0006, username), Attr(0x0024, priority), Attr(0x0025, []), Attr(0x802a, tie)]
                      else [Attr(0x0006, username), Attr(0x0024, priority), Attr(0x8029, tie)])
  {
    hide RequestAttrs, AllTakeable, Built, Create, Message, EndOf, Sealed, Headed, Be16, Header;
    RequestList(username, priority, controlling, tie);
    RequestFits(username, priority, controlling, tie);
    CreateStarts(stack.0, 0x0001);
    var start, attrs := Create(stack.0, 0x0001), RequestAttrs(username, priority, controlling, tie);
    HeaderIs(start);
    HeaderParts(start, 0x0001);
    BuiltSealed(hmac, key, start, attrs);
    StartHeaded(start, Built(hmac, key, start, attrs), 0x0001, [0x77, 0x07, 0x30, 0x96, 0xee, 0x0e, 0x61, 0x2c, 0x99, 0x09, 0x51, 0xba]);
  }

  lemma RequestList(username: seq<byte>, priority: seq<byte>, controlling: bool, tie: seq<byte>)
    ensures RequestAttrs(username, priority, controlling, tie) ==
            if controlling then [Attr(0x0006, username), Attr(0x0024, priority), Attr(0x0025, []), Attr(0x802a, tie)]
            else [Attr(0x0006, username), Attr(0x0024, priority), Attr(0x8029, tie)]
  {
  }

  lemma HeaderIs(start: seq<byte>)
    requires |start| == BUF_SIZE && start[..HEADER] == Header(0x0001)
    ensures start[8..20] == [0x77, 0x07, 0x30, 0x96, 0xee, 0x0e, 0x61, 0x2c, 0x99, 0x09, 0x51, 0xba]
  {
    assert start[8..20] == start[..HEADER][8..20];
    IdWords();
    hide Be16, Words.Be32;
  }

  lemma IdWords()
    ensures Words.Be32(0x77073096) == [0x77, 0x07, 0x30, 0x96] && Words.Be32(0xee0e612c) == [0xee, 0x0e, 0x61, 0x2c]
    ensures Words.Be32(0x990951ba) == [0x99, 0x09, 0x51, 0xba]
  {
  }

  lemma AuthenticFits(hmac: Hmac, key: seq<byte>, class_: bv16, d: Datagram)
    requires Authentic(hmac, key, class_, d)
    ensures |d.bytes| <= BUF_SIZE
  {
    hide IsValid, Parse;
  }

  /** The exchange: whoever sends a request made with the key gets one reply, and learns its own address from it. */
  lemma ExchangeTells(hmac: Hmac, key: seq<byte>, stack: Junk, asker: seq<byte>, priority: seq<byte>,
                      controlling: bool, tie: seq<byte>, d: Datagram, username: seq<byte>, j: Junk)
    requires |asker| <= 128 && |priority| == 4 && |tie| == 8 && Proper(d) && |username| <= 128
    requires d.bytes == BindingRequest(hmac, key, stack, asker, priority, controlling, tie)
    ensures var r := Reply(hmac, key, username, d);
            |r| == 1 && Told(j, r[0], d.from, username)
            && Headed(r[0], 0x01, 0x01, [0x77, 0x07, 0x30, 0x96, 0xee, 0x0e, 0x61, 0x2c, 0x99, 0x09, 0x51, 0xba])
  {
    hide Authentic, BindingRequest, Told, Reply, Sealed;
    RequestIsHeard(hmac, key, stack, asker, priority, controlling, tie, d);
    RequestBytes(hmac, key, stack, asker, priority, controlling, tie);
    AuthenticFits(hmac, key, 0, d);
    ReplyTells(hmac, key, username, d, j);
    assert Held(d.first, d.bytes)[8..20] == d.bytes[8..20];
  }

  // ---- What is an answer at all ----

  lemma TypesSettled(t: u16)
    requires t in {0x0001, 0x0003, 0x0011, 0x0013, 0x0101, 0x0103, 0x0111, 0x0113}
    ensures ClassOf(t as bv16) == RESPONSE && MethodOf(t as bv16) == BINDING <==> t == 0x0101
    ensures ClassOf(t as bv16) == REQUEST && MethodOf(t as bv16) == BINDING <==> t == 0x0001
  {
    if t == 0x0001 {} else if t == 0x0003 {} else if t == 0x0011 {} else if t == 0x0013 {}
    else if t == 0x0101 {} else if t == 0x0103 {} else if t == 0x0111 {} else {}
  }

  lemma HeldType(h: seq<byte>, hi: byte, lo: byte)
    requires |h| >= HEADER && h[0] == hi && h[1] == lo && hi <= 1 && lo in {0x01, 0x03, 0x11, 0x13}
    ensures ClassOf(TypeOf(h)) == RESPONSE && MethodOf(TypeOf(h)) == BINDING <==> hi == 1 && lo == 1
    ensures ClassOf(TypeOf(h)) == REQUEST && MethodOf(TypeOf(h)) == BINDING <==> hi == 0 && lo == 1
  {
    var t: u16 := if hi == 0 then lo else 256 + lo;
    assert UnBe16(h, 0) == t;
    hide ClassOf, MethodOf, UnBe16;
    TypesSettled(t);
  }

  /**
   Of the messages of every class, Binding or Allocate, only a Binding response is an answer and only a
   Binding request is replied to; and nothing is either without the cookie in place or longer than 256 bytes.
   */
  lemma OnlyBindingCounts(hmac: Hmac, key: seq<byte>, d: Datagram, hi: byte, lo: byte)
    requires |d.bytes| >= 20 && d.bytes[0] == hi && d.bytes[1] == lo && hi <= 1 && lo in {0x01, 0x03, 0x11, 0x13}
    ensures Authentic(hmac, key, 0x0100, d) ==> hi == 1 && lo == 1 && d.bytes[4..8] == [0x21, 0x12, 0xA4, 0x42] && |d.bytes| <= 256
    ensures Authentic(hmac, key, 0x0000, d) ==> hi == 0 && lo == 1 && d.bytes[4..8] == [0x21, 0x12, 0xA4, 0x42] && |d.bytes| <= 256
  {
    if |d.bytes| <= RECV_BUF { ProbeMeans(d.bytes); }
    hide IsValid, Parse, ClassOf, MethodOf, TypeOf, Probe, Received;
    if IsStun(d) {
      var h := Held(d.first, d.bytes);
      assert h[0] == hi && h[1] == lo;
      HeldType(h, hi, lo);
    }
  }
}
