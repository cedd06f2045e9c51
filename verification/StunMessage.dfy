/** The message buffer with its size and parsed fields, updated in place. */
module StunMessage {
  import opened Bytes
  import opened Words
  import opened Stun
  import Crc32

  lemma {:induction false} GatherStops(f: Fields, a: seq<Attr>, b: seq<Attr>, buf: seq<byte>)
    requires |buf| >= HEADER && |f.fingerprint| == PRINT && |f.integrity| == TAG && Gather(f, a, buf).None?
    ensures Gather(f, a + b, buf).None?
    decreases |b|
  {
    if b == [] {
      assert a + b == a;
    } else {
      assert (a + b)[..|a + b| - 1] == a + b[..|b| - 1];
      GatherStops(f, a, b[..|b| - 1], buf);
    }
    hide Take;
  }

  /** The value given, or what the buffer holds in its place. */
  function ValueOr(buf: seq<byte>, size: nat, length: nat, value: Option<seq<byte>>): (r: seq<byte>)
    requires size + 4 + length <= |buf| && (value.Some? ==> |value.value| == length)
    ensures |r| == length
  {
    match value case Some(v) => v case None => buf[size + 4..size + 4 + length]
  }

  /** Head and value stored one after the other are the attribute put in place. */
  lemma PutInTwo(buf: seq<byte>, size: nat, typ: u16, length: nat, value: Option<seq<byte>>)
    requires |buf| == BUF_SIZE && size + 4 + Pad(length) <= BUF_SIZE && (value.Some? ==> |value.value| == length)
    ensures var h := Overwrite(buf, size, Be16(typ) + Be16(length));
            Put(buf, size, Attr(typ, ValueOr(buf, size, length, value))) ==
            match value case Some(x) => Overwrite(h, size + 4, x) case None => h
  {
    hide Be16, Pad;
  }

  lemma AddsToAny(b: seq<byte>, size: nat, a: Attr)
    requires |b| == BUF_SIZE && Fits(size, a)
    ensures forall attrs: seq<Attr> :: Stun.Message(b, size, attrs) ==>
              Stun.Message(WriteAttr(b, size, a), size + 4 + Pad(|a.value|), attrs + [a])
  {
    hide Stun.Message, WriteAttr, Pad;
    forall attrs: seq<Attr> | Stun.Message(b, size, attrs)
      ensures Stun.Message(WriteAttr(b, size, a), size + 4 + Pad(|a.value|), attrs + [a])
    {
      WriteAdds(b, size, attrs, a);
    }
  }

  class Message {
    const buf: array<byte>
    var size: nat
    var stunclass: bv16
    var stunmethod: bv16
    var fields: Fields

    ghost predicate Valid()
      reads this
    {
      buf.Length == BUF_SIZE && size <= BUF_SIZE && |fields.fingerprint| == PRINT && |fields.integrity| == TAG
    }

    constructor (fields: Fields)
      requires |fields.fingerprint| == PRINT && |fields.integrity| == TAG
      ensures Valid() && fresh(buf) && size == 0 && this.fields == fields
    {
      buf := new byte[BUF_SIZE](_ => 0);
      size, stunclass, stunmethod := 0, 0, 0;
      this.fields := fields;
    }

    /** stun_msg_create */
    method Create(typ: u16)
      requires Valid()
      modifies this`size, buf
      ensures Valid() && buf[..] == Stun.Create(old(buf[..]), typ) && size == HEADER
      ensures Stun.Message(buf[..], size, [])
    {
      CreateStarts(buf[..], typ);
      hide Header, Walk;
      Memcpy(buf, 0, Header(typ));
      size := HEADER;
    }

    /** Sets the length field. */
    method StoreLength(n: u16)
      requires buf.Length == BUF_SIZE
      modifies buf
      ensures buf[..] == SetLength(old(buf[..]), n)
    {
      Memcpy(buf, 2, Be16(n));
    }

    /** stun_msg_write_attr, for an attribute that fits the buffer; without a value the buffer's bytes stay. */
    method WriteAttribute(typ: u16, length: nat, value: Option<seq<byte>>)
      requires Valid() && size + 4 + Pad(length) <= BUF_SIZE && (value.Some? ==> |value.value| == length)
      modifies this`size, buf
      ensures var a := Attr(typ, ValueOr(old(buf[..]), old(size), length, value));
              && Valid() && buf[..] == WriteAttr(old(buf[..]), old(size), a)
              && forall attrs: seq<Attr> :: Stun.Message(old(buf[..]), old(size), attrs) ==>
                   Stun.Message(buf[..], size, attrs + [a])
      ensures size == old(size) + 4 + Pad(length)
    {
      hide Stun.Message, Be16, UnBe16, Pad, Overwrite, ValueOr, SetLength, Put;
      ghost var b, z, a := buf[..], size, Attr(typ, ValueOr(buf[..], size, length, value));
      AddsToAny(b, z, a);
      var counted := UnBe16(buf[..], 2);
      Memcpy(buf, size, Be16(typ) + Be16(length));
      if value.Some? { Memcpy(buf, size + 4, value.value); }
      PutInTwo(b, size, typ, length, value);
      StoreLength((counted + 4 + Pad(length)) % 0x1_0000);
      size := size + 4 + Pad(length);
    }

    /** stun_msg_finish with a short-term key. */
    method Close(hmac: Hmac, key: seq<byte>)
      requires Valid() && HEADER <= size && size + 32 <= BUF_SIZE
      modifies this`size, buf
      ensures Valid() && buf[..] == Finish(hmac, key, old(buf[..]), old(size)) && size == old(size) + 32
    {
      hide WriteAttr, Be16, UnBe16, Tag, Print, Encodes;
      ghost var b := buf[..];
      var length: int := UnBe16(buf[..], 2);
      StoreLength((length + 24) % 0x1_0000);
      var tag := Tag(hmac, key, buf[..][..size]);
      PutBefore(b, Attr(MESSAGE_INTEGRITY, tag), length);
      ghost var c := buf[..];
      StoreLength((length + 32) % 0x1_0000);
      var crc := Crc32.TableCrc(buf[..][..size]);
      var mark := Be32(Crc32.Xor(crc, FINGERPRINT_XOR));
      assert mark == Print(buf[..][..size]) by { MarkIs(buf[..][..size], crc); }
      SumWraps(length);
      PutBefore(c, Attr(FINGERPRINT, mark), (length + 24) % 0x1_0000);
    }

    lemma MarkIs(m: seq<byte>, crc: bv32)
      requires crc == Crc32.Crc(m)
      ensures Be32(Crc32.Xor(crc, FINGERPRINT_XOR)) == Print(m)
    {
    }

    /** An attribute put in place once the length field counts it. */
    method PutBefore(ghost was: seq<byte>, a: Attr, ghost length: nat)
      requires Valid() && HEADER <= size && Fits(size, a) && |was| == BUF_SIZE && length == HeaderLength(was)
      requires buf[..] == SetLength(was, (length + 4 + Pad(|a.value|)) % 0x1_0000)
      modifies this`size, buf
      ensures Valid() && buf[..] == WriteAttr(was, old(size), a) && size == old(size) + 4 + Pad(|a.value|)
      ensures HeaderLength(buf[..]) == (length + 4 + Pad(|a.value|)) % 0x1_0000
    {
      hide WriteAttr, Be16, UnBe16, Encodes, Pad;
      WriteIgnoresLength(was, size, a, (length + 4 + Pad(|a.value|)) % 0x1_0000);
      WriteBytes(was, size, a);
      Memcpy(buf, size, Be16(a.typ) + Be16(|a.value|) + a.value);
      size := size + 4 + Pad(|a.value|);
    }

    /** The class, narrowed down in the source's order. */
    method ParseClass(t: bv16)
      modifies this`stunclass
      ensures stunclass == ClassOf(t)
    {
      stunclass := t;
      if stunclass & 0x0110 == 0x0110 { stunclass := 0x0110; }
      else if stunclass & 0x0010 == 0x0010 { stunclass := 0x0010; }
      else if stunclass & 0x0100 == 0x0100 { stunclass := 0x0100; }
      else { stunclass := 0; }
    }

    method ParseMethod(t: bv16)
      modifies this`stunmethod
      ensures stunmethod == MethodOf(t)
    {
      stunmethod := t & 0x0FFF;
      if stunmethod & 3 == 3 { stunmethod := 3; }
      else if stunmethod & 1 == 1 { stunmethod := 1; }
    }

    /** stun_parse_msg_buf: false where the parser would leave the buffer or its fields. */
    method ParseBuf() returns (ok: bool)
      requires Valid()
      modifies this`fields, this`stunclass, this`stunmethod
      ensures Valid() && ok == Parse(old(fields), buf[..]).Some?
      ensures ok ==> fields == Parse(old(fields), buf[..]).value
      ensures stunclass == ClassOf(TypeOf(buf[..])) && stunmethod == MethodOf(TypeOf(buf[..]))
    {
      hide ClassOf, MethodOf;
      ParseClass(TypeOf(buf[..]));
      ParseMethod(TypeOf(buf[..]));
      ok := TakeAll(UnBe16(buf[..], 2) + HEADER);
      hide Scan, Gather;
    }

    /** stun_msg_is_valid on the received bytes `m`, copied over whatever the buffer holds. */
    method Check(hmac: Hmac, key: seq<byte>, m: seq<byte>) returns (ok: Option<bool>)
      requires Valid() && |m| <= BUF_SIZE
      modifies this`fields, this`stunclass, this`stunmethod, buf
      ensures Valid() && ok == IsValid(hmac, key, old(fields), Overwrite(old(buf[..]), 0, m), |m|)
    {
      hide Parse, Print, Tag, UnBe16, SetLength, Overwrite;
      Memcpy(buf, 0, m);
      ghost var b := buf[..];
      var parsed := ParseBuf();
      if !parsed || |m| < 8 { return None; }
      var crc := Crc32.TableCrc(buf[..][..|m| - 8]);
      var mark := Be32(Crc32.Xor(crc, FINGERPRINT_XOR));
      assert mark == Print(b[..|m| - 8]) by { MarkIs(b[..|m| - 8], crc); }
      if mark != fields.fingerprint { return Some(false); }
      if |m| < 32 { return None; }
      var length: int := UnBe16(buf[..], 2);
      StoreLength((length - 8) % 0x1_0000);
      var tag := Tag(hmac, key, buf[..][..|m| - 32]);
      ok := Some(tag == fields.integrity);
    }

    /** The parser's loop. */
    method TakeAll(end: nat) returns (ok: bool)
      requires Valid() && HEADER <= end
      modifies this`fields
      ensures Valid()
      ensures ok <==> Scan(buf[..], HEADER, end).Some? && Gather(old(fields), Scan(buf[..], HEADER, end).value, buf[..]).Some?
      ensures ok ==> Some(fields) == Gather(old(fields), Scan(buf[..], HEADER, end).value, buf[..])
    {
      hide Scan, Gather, Take, UnBe16, Pad, Seen;
      ghost var f, b := fields, buf[..];
      ghost var done: seq<Attr> := [];
      GatherNone(f, b);
      var pos := HEADER;
      while pos < end
        invariant HEADER <= pos && Valid()
        invariant Gather(f, done, b) == Some(fields)
        invariant Scan(b, HEADER, end).Some? <==> Scan(b, pos, end).Some?
        invariant Scan(b, pos, end).Some? ==> Scan(b, HEADER, end).value == done + Scan(b, pos, end).value
        decreases end - pos
      {
        if pos + 4 > BUF_SIZE {
          ScanLeaves(b, pos, end);
          return false;
        }
        ScanGoes(b, pos, end);
        var typ, length := UnBe16(buf[..], pos), UnBe16(buf[..], pos + 2);
        var v := Seen(buf[..], pos, typ, length);
        if v.None? { return false; }
        var a := Attr(typ, v.value);
        var next := pos + 4 + Pad(length);
        ghost var rest := if Scan(b, next, end).Some? then Scan(b, next, end).value else [];
        var g := Take(fields, a, buf[..]);
        GatherMore(f, done, a, rest, b);
        if g.None? { return false; }
        fields := g.value;
        done := done + [a];
        pos := next;
      }
      ScanEnds(b, pos, end);
      assert done + [] == done;
      ok := true;
    }
  }

  lemma ScanLeaves(buf: seq<byte>, pos: nat, end: nat)
    requires pos < end && pos + 4 > |buf|
    ensures Scan(buf, pos, end).None?
  {
  }

  lemma GatherNone(f: Fields, buf: seq<byte>)
    requires |buf| >= HEADER && |f.fingerprint| == PRINT && |f.integrity| == TAG
    ensures Gather(f, [], buf) == Some(f)
  {
  }

  lemma GatherLast(f: Fields, done: seq<Attr>, a: Attr, buf: seq<byte>)
    requires |buf| >= HEADER && |f.fingerprint| == PRINT && |f.integrity| == TAG && Gather(f, done, buf).Some?
    ensures Gather(f, done + [a], buf) == Take(Gather(f, done, buf).value, a, buf)
  {
    hide Take;
    var d := done + [a];
    assert d[..|d| - 1] == done;
  }

  lemma Regrouped(done: seq<Attr>, a: Attr, rest: seq<Attr>)
    ensures done + ([a] + rest) == (done + [a]) + rest
  {
  }

  lemma GatherMore(f: Fields, done: seq<Attr>, a: Attr, rest: seq<Attr>, buf: seq<byte>)
    requires |buf| >= HEADER && |f.fingerprint| == PRINT && |f.integrity| == TAG && Gather(f, done, buf).Some?
    ensures Gather(f, done + [a], buf) == Take(Gather(f, done, buf).value, a, buf)
    ensures Gather(f, done + [a], buf).None? ==> Gather(f, done + ([a] + rest), buf).None?
    ensures done + ([a] + rest) == (done + [a]) + rest
  {
    hide Take, Gather;
    GatherLast(f, done, a, buf);
    Regrouped(done, a, rest);
    if Gather(f, done + [a], buf).None? { GatherStops(f, done + [a], rest, buf); }
  }

  lemma SumWraps(n: nat)
    ensures ((n + 24) % 0x1_0000 + 8) % 0x1_0000 == (n + 32) % 0x1_0000
  {
  }

  /** Setting the length before the attribute goes in, or after, is the same. */
  lemma WriteIgnoresLength(buf: seq<byte>, size: nat, a: Attr, n: u16)
    requires |buf| == BUF_SIZE && HEADER <= size && Fits(size, a)
    requires n == (HeaderLength(buf) + 4 + Pad(|a.value|)) % 0x1_0000
    ensures Put(SetLength(buf, n), size, a) == WriteAttr(buf, size, a)
  {
    hide Be16, Pad, HeaderLength;
    var w := Be16(a.typ) + Be16(|a.value|) + a.value;
    assert Overwrite(Overwrite(buf, 2, Be16(n)), size, w) == Overwrite(Overwrite(buf, size, w), 2, Be16(n));
  }
}
