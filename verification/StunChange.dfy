/** What the check of a STUN message catches when one byte of it was changed on the way. */
module StunChange {
  import opened Bytes
  import opened Words
  import opened Stun

  // ---- Changes that leave every attribute where it was ----

  /** Changing byte `k` of the attributes `s` to `b` moves the attributes behind it. */
  predicate Moves(s: seq<byte>, k: nat, b: byte)
    requires k < |s|
    decreases |s|
  {
    |s| >= 4 &&
    var n := UnBe16(s, 2);
    if k < 4 then (k == 2 || k == 3) && Pad(UnBe16(s[k := b], 2)) != Pad(n)
    else 4 + Pad(n) <= k && Moves(s[4 + Pad(n)..], k - 4 - Pad(n), b)
  }

  /** The same for a whole message: its own length field, or an attribute's whose padded length changes. */
  predicate Resizes(buf: seq<byte>, size: nat, k: nat, b: byte)
    requires HEADER <= size <= |buf| && k < size
  {
    k == 2 || k == 3 || (k >= HEADER && Moves(buf[HEADER..size], k - HEADER, b))
  }

  /** The attributes end with a whole fingerprint. */
  predicate Closed(attrs: seq<Attr>) {
    attrs != [] && attrs[|attrs| - 1].typ == FINGERPRINT && |attrs[|attrs| - 1].value| == PRINT
  }

  lemma HeadLength(s: seq<byte>, k: nat, b: byte)
    requires |s| >= 4 && k < |s| && (k < 4 ==> !Moves(s, k, b))
    ensures Pad(UnBe16(s[k := b], 2)) == Pad(UnBe16(s, 2))
  {
    hide Pad;
  }

  lemma TailChanged(s: seq<byte>, k: nat, b: byte, n: nat)
    requires 4 + Pad(n) <= |s| && k < |s|
    ensures s[k := b][4 + Pad(n)..] ==
            if k < 4 + Pad(n) then s[4 + Pad(n)..] else s[4 + Pad(n)..][k - 4 - Pad(n) := b]
  {
    hide Pad;
  }

  /** The attributes as their first and the others. */
  lemma WalkSplit(s: seq<byte>)
    requires |s| % 4 == 0 && s != [] && Walk(s).Some?
    ensures |s| >= 4 && 4 + Pad(UnBe16(s, 2)) <= |s|
    ensures var t := s[4 + Pad(UnBe16(s, 2))..];
            |t| % 4 == 0 && Walk(t).Some? &&
            Walk(s).value == [Attr(UnBe16(s, 0), s[4..4 + UnBe16(s, 2)])] + Walk(t).value
  {
    FirstFits(s);
    WalkFirst(s, UnBe16(s, 2));
    hide Walk, UnBe16, Pad;
  }

  lemma WalkJoin(s: seq<byte>, n: nat)
    requires |s| >= 4 && n == Pad(UnBe16(s, 2)) && 4 + n <= |s| && Walk(s[4 + n..]).Some?
    ensures Walk(s).Some? && Walk(s).value != []
    ensures Walk(s).value[1..] == Walk(s[4 + n..]).value
  {
    hide Walk, UnBe16, Pad;
    WalkFirst(s, UnBe16(s, 2));
    var x := Walk(s[4 + n..]).value;
    assert ([Attr(UnBe16(s, 0), s[4..4 + UnBe16(s, 2)])] + x)[1..] == x;
  }

  ghost predicate SameLast(a: seq<Attr>, b: seq<Attr>) { a != [] && b != [] && a[|a| - 1] == b[|b| - 1] }

  lemma LastOfMore(a: seq<Attr>, b: seq<Attr>)
    requires a != [] && b != [] && SameLast(a[1..], b[1..])
    ensures SameLast(a, b)
  {
  }

  lemma NoMoreAttrs()
    ensures Walk([]) == Some([])
  {
  }

  /** A change before the closing fingerprint that moves nothing leaves it the last attribute found. */
  lemma {:induction false} WalkChanged(s: seq<byte>, k: nat, b: byte)
    requires |s| % 4 == 0 && Walk(s).Some? && Closed(Walk(s).value) && k + 8 < |s| && !Moves(s, k, b)
    ensures Walk(s[k := b]).Some? && SameLast(Walk(s).value, Walk(s[k := b]).value)
    decreases |s|
  {
    hide Walk, UnBe16, Pad;
    WalkSplit(s);
    HeadLength(s, k, b);
    var n := Pad(UnBe16(s, 2));
    var t, e := s[4 + n..], s[k := b];
    TailChanged(s, k, b, UnBe16(s, 2));
    if t == [] {
      NoMoreAttrs();
      OnlyOne(s);
    } else {
      ClosedTail(s, t);
      if k >= 4 + n { WalkChanged(t, k - 4 - n, b); }
      WalkJoin(e, n);
      WalkJoin(s, n);
      LastOfMore(Walk(s).value, Walk(e).value);
    }
  }

  /** A single closing fingerprint takes eight bytes. */
  lemma OnlyOne(s: seq<byte>)
    requires |s| >= 4 && |s| == 4 + Pad(UnBe16(s, 2)) && |s[4..4 + UnBe16(s, 2)]| == PRINT
    ensures |s| == 8
  {
  }

  lemma ClosedTail(s: seq<byte>, t: seq<byte>)
    requires |s| >= 4 && Walk(s).Some? && Walk(t).Some? && Closed(Walk(s).value) && t != []
    requires Walk(s).value[1..] == Walk(t).value
    ensures Closed(Walk(t).value)
  {
  }

  // ---- What the parser keeps, byte by byte ----

  predicate Blank(f: Fields) { |f.fingerprint| == PRINT && |f.integrity| == TAG }

  /** An attribute that fits the field it is copied to, or holds an address. */
  predicate Takeable(a: Attr) {
    var n := |a.value|;
    if a.typ == USERNAME then n <= 128
    else if a.typ == REALM || a.typ == NONCE then n <= 64
    else if a.typ == MESSAGE_INTEGRITY then n <= TAG
    else if a.typ == FINGERPRINT then n <= PRINT
    else if Addressed(a.typ) then n >= 8 && (a.value[1] == 2 ==> n >= 20)
    else true
  }

  predicate AllTakeable(attrs: seq<Attr>) { forall i :: 0 <= i < |attrs| ==> Takeable(attrs[i]) }

  /** Byte `j` of the last attribute of a type that has one. */
  function Carried(attrs: seq<Attr>, typ: u16, j: nat): Option<byte>
    decreases |attrs|
  {
    if attrs == [] then None
    else
      var a := attrs[|attrs| - 1];
      if a.typ == typ && j < |a.value| then Some(a.value[j]) else Carried(attrs[..|attrs| - 1], typ, j)
  }

  function Or(c: Option<byte>, b: byte): byte { if c.Some? then c.value else b }

  /** A field that was `was` holds what the attributes carry, and elsewhere what it held. */
  ghost predicate Kept(was: seq<byte>, now: seq<byte>, attrs: seq<Attr>, typ: u16) {
    |now| == |was| && forall j :: 0 <= j < |now| ==> now[j] == Or(Carried(attrs, typ, j), was[j])
  }

  /** Nothing the attributes carry differs from the bytes `right`. */
  predicate Agrees(attrs: seq<Attr>, typ: u16, right: seq<byte>) {
    forall j :: 0 <= j < |right| ==> Or(Carried(attrs, typ, j), right[j]) == right[j]
  }

  lemma TakeTakes(f: Fields, a: Attr, buf: seq<byte>)
    requires |buf| >= HEADER && Blank(f)
    ensures Take(f, a, buf).Some? <==> Takeable(a)
  {
    hide XorAll, UnBe16;
  }

  lemma CopiedOver(was: seq<byte>, f: seq<byte>, attrs: seq<Attr>, a: Attr, typ: u16)
    requires Kept(was, f, attrs, typ) && (a.typ == typ ==> |a.value| <= |f|)
    ensures Kept(was, if a.typ == typ then Overwrite(f, 0, a.value) else f, attrs + [a], typ)
  {
    hide Carried, Overwrite;
    if a.typ == typ { OverwrittenAt(f, a.value); }
    var now := if a.typ == typ then Overwrite(f, 0, a.value) else f;
    forall j | 0 <= j < |now| ensures now[j] == Or(Carried(attrs + [a], typ, j), was[j]) {
      CarriedMore(attrs, a, typ, j);
    }
  }

  lemma OverwrittenAt(f: seq<byte>, v: seq<byte>)
    requires |v| <= |f|
    ensures |Overwrite(f, 0, v)| == |f|
    ensures forall j :: 0 <= j < |f| ==> Overwrite(f, 0, v)[j] == if j < |v| then v[j] else f[j]
  {
  }

  lemma CarriedMore(attrs: seq<Attr>, a: Attr, typ: u16, j: nat)
    ensures Carried(attrs + [a], typ, j) ==
            if a.typ == typ && j < |a.value| then Some(a.value[j]) else Carried(attrs, typ, j)
  {
    assert (attrs + [a])[..|attrs|] == attrs;
  }

  lemma TakeCopies(f: Fields, a: Attr, buf: seq<byte>)
    requires |buf| >= HEADER && Blank(f) && Take(f, a, buf).Some?
    ensures var g := Take(f, a, buf).value;
            && Takeable(a)
            && g.fingerprint == (if a.typ == FINGERPRINT then Overwrite(f.fingerprint, 0, a.value) else f.fingerprint)
            && g.integrity == (if a.typ == MESSAGE_INTEGRITY then Overwrite(f.integrity, 0, a.value) else f.integrity)
  {
    TakeTakes(f, a, buf);
    hide GetAddress;
  }

  /** The parser takes every attribute or fails, and the two fields hold the last bytes carried. */
  lemma {:induction false} GatherKeeps(f: Fields, attrs: seq<Attr>, buf: seq<byte>)
    requires |buf| >= HEADER && Blank(f)
    ensures Gather(f, attrs, buf).Some? <==> AllTakeable(attrs)
    ensures Gather(f, attrs, buf).Some? ==>
              var g := Gather(f, attrs, buf).value;
              Kept(f.fingerprint, g.fingerprint, attrs, FINGERPRINT) && Kept(f.integrity, g.integrity, attrs, MESSAGE_INTEGRITY)
    decreases |attrs|
  {
    hide Take, Takeable, Kept;
    if attrs == [] {
      NothingKept(f.fingerprint, FINGERPRINT);
      NothingKept(f.integrity, MESSAGE_INTEGRITY);
    } else {
      var before, a := attrs[..|attrs| - 1], attrs[|attrs| - 1];
      assert before + [a] == attrs;
      GatherKeeps(f, before, buf);
      if Gather(f, before, buf).Some? {
        var g := Gather(f, before, buf).value;
        TakeTakes(g, a, buf);
        if Takeable(a) {
          TakeCopies(g, a, buf);
          FieldLengths(a);
          CopiedOver(f.fingerprint, g.fingerprint, before, a, FINGERPRINT);
          CopiedOver(f.integrity, g.integrity, before, a, MESSAGE_INTEGRITY);
        }
      }
    }
  }

  lemma FieldLengths(a: Attr)
    requires Takeable(a)
    ensures a.typ == FINGERPRINT ==> |a.value| <= PRINT
    ensures a.typ == MESSAGE_INTEGRITY ==> |a.value| <= TAG
  {
  }

  lemma NothingKept(f: seq<byte>, typ: u16)
    ensures Kept(f, f, [], typ)
  {
  }

  // ---- When a message can pass at all ----

  /** The digest the receiver computes. */
  function Digest(hmac: Hmac, key: seq<byte>, buf: seq<byte>, size: nat): (r: seq<byte>)
    requires |buf| == BUF_SIZE && 32 <= size <= BUF_SIZE
    ensures |r| == TAG
  {
    Tag(hmac, key, SetLength(buf, (HeaderLength(buf) - 8) % 0x1_0000)[..size - 32])
  }

  /** Some earlier contents of the receiver's fields let the message pass. */
  ghost predicate CanPass(hmac: Hmac, key: seq<byte>, buf: seq<byte>, size: nat)
    requires |buf| == BUF_SIZE && 32 <= size <= BUF_SIZE
  {
    exists f: Fields :: Blank(f) && IsValid(hmac, key, f, buf, size) == Some(true)
  }

  /** The fields as a passing message would leave them. */
  function Right(hmac: Hmac, key: seq<byte>, buf: seq<byte>, size: nat): (f: Fields)
    requires |buf| == BUF_SIZE && 32 <= size <= BUF_SIZE
    ensures Blank(f)
  {
    Fields(Print(buf[..size - 8]), Digest(hmac, key, buf, size), [], [], [], None, None)
  }

  function Scanned(buf: seq<byte>): Option<seq<Attr>>
    requires |buf| == BUF_SIZE
  {
    Scan(buf, HEADER, HeaderLength(buf) + HEADER)
  }

  lemma PassMeans(hmac: Hmac, key: seq<byte>, f: Fields, buf: seq<byte>, size: nat)
    requires |buf| == BUF_SIZE && 32 <= size <= BUF_SIZE && Blank(f)
    ensures IsValid(hmac, key, f, buf, size) == Some(true) <==>
            && Parse(f, buf).Some? && Parse(f, buf).value.fingerprint == Print(buf[..size - 8])
            && Parse(f, buf).value.integrity == Digest(hmac, key, buf, size)
  {
    hide Parse, Print, Tag, SetLength, HeaderLength;
  }

  lemma ParseKeeps(f: Fields, buf: seq<byte>)
    requires |buf| == BUF_SIZE && Blank(f)
    ensures Parse(f, buf).Some? <==> Scanned(buf).Some? && AllTakeable(Scanned(buf).value)
    ensures Parse(f, buf).Some? ==>
              var g, attrs := Parse(f, buf).value, Scanned(buf).value;
              Kept(f.fingerprint, g.fingerprint, attrs, FINGERPRINT) && Kept(f.integrity, g.integrity, attrs, MESSAGE_INTEGRITY)
  {
    hide Scan, Gather, AllTakeable, Kept, HeaderLength;
    if Scanned(buf).Some? { GatherKeeps(f, Scanned(buf).value, buf); }
  }

  /** A field left right agrees with what is carried; one that held the right bytes and agrees is left right. */
  lemma KeptAgrees(was: seq<byte>, now: seq<byte>, attrs: seq<Attr>, typ: u16)
    requires Kept(was, now, attrs, typ)
    ensures Agrees(attrs, typ, now)
    ensures Agrees(attrs, typ, was) ==> now == was
  {
    hide Carried;
    if Agrees(attrs, typ, was) {
      assert forall j :: 0 <= j < |now| ==> now[j] == was[j];
    }
  }

  /**
   A message can pass exactly if the parser stays inside the buffer and takes every attribute, and no
   byte of fingerprint or digest it finds last is other than the one computed.
   */
  lemma PassesForSome(hmac: Hmac, key: seq<byte>, buf: seq<byte>, size: nat)
    requires |buf| == BUF_SIZE && 32 <= size <= BUF_SIZE
    ensures CanPass(hmac, key, buf, size) <==>
            && Scanned(buf).Some? && AllTakeable(Scanned(buf).value)
            && Agrees(Scanned(buf).value, FINGERPRINT, Print(buf[..size - 8]))
            && Agrees(Scanned(buf).value, MESSAGE_INTEGRITY, Digest(hmac, key, buf, size))
  {
    hide IsValid, Parse, Scanned, AllTakeable, Kept, Agrees, Print, Digest;
    var g := Right(hmac, key, buf, size);
    PassMeans(hmac, key, g, buf, size);
    ParseKeeps(g, buf);
    if Parse(g, buf).Some? {
      var g1, attrs := Parse(g, buf).value, Scanned(buf).value;
      KeptAgrees(g.fingerprint, g1.fingerprint, attrs, FINGERPRINT);
      KeptAgrees(g.integrity, g1.integrity, attrs, MESSAGE_INTEGRITY);
    }
    if CanPass(hmac, key, buf, size) {
      var f: Fields :| Blank(f) && IsValid(hmac, key, f, buf, size) == Some(true);
      PassMeans(hmac, key, f, buf, size);
      ParseKeeps(f, buf);
      KeptAgrees(f.fingerprint, Parse(f, buf).value.fingerprint, Scanned(buf).value, FINGERPRINT);
      KeptAgrees(f.integrity, Parse(f, buf).value.integrity, Scanned(buf).value, MESSAGE_INTEGRITY);
    }
  }

  // ---- Changes that are always caught ----

  /** A message with whole attributes, the fingerprint last. */
  ghost predicate Whole(buf: seq<byte>, size: nat) {
    && |buf| == BUF_SIZE && 32 <= size <= BUF_SIZE && size % 4 == 0 && HeaderLength(buf) == size - HEADER
    && Walk(buf[HEADER..size]).Some? && Closed(Walk(buf[HEADER..size]).value)
  }

  lemma LengthStays(buf: seq<byte>, k: nat, b: byte)
    requires |buf| == BUF_SIZE && k < |buf| && k != 2 && k != 3
    ensures HeaderLength(buf[k := b]) == HeaderLength(buf)
  {
  }

  lemma BodyChanged(buf: seq<byte>, size: nat, k: nat, b: byte)
    requires HEADER <= size <= |buf| && k < size
    ensures buf[k := b][HEADER..size] == if k < HEADER then buf[HEADER..size] else buf[HEADER..size][k - HEADER := b]
  {
  }

  lemma WholeStays(buf: seq<byte>, size: nat, k: nat, b: byte)
    requires Whole(buf, size) && k < size - 8 && !Resizes(buf, size, k, b)
    ensures Whole(buf[k := b], size)
    ensures SameLast(Walk(buf[HEADER..size]).value, Walk(buf[k := b][HEADER..size]).value)
  {
    hide Walk, Moves, HeaderLength;
    LengthStays(buf, k, b);
    BodyChanged(buf, size, k, b);
    if k >= HEADER {
      BodyWords(size);
      WalkChanged(buf[HEADER..size], k - HEADER, b);
    }
  }

  lemma BodyWords(size: nat)
    requires HEADER <= size && size % 4 == 0
    ensures (size - HEADER) % 4 == 0
  {
  }

  /** The fingerprint a whole message closes with. */
  function Closing(buf: seq<byte>, size: nat): (r: seq<byte>)
    requires HEADER <= size <= |buf| && Walk(buf[HEADER..size]).Some? && Closed(Walk(buf[HEADER..size]).value)
    ensures |r| == PRINT
  {
    Walk(buf[HEADER..size]).value[|Walk(buf[HEADER..size]).value| - 1].value
  }

  /** It is what the parser carries away. */
  lemma WholeCarries(buf: seq<byte>, size: nat)
    requires Whole(buf, size)
    ensures Scanned(buf).Some?
    ensures forall j :: 0 <= j < PRINT ==> Carried(Scanned(buf).value, FINGERPRINT, j) == Some(Closing(buf, size)[j])
  {
    hide Walk, Scan, HeaderLength;
    assert buf[..size][HEADER..] == buf[HEADER..size];
    ScanIsWalk(buf, HEADER, size);
    var xs, ys := Walk(buf[HEADER..size]).value, Scanned(buf).value;
    assert AsSeen(xs[|xs| - 1], ys[|ys| - 1]);
  }

  lemma OnlyClosing(attrs: seq<Attr>, c: seq<byte>, right: seq<byte>)
    requires |c| == |right| == PRINT && forall j :: 0 <= j < PRINT ==> Carried(attrs, FINGERPRINT, j) == Some(c[j])
    requires Agrees(attrs, FINGERPRINT, right)
    ensures c == right
  {
    hide Carried;
    forall j | 0 <= j < PRINT ensures c[j] == right[j] { }
  }

  /** A whole message can pass only under the fingerprint of its own bytes. */
  lemma WholePassesClosed(hmac: Hmac, key: seq<byte>, buf: seq<byte>, size: nat)
    requires Whole(buf, size) && CanPass(hmac, key, buf, size)
    ensures Closing(buf, size) == Print(buf[..size - 8])
  {
    assert |buf| == BUF_SIZE && 32 <= size <= BUF_SIZE;
    hide CanPass, Carried, Scanned, AllTakeable, Agrees, Digest, Print;
    PassesForSome(hmac, key, buf, size);
    WholeCarries(buf, size);
    OnlyClosing(Scanned(buf).value, Closing(buf, size), Print(buf[..size - 8]));
  }

  lemma WholeChangedFails(hmac: Hmac, key: seq<byte>, buf: seq<byte>, size: nat, k: nat, b: byte)
    requires Whole(buf, size) && Closing(buf, size) == Print(buf[..size - 8])
    requires k < size - 8 && b != buf[k] && !Resizes(buf, size, k, b)
    ensures !CanPass(hmac, key, buf[k := b], size)
  {
    WholeStays(buf, size, k, b);
    hide CanPass, Resizes, Walk, Print, HeaderLength;
    if CanPass(hmac, key, buf[k := b], size) {
      WholePassesClosed(hmac, key, buf[k := b], size);
      assert buf[k := b][..size - 8] == buf[..size - 8][k := b];
      PrintTells(buf[..size - 8], k, b);
    }
  }

  /**
   A message that passes, changed in any one byte before its fingerprint, is refused, unless the byte is
   of a length: the message's own, or an attribute's, changed to a number of other words.
   */
  lemma ChangedByteFails(hmac: Hmac, key: seq<byte>, f: Fields, buf: seq<byte>, size: nat, k: nat, b: byte)
    requires Whole(buf, size) && Blank(f) && IsValid(hmac, key, f, buf, size) == Some(true)
    requires k < size - 8 && b != buf[k] && !Resizes(buf, size, k, b)
    ensures var attrs := Scanned(buf[k := b]);
            attrs.Some? && IsValid(hmac, key, f, buf[k := b], size) == if AllTakeable(attrs.value) then Some(false) else None
  {
    assert |buf| == BUF_SIZE && 32 <= size <= BUF_SIZE;
    var e := buf[k := b];
    WholeStays(buf, size, k, b);
    WholeCarries(e, size);
    hide Whole, Resizes, Walk, Scanned, AllTakeable, Parse, Kept;
    assert CanPass(hmac, key, buf, size);
    hide CanPass, IsValid;
    WholePassesClosed(hmac, key, buf, size);
    WholeChangedFails(hmac, key, buf, size, k, b);
    ParseKeeps(f, e);
    NotPassed(hmac, key, f, e, size);
  }

  lemma NotPassed(hmac: Hmac, key: seq<byte>, f: Fields, buf: seq<byte>, size: nat)
    requires |buf| == BUF_SIZE && 32 <= size <= BUF_SIZE && Blank(f) && !CanPass(hmac, key, buf, size)
    ensures IsValid(hmac, key, f, buf, size) == if Parse(f, buf).Some? then Some(false) else None
  {
    hide Parse, Print, Tag, SetLength, HeaderLength;
  }

  /** A finished message is whole, and closes with the fingerprint of its bytes. */
  lemma FinishedIsWhole(hmac: Hmac, key: seq<byte>, buf: seq<byte>, size: nat, attrs: seq<Attr>)
    requires Message(buf, size, attrs) && size + 32 <= BUF_SIZE
    ensures var r := Finish(hmac, key, buf, size);
            && Whole(r, size + 32) && Closing(r, size + 32) == Print(r[..size + 24])
            && Walk(r[HEADER..size + 32]) == Some(FinishedAttrs(hmac, key, buf, size, attrs))
  {
    assert |buf| == BUF_SIZE && HEADER <= size && HeaderLength(buf) == size - HEADER;
    FinishAdds(hmac, key, buf, size, attrs);
    FinishedDigest(hmac, key, buf, size);
    hide Walk, Finish, WriteAttr, Tag, Print, HeaderLength, SetLength;
  }

  /** So a message closed with a key can not pass after any such change, whatever the receiver's fields held. */
  lemma FinishedChangedFails(hmac: Hmac, key: seq<byte>, buf: seq<byte>, size: nat, attrs: seq<Attr>, k: nat, b: byte)
    requires Message(buf, size, attrs) && size + 32 <= BUF_SIZE
    requires k < size + 24 && b != Finish(hmac, key, buf, size)[k]
    requires !Resizes(Finish(hmac, key, buf, size), size + 32, k, b)
    ensures !CanPass(hmac, key, Finish(hmac, key, buf, size)[k := b], size + 32)
  {
    assert |buf| == BUF_SIZE;
    hide Message, Finish, Whole, Resizes, CanPass, FinishedAttrs, Print, Walk;
    FinishedIsWhole(hmac, key, buf, size, attrs);
    WholeChangedFails(hmac, key, Finish(hmac, key, buf, size), size + 32, k, b);
  }

  // ---- Changes of length that can pass ----

  lemma {:induction false} CarriesNothing(attrs: seq<Attr>, typ: u16, j: nat)
    requires forall i :: 0 <= i < |attrs| ==> attrs[i].typ != typ
    ensures Carried(attrs, typ, j) == None
    decreases |attrs|
  {
    if attrs != [] { CarriesNothing(attrs[..|attrs| - 1], typ, j); }
  }

  /** A message in which the parser comes by neither fingerprint nor digest. */
  lemma UncheckedPasses(hmac: Hmac, key: seq<byte>, buf: seq<byte>, size: nat)
    requires |buf| == BUF_SIZE && 32 <= size <= BUF_SIZE && Scanned(buf).Some? && AllTakeable(Scanned(buf).value)
    requires forall i :: 0 <= i < |Scanned(buf).value| ==>
               Scanned(buf).value[i].typ != FINGERPRINT && Scanned(buf).value[i].typ != MESSAGE_INTEGRITY
    ensures CanPass(hmac, key, buf, size)
  {
    hide CanPass, Scanned, AllTakeable, Print, Digest;
    PassesForSome(hmac, key, buf, size);
    forall j: nat ensures Carried(Scanned(buf).value, FINGERPRINT, j) == None && Carried(Scanned(buf).value, MESSAGE_INTEGRITY, j) == None {
      CarriesNothing(Scanned(buf).value, FINGERPRINT, j);
      CarriesNothing(Scanned(buf).value, MESSAGE_INTEGRITY, j);
    }
  }

  /** A finished message with its length byte changed to zero: the parser sees no attribute at all. */
  lemma ZeroLengthPasses(hmac: Hmac, key: seq<byte>, buf: seq<byte>, size: nat, attrs: seq<Attr>)
    requires Message(buf, size, attrs) && size + 32 <= BUF_SIZE
    ensures var r := Finish(hmac, key, buf, size);
            r[3] != 0 && Resizes(r, size + 32, 3, 0) && CanPass(hmac, key, r[3 := 0], size + 32)
  {
    assert |buf| == BUF_SIZE;
    hide Message, Finish, Walk, HeaderLength, CanPass, FinishedAttrs, Print;
    FinishedIsWhole(hmac, key, buf, size, attrs);
    var e := Finish(hmac, key, buf, size)[3 := 0];
    LowLength(Finish(hmac, key, buf, size), size + 32);
    ScanEnds(e, HEADER, HEADER);
    UncheckedPasses(hmac, key, e, size + 32);
  }

  lemma LowLength(r: seq<byte>, size: nat)
    requires |r| == BUF_SIZE && HeaderLength(r) == size - HEADER && 32 <= size <= BUF_SIZE
    ensures r[2] == 0 && r[3] == size - HEADER && HeaderLength(r[3 := 0]) == 0
  {
  }

  /** Attribute types the parser passes over. */
  predicate Ignored(typ: u16) { !Copied(typ) && !Addressed(typ) }

  /** So it is with the length of a first attribute the parser ignores, grown to the end of the message or beyond. */
  lemma SwallowedPasses(hmac: Hmac, key: seq<byte>, buf: seq<byte>, size: nat, attrs: seq<Attr>, b: byte)
    requires Message(buf, size, attrs) && size + 32 <= BUF_SIZE && attrs != [] && Ignored(attrs[0].typ) && b > size + 4
    ensures var r := Finish(hmac, key, buf, size);
            b != r[HEADER + 3] && CanPass(hmac, key, r[HEADER + 3 := b], size + 32)
  {
    assert |buf| == BUF_SIZE;
    hide Message, Finish, HeaderLength, CanPass, Print, Scanned, Whole, Walk, FinishedAttrs, Ignored, Copied, Addressed;
    FinishedIsWhole(hmac, key, buf, size, attrs);
    var r := Finish(hmac, key, buf, size);
    FirstStays(hmac, key, buf, size, attrs);
    IgnoredTaken(attrs[0].typ);
    SwallowedScan(r, size + 32, b);
    UncheckedPasses(hmac, key, r[HEADER + 3 := b], size + 32);
  }

  lemma FirstStays(hmac: Hmac, key: seq<byte>, buf: seq<byte>, size: nat, attrs: seq<Attr>)
    requires |buf| == BUF_SIZE && size + 32 <= BUF_SIZE && attrs != []
    ensures var all := FinishedAttrs(hmac, key, buf, size, attrs); |all| > 1 && all[0] == attrs[0]
  {
    hide WriteAttr, Tag, Print;
  }

  lemma IgnoredTaken(typ: u16)
    requires Ignored(typ)
    ensures AllTakeable([Attr(typ, [])]) && typ != FINGERPRINT && typ != MESSAGE_INTEGRITY
  {
  }

  lemma SwallowedScan(r: seq<byte>, size: nat, b: byte)
    requires Whole(r, size) && b > size - 28
    requires var w := Walk(r[HEADER..size]).value; |w| > 1 && Ignored(w[0].typ)
    ensures b != r[HEADER + 3] && Scanned(r[HEADER + 3 := b]) == Some([Attr(Walk(r[HEADER..size]).value[0].typ, [])])
  {
    hide Walk, HeaderLength, Scan, Seen, Ignored, Copied, Addressed;
    var s, e := r[HEADER..size], r[HEADER + 3 := b];
    BodyWords(size);
    WalkSplit(s);
    NoMoreAttrs();
    LengthStays(r, HEADER + 3, b);
    FirstReads(r, s, b);
    ScanGoes(e, HEADER, size);
    ScanEnds(e, HEADER + 4 + Pad(UnBe16(e, HEADER + 2)), size);
    SeenIgnored(e, HEADER, UnBe16(e, HEADER), UnBe16(e, HEADER + 2));
    var a := Attr(UnBe16(e, HEADER), []);
    assert [a] + [] == [a] && Walk(s).value[0].typ == a.typ;
  }

  lemma SeenIgnored(buf: seq<byte>, pos: nat, typ: u16, n: nat)
    requires pos + 4 <= |buf| && Ignored(typ)
    ensures Seen(buf, pos, typ, n) == Some([])
  {
  }

  lemma FirstReads(r: seq<byte>, s: seq<byte>, b: byte)
    requires |r| == BUF_SIZE && |s| % 4 == 0 && 8 < |s| <= BUF_SIZE - HEADER && s == r[HEADER..HEADER + |s|]
    requires 4 + Pad(UnBe16(s, 2)) < |s| && b > |s| - 8
    ensures var e := r[HEADER + 3 := b];
            && b != r[HEADER + 3] && UnBe16(e, HEADER) == UnBe16(s, 0) && UnBe16(e, HEADER + 2) == b && 4 + Pad(b) >= |s|
  {
  }
}
