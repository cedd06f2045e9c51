/**
 What the agent hears: a datagram is an answer if it is a Binding response authenticated with the
 remote password. The connectivity check over datagrams instead of flags.
 */
module IceAnswer {
  import opened Bytes
  import opened Ice
  import opened Stun
  import opened StunChange

  const RECV_BUF: nat := 1400
  const REQUEST: bv16 := 0
  const RESPONSE: bv16 := 0x0100
  const BINDING: bv16 := 1

  /** What a message on the stack holds before anything is copied into it. */
  type Junk = j: (seq<byte>, Fields) | |j.0| == BUF_SIZE && Blank(j.1)
    witness (seq(BUF_SIZE, i => 0), Fields(seq(PRINT, i => 0), seq(TAG, i => 0), [], [], [], None, None))

  /**
   A datagram with its sender, and what the memory it is handled in holds: two messages it is parsed
   in, a third one and an array for a reply.
   */
  datatype Datagram = Datagram(bytes: seq<byte>, from: Address, first: Junk, second: Junk, reply: Junk, scratch: seq<byte>)

  predicate Proper(d: Datagram) {
    |d.bytes| <= RECV_BUF && |d.from.ip| == (if d.from.V6? then 16 else 4) && |d.scratch| == 32
  }

  /** The receive buffer, cleared and then filled as far as it goes. */
  function Received(bytes: seq<byte>): (r: seq<byte>)
    requires |bytes| <= RECV_BUF
    ensures |r| == RECV_BUF
  {
    bytes + Zeros(RECV_BUF - |bytes|)
  }

  /** stun_probe, which is given the length of the buffer and not the datagram's. */
  predicate Probe(buf: seq<byte>) { |buf| >= HEADER && buf[4..8] == COOKIE }

  lemma ProbeMeans(bytes: seq<byte>)
    requires |bytes| <= RECV_BUF
    ensures Probe(Received(bytes)) <==> |bytes| >= 8 && bytes[4..8] == COOKIE
  {
    var r := Received(bytes);
    if |bytes| >= 8 {
      assert r[4..8] == bytes[4..8];
    } else {
      assert r[4..8][3] == r[7] == 0;
    }
  }

  /** A STUN message that fits the agent's buffer; a longer one the source copies over the buffer's end. */
  predicate IsStun(d: Datagram) { 0 < |d.bytes| <= BUF_SIZE && Probe(Received(d.bytes)) }

  function Held(j: Junk, bytes: seq<byte>): (r: seq<byte>)
    requires |bytes| <= BUF_SIZE
    ensures |r| == BUF_SIZE
  {
    Overwrite(j.0, 0, bytes)
  }

  /** A Binding message of the class that passes the check with `key`, where parser and check have an answer. */
  predicate Authentic(hmac: Hmac, key: seq<byte>, class_: bv16, d: Datagram) {
    && IsStun(d) && Parse(d.first.1, Held(d.first, d.bytes)).Some?
    && ClassOf(TypeOf(Held(d.first, d.bytes))) == class_ && MethodOf(TypeOf(Held(d.first, d.bytes))) == BINDING
    && IsValid(hmac, key, d.second.1, Held(d.second, d.bytes), |d.bytes|) == Some(true)
  }

  /** What agent_recv brings the check, if anything came in. */
  predicate Answers(hmac: Hmac, key: seq<byte>, d: Option<Datagram>) {
    d.Some? && Authentic(hmac, key, RESPONSE, d.value)
  }

  function AllAnswers(hmac: Hmac, key: seq<byte>, ds: seq<Option<Datagram>>): (r: seq<bool>)
    ensures |r| == |ds|
  {
    seq(|ds|, i requires 0 <= i < |ds| => Answers(hmac, key, ds[i]))
  }

  /** The connection's run over what comes in, one datagram or none a turn. */
  function RunOn(pairs: seq<Pair>, callback: bool, hmac: Hmac, key: seq<byte>, ds: seq<Option<Datagram>>): Check {
    Run(Start(pairs, callback), AllAnswers(hmac, key, ds))
  }

  /**
   Connected exactly when one of the first thousand datagrams a pair is a Binding response
   authenticated with the remote password; failed exactly when further turns came and none was.
   */
  lemma ConnectedExactlyWhenAuthenticated(pairs: seq<Pair>, callback: bool, hmac: Hmac, key: seq<byte>, ds: seq<Option<Datagram>>)
    requires FreshPairs(pairs)
    ensures var c, limit := RunOn(pairs, callback, hmac, key, ds), 1000 * |pairs|;
            && (c.state.Connected? <==>
                  callback && exists i :: 0 <= i < |ds| && i < limit && Answers(hmac, key, ds[i]))
            && (c.state.ConnectionFailed? <==>
                  callback && |ds| > limit && forall i :: 0 <= i < limit ==> !Answers(hmac, key, ds[i]))
            && (!callback ==> c.state.Checking?)
  {
    hide Answers, Run;
    var answers, limit := AllAnswers(hmac, key, ds), CONNCHECK_MAX * |pairs|;
    ConnectedExactlyWhenAnswered(pairs, callback, answers);
    if exists i :: 0 <= i < |ds| && i < limit && Answers(hmac, key, ds[i]) {
      var i :| 0 <= i < |ds| && i < limit && Answers(hmac, key, ds[i]);
      assert answers[i];
    }
  }

  // ---- What an agent sends is heard ----

  lemma SameType(a: seq<byte>, b: seq<byte>)
    requires |a| >= HEADER && |b| >= HEADER && a[..2] == b[..2]
    ensures TypeOf(a) == TypeOf(b)
  {
    assert a[0] == a[..2][0] && a[1] == a[..2][1] && b[0] == b[..2][0] && b[1] == b[..2][1];
  }

  /** A message closed with the key is heard by whoever has it, whatever memory it is received in. */
  lemma ClosedIsHeard(hmac: Hmac, key: seq<byte>, buf: seq<byte>, size: nat, attrs: seq<Attr>, d: Datagram)
    requires Message(buf, size, attrs) && size + 32 <= BUF_SIZE && AllTakeable(attrs) && buf[4..8] == COOKIE
    requires d.bytes == Finish(hmac, key, buf, size)[..size + 32] && MethodOf(TypeOf(buf)) == BINDING
    ensures Authentic(hmac, key, ClassOf(TypeOf(buf)), d)
  {
    hide Finish, Gather, AllTakeable, IsValid, Parse, Walk, ClassOf, MethodOf, TypeOf, Probe, Received;
    var r := Finish(hmac, key, buf, size);
    GatherKeeps(d.first.1, attrs, buf);
    GatherKeeps(d.second.1, attrs, buf);
    ReceivedIsValid(hmac, key, buf, size, attrs, d.first.1, d.first.0);
    ReceivedIsValid(hmac, key, buf, size, attrs, d.second.1, d.second.0);
    ValidParses(hmac, key, d.first.1, Held(d.first, d.bytes), size + 32);
    FinishFront(hmac, key, buf, size);
    ProbeMeans(d.bytes);
    SliceOfSlice(r, 4, HEADER, 0, 4);
    SliceOfSlice(buf, 4, HEADER, 0, 4);
    FrontBytes(r, d.bytes, d.first, size);
    SameType(Held(d.first, d.bytes), buf);
  }

  lemma ValidParses(hmac: Hmac, key: seq<byte>, f: Fields, buf: seq<byte>, size: nat)
    requires |buf| == BUF_SIZE && size <= BUF_SIZE && Blank(f) && IsValid(hmac, key, f, buf, size).Some?
    ensures Parse(f, buf).Some?
  {
    hide Parse;
  }

  lemma FrontBytes(r: seq<byte>, bytes: seq<byte>, j: Junk, size: nat)
    requires |r| == BUF_SIZE && HEADER <= size && size + 32 <= BUF_SIZE && bytes == r[..size + 32]
    ensures bytes[4..8] == r[4..8] && Held(j, bytes)[..2] == r[..2]
  {
  }

  /** The header's transaction id. */
  function Stamped(buf: seq<byte>, id: seq<byte>): (r: seq<byte>)
    requires |buf| == BUF_SIZE && |id| == 12
    ensures |r| == BUF_SIZE
  {
    Overwrite(buf, 8, id)
  }

  lemma StampedStarts(buf: seq<byte>, typ: u16, id: seq<byte>)
    requires |buf| == BUF_SIZE && |id| == 12
    ensures var r := Stamped(Create(buf, typ), id);
            Message(r, HEADER, []) && r[4..8] == COOKIE && r[..2] == Be16(typ)
  {
    CreateStarts(buf, typ);
    var c := Create(buf, typ);
    HeaderParts(c, typ);
    var r := Stamped(c, id);
    hide Create, Be16;
    assert r[..8] == c[..8] && r[HEADER..] == c[HEADER..] && r[HEADER..HEADER] == [];
    assert r[2] == c[..8][2] && r[3] == c[..8][3];
    assert r[4..8] == c[..8][4..8] && r[..2] == c[..8][..2];
  }

  lemma HeaderParts(c: seq<byte>, typ: u16)
    requires |c| == BUF_SIZE && c[..HEADER] == Header(typ)
    ensures c[4..8] == COOKIE && c[..2] == Be16(typ)
  {
    assert c[4..8] == c[..HEADER][4..8] && c[..2] == c[..HEADER][..2];
    hide Be16;
  }

  /** A message as the agent builds it, closed with a key: the bytes that are sent. */
  function Built(hmac: Hmac, key: seq<byte>, start: seq<byte>, attrs: seq<Attr>): seq<byte>
    requires |start| == BUF_SIZE && EndOf(HEADER, attrs) + 32 <= BUF_SIZE
  {
    Finish(hmac, key, WriteAll(start, HEADER, attrs), EndOf(HEADER, attrs))[..EndOf(HEADER, attrs) + 32]
  }

  lemma BuiltIsHeard(hmac: Hmac, key: seq<byte>, start: seq<byte>, typ: u16, attrs: seq<Attr>, class_: bv16, d: Datagram)
    requires Message(start, HEADER, []) && start[4..8] == COOKIE && start[..2] == Be16(typ)
    requires EndOf(HEADER, attrs) + 32 <= BUF_SIZE && AllTakeable(attrs) && d.bytes == Built(hmac, key, start, attrs)
    requires ClassOf(typ as bv16) == class_ && MethodOf(typ as bv16) == BINDING
    ensures Authentic(hmac, key, class_, d)
  {
    assert |start| == BUF_SIZE;
    hide Message, Finish, WriteAll, AllTakeable, Authentic, ClassOf, MethodOf, TypeOf, Be16, EndOf;
    ListWritten(start, attrs);
    var buf := WriteAll(start, HEADER, attrs);
    CookieStays(buf, start);
    TypeWritten(buf, typ);
    ClosedIsHeard(hmac, key, buf, EndOf(HEADER, attrs), attrs, d);
  }

  lemma CookieStays(a: seq<byte>, b: seq<byte>)
    requires |a| == |b| == BUF_SIZE && a[4..HEADER] == b[4..HEADER]
    ensures a[4..8] == b[4..8]
  {
    SliceOfSlice(a, 4, HEADER, 0, 4);
    SliceOfSlice(b, 4, HEADER, 0, 4);
  }

  lemma TypeWritten(buf: seq<byte>, typ: u16)
    requires |buf| == BUF_SIZE && buf[..2] == Be16(typ)
    ensures TypeOf(buf) == typ as bv16
  {
    assert buf[0..2] == Be16(typ);
    Be16Reads(typ, buf, 0);
    hide UnBe16, Be16;
  }

  const USE_CANDIDATE: u16 := 0x0025
  const PRIORITY: u16 := 0x0024
  const ICE_CONTROLLED: u16 := 0x8029
  const ICE_CONTROLLING: u16 := 0x802a

  function RequestAttrs(username: seq<byte>, priority: seq<byte>, controlling: bool, tie: seq<byte>): seq<Attr> {
    [Attr(USERNAME, username), Attr(PRIORITY, priority)] +
    if controlling then [Attr(USE_CANDIDATE, []), Attr(ICE_CONTROLLING, tie)] else [Attr(ICE_CONTROLLED, tie)]
  }

  /** The value written for the address of whoever asked, over whatever the array held. */
  function Mapped(scratch: seq<byte>, id: seq<byte>, from: Address): (r: seq<byte>)
    requires |scratch| == 32 && |id| == 12 && |from.ip| == (if from.V6? then 16 else 4)
    ensures |r| == AddressLength(from)
  {
    SetAddress(scratch, COOKIE + id, from)[..AddressLength(from)]
  }

  function ResponseAttrs(mapped: seq<byte>, username: seq<byte>): seq<Attr> {
    [Attr(XOR_MAPPED_ADDRESS, mapped), Attr(USERNAME, username)]
  }

  lemma MappedTakeable(scratch: seq<byte>, id: seq<byte>, from: Address)
    requires |scratch| == 32 && |id| == 12 && |from.ip| == (if from.V6? then 16 else 4)
    ensures Takeable(Attr(XOR_MAPPED_ADDRESS, Mapped(scratch, id, from)))
  {
    hide XorAll, Be16;
    assert Mapped(scratch, id, from)[1] == if from.V6? then 2 else 1;
  }

  lemma EndOfTwo(a: Attr, b: Attr)
    ensures EndOf(HEADER, [a, b]) == HEADER + 8 + Pad(|a.value|) + Pad(|b.value|)
  {
    hide Pad;
    assert [a, b][..1] == [a] && [a][..0] == [];
    assert EndOf(HEADER, [a]) == HEADER + 4 + Pad(|a.value|);
  }

  /** agent_create_binding_response: what is sent. */
  function BindingResponse(hmac: Hmac, key: seq<byte>, stack: Junk, id: seq<byte>, mapped: seq<byte>, username: seq<byte>): seq<byte>
    requires |id| == 12 && |mapped| <= 20 && |username| <= 128
  {
    EndOfTwo(ResponseAttrs(mapped, username)[0], ResponseAttrs(mapped, username)[1]);
    Built(hmac, key, Stamped(Create(stack.0, 0x0101), id), ResponseAttrs(mapped, username))
  }

  /** A response made with the key is authentic to whoever has it. */
  lemma ResponseIsHeard(hmac: Hmac, key: seq<byte>, stack: Junk, id: seq<byte>, scratch: seq<byte>, from: Address, username: seq<byte>, d: Datagram)
    requires |id| == 12 && |scratch| == 32 && |from.ip| == (if from.V6? then 16 else 4) && |username| <= 128
    requires d.bytes == BindingResponse(hmac, key, stack, id, Mapped(scratch, id, from), username)
    ensures Authentic(hmac, key, RESPONSE, d)
  {
    hide Built, Create, Mapped, Authentic, Message, EndOf, Stamped;
    var attrs := ResponseAttrs(Mapped(scratch, id, from), username);
    EndOfTwo(attrs[0], attrs[1]);
    StampedStarts(stack.0, 0x0101, id);
    MappedTakeable(scratch, id, from);
    ResponseType();
    BuiltIsHeard(hmac, key, Stamped(Create(stack.0, 0x0101), id), 0x0101, attrs, RESPONSE, d);
  }

  lemma ResponseType()
    ensures var t: u16 := 0x0101; ClassOf(t as bv16) == RESPONSE && MethodOf(t as bv16) == BINDING
  {
  }

  lemma EndOfMore(attrs: seq<Attr>, a: Attr)
    ensures EndOf(HEADER, attrs + [a]) == EndOf(HEADER, attrs) + 4 + Pad(|a.value|)
  {
    hide Pad;
    assert (attrs + [a])[..|attrs|] == attrs;
  }

  lemma RequestFits(username: seq<byte>, priority: seq<byte>, controlling: bool, tie: seq<byte>)
    requires |username| <= 128 && |priority| == 4 && |tie| == 8
    ensures EndOf(HEADER, RequestAttrs(username, priority, controlling, tie)) <= 176
    ensures AllTakeable(RequestAttrs(username, priority, controlling, tie))
  {
    var u, p, t := Attr(USERNAME, username), Attr(PRIORITY, priority), Attr(ICE_CONTROLLING, tie);
    EndOfTwo(u, p);
    EndOfMore([u, p], Attr(ICE_CONTROLLED, tie));
    EndOfMore([u, p], Attr(USE_CANDIDATE, []));
    EndOfMore([u, p] + [Attr(USE_CANDIDATE, [])], t);
    assert [u, p] + [Attr(USE_CANDIDATE, [])] + [t] == [u, p] + [Attr(USE_CANDIDATE, []), t];
    hide EndOf;
  }

  /** agent_create_binding_request: what is sent. */
  function BindingRequest(hmac: Hmac, key: seq<byte>, stack: Junk, username: seq<byte>, priority: seq<byte>,
                          controlling: bool, tie: seq<byte>): seq<byte>
    requires |username| <= 128 && |priority| == 4 && |tie| == 8
  {
    RequestFits(username, priority, controlling, tie);
    Built(hmac, key, Create(stack.0, 0x0001), RequestAttrs(username, priority, controlling, tie))
  }

  /** A request made with the key is authentic to whoever has it. */
  lemma RequestIsHeard(hmac: Hmac, key: seq<byte>, stack: Junk, username: seq<byte>, priority: seq<byte>,
                       controlling: bool, tie: seq<byte>, d: Datagram)
    requires |username| <= 128 && |priority| == 4 && |tie| == 8
    requires d.bytes == BindingRequest(hmac, key, stack, username, priority, controlling, tie)
    ensures Authentic(hmac, key, REQUEST, d)
  {
    hide Built, Create, Authentic, Message, EndOf, RequestAttrs, AllTakeable;
    RequestFits(username, priority, controlling, tie);
    CreateStarts(stack.0, 0x0001);
    HeaderParts(Create(stack.0, 0x0001), 0x0001);
    RequestType();
    BuiltIsHeard(hmac, key, Create(stack.0, 0x0001), 0x0001, RequestAttrs(username, priority, controlling, tie), REQUEST, d);
  }

  lemma RequestType()
    ensures var t: u16 := 0x0001; ClassOf(t as bv16) == REQUEST && MethodOf(t as bv16) == BINDING
  {
  }

  /** With the peer's response among the first thousand datagrams a pair, the connection is made. */
  lemma PeerConnects(pairs: seq<Pair>, hmac: Hmac, key: seq<byte>, ds: seq<Option<Datagram>>, i: nat,
                     stack: Junk, id: seq<byte>, scratch: seq<byte>, from: Address, username: seq<byte>)
    requires FreshPairs(pairs) && i < |ds| && i < 1000 * |pairs| && ds[i].Some?
    requires |id| == 12 && |scratch| == 32 && |from.ip| == (if from.V6? then 16 else 4) && |username| <= 128
    requires ds[i].value.bytes == BindingResponse(hmac, key, stack, id, Mapped(scratch, id, from), username)
    ensures RunOn(pairs, true, hmac, key, ds).state.Connected?
  {
    hide RunOn, Authentic, BindingResponse, Mapped;
    ResponseIsHeard(hmac, key, stack, id, scratch, from, username, ds[i].value);
    ConnectedExactlyWhenAuthenticated(pairs, true, hmac, key, ds);
    assert Answers(hmac, key, ds[i]);
  }

  /** What agent_recv sends back: to an authentic request, a response with its transaction id. */
  function Reply(hmac: Hmac, key: seq<byte>, username: seq<byte>, d: Datagram): seq<seq<byte>>
    requires Proper(d) && |username| <= 128
  {
    if Authentic(hmac, key, REQUEST, d) then
      var id := Held(d.first, d.bytes)[8..HEADER];
      [BindingResponse(hmac, key, d.reply, id, Mapped(d.scratch, id, d.from), username)]
    else []
  }

  /** The exchange: a request made with the key gets one reply, and the reply is an answer to whoever asked. */
  lemma RequestGetsAnswer(hmac: Hmac, key: seq<byte>, stack: Junk, asker: seq<byte>, priority: seq<byte>,
                          controlling: bool, tie: seq<byte>, d: Datagram, username: seq<byte>, back: Datagram)
    requires |asker| <= 128 && |priority| == 4 && |tie| == 8 && Proper(d) && |username| <= 128
    requires d.bytes == BindingRequest(hmac, key, stack, asker, priority, controlling, tie)
    ensures var r := Reply(hmac, key, username, d);
            |r| == 1 && (back.bytes == r[0] ==> Answers(hmac, key, Some(back)))
  {
    RequestIsHeard(hmac, key, stack, asker, priority, controlling, tie, d);
    assert |d.bytes| <= BUF_SIZE;
    hide Authentic, BindingRequest, BindingResponse, Mapped;
    var id := Held(d.first, d.bytes)[8..HEADER];
    if back.bytes == Reply(hmac, key, username, d)[0] {
      ResponseIsHeard(hmac, key, d.reply, id, d.scratch, d.from, username, back);
    }
  }

  // ---- What was changed on the way is not ----

  /** A message closed with some key, changed in one byte before its fingerprint that is not of a length. */
  ghost predicate Tampered(bytes: seq<byte>, r: seq<byte>, size: nat, k: nat, b: byte) {
    && Whole(r, size) && Closing(r, size) == Print(r[..size - 8])
    && k < size - 8 && b != r[k] && !Resizes(r, size, k, b) && bytes == r[k := b][..size]
  }

  ghost predicate IsTampered(bytes: seq<byte>) {
    exists r, size, k, b: byte :: Tampered(bytes, r, size, k, b)
  }

  lemma TamperedHeld(j: Junk, bytes: seq<byte>, r: seq<byte>, size: nat, k: nat, b: byte)
    requires Tampered(bytes, r, size, k, b)
    ensures var h := Held(j, r[..size]); |bytes| == size && Held(j, bytes) == h[k := b] && Tampered(bytes, h, size, k, b)
  {
    hide Print, Walk, Moves;
    var h := Held(j, r[..size]);
    assert h[..size] == r[..size];
    Fronts(h, r, size, HEADER, size);
    Fronts(h, r, size, 0, size - 8);
    SameLength(h, r, size);
    assert h[k] == h[..size][k] && r[k] == r[..size][k];
    assert h[k := b][..size] == h[..size][k := b] && r[k := b][..size] == r[..size][k := b];
  }

  lemma TamperedIsNotHeard(hmac: Hmac, key: seq<byte>, class_: bv16, d: Datagram)
    requires IsTampered(d.bytes)
    ensures !Authentic(hmac, key, class_, d)
  {
    var r, size, k, b: byte :| Tampered(d.bytes, r, size, k, b);
    TamperedHeld(d.second, d.bytes, r, size, k, b);
    hide Held, Print, Walk, Resizes, Parse, ClassOf, MethodOf, HeaderLength;
    WholeChangedFails(hmac, key, Held(d.second, r[..size]), size, k, b);
  }

  lemma FinishedTampered(hmac: Hmac, key: seq<byte>, buf: seq<byte>, size: nat, attrs: seq<Attr>, k: nat, b: byte)
    requires Message(buf, size, attrs) && size + 32 <= BUF_SIZE
    requires k < size + 24 && b != Finish(hmac, key, buf, size)[k]
    requires !Resizes(Finish(hmac, key, buf, size), size + 32, k, b)
    ensures IsTampered(Finish(hmac, key, buf, size)[k := b][..size + 32])
  {
    assert |buf| == BUF_SIZE;
    hide Message, Finish, Resizes, Whole, Print, Walk, FinishedAttrs;
    FinishedIsWhole(hmac, key, buf, size, attrs);
    var r := Finish(hmac, key, buf, size);
    assert Tampered(r[k := b][..size + 32], r, size + 32, k, b);
  }

  /** Hearing nothing but messages changed on the way, the agent never connects. */
  lemma TamperedNeverConnects(pairs: seq<Pair>, callback: bool, hmac: Hmac, key: seq<byte>, ds: seq<Option<Datagram>>)
    requires FreshPairs(pairs) && forall i :: 0 <= i < |ds| && ds[i].Some? ==> IsTampered(ds[i].value.bytes)
    ensures !RunOn(pairs, callback, hmac, key, ds).state.Connected?
  {
    hide RunOn, Authentic, IsTampered;
    forall i | 0 <= i < |ds| ensures !Answers(hmac, key, ds[i]) {
      if ds[i].Some? { TamperedIsNotHeard(hmac, key, RESPONSE, ds[i].value); }
    }
    ConnectedExactlyWhenAuthenticated(pairs, callback, hmac, key, ds);
  }
}
