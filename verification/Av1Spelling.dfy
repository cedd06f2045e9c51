/** A temporal unit as an encoder spells it, OBU by OBU, and what of it is sent. */
module Av1Spelling {
  import opened Bytes
  import opened Rtp
  import opened Av1Obu
  import opened Av1Packetizer
  import Leb128

  /** An OBU: header byte, extension byte where the header announces one, and payload. */
  datatype Obu = Obu(header: byte, extension: seq<byte>, payload: seq<byte>)

  predicate Formed(o: Obu) { |o.extension| == o.header / 4 % 2 && |o.payload| < 0x100_0000_0000_0000 }

  predicate AllFormed(os: seq<Obu>) { forall i :: 0 <= i < |os| ==> Formed(os[i]) }

  /** The header with obu_has_size_field as wanted. */
  function Header(h: byte, sized: bool): byte { h / 4 * 4 + (if sized then 2 else 0) + h % 2 }

  /** Temporal delimiters, tile lists and padding stay behind. */
  predicate Travels(o: Obu) { o.header / 8 % 16 != 2 && o.header / 8 % 16 != 8 && o.header / 8 % 16 != 15 }

  function Sized(o: Obu): seq<byte> { [Header(o.header, true)] + o.extension + Leb128.Encode(|o.payload|) + o.payload }

  function Bare(o: Obu): seq<byte> { [Header(o.header, false)] + o.extension + o.payload }

  /** Each OBU with its size; the last one perhaps without, up to the end. */
  function Spelled(os: seq<Obu>, lastSized: bool): seq<byte> {
    if os == [] then []
    else if |os| == 1 && !lastSized then Bare(os[0])
    else Sized(os[0]) + Spelled(os[1..], lastSized)
  }

  /** The OBUs that travel, in order, sizes taken out. */
  function Sent(os: seq<Obu>): seq<Element> {
    if os == [] then []
    else (if Travels(os[0]) then [Element([Header(os[0].header, false)] + os[0].extension, os[0].payload)] else []) + Sent(os[1..])
  }

  predicate StartsSequence(os: seq<Obu>) { exists i :: 0 <= i < |os| && os[i].header / 8 % 16 == 1 }

  lemma HeaderReads(h: byte, sized: bool)
    ensures var c := Header(h, sized);
            && ObuType(c) == h / 8 % 16 && HasExtension(c) == (h / 4 % 2 == 1) && HasSizeField(c) == sized
            && ClearSizeField(c) == Header(h, false)
  {
    assert Header(h, sized) / 4 == h / 4 && Header(h, sized) / 8 == h / 8;
  }

  lemma FirstSized(o: Obu, rest: seq<byte>)
    requires Formed(o)
    ensures var p := Sized(o) + rest;
            && p != [] && p[0] == Header(o.header, true)
            && var s := ObuSpan(p);
               && s.Span? && p[s.end..] == rest
               && ElementAt(p, s) == Element([Header(o.header, false)] + o.extension, o.payload)
  {
    var h := Header(o.header, true);
    HeaderReads(o.header, true);
    SizedSpan(h, o.extension, o.payload, rest);
    var front := [h] + o.extension + Leb128.Encode(|o.payload|);
    var p := front + o.payload + rest;
    assert p == Sized(o) + rest;
    assert p[|front|..|front| + |o.payload|] == o.payload && p[|front| + |o.payload|..] == rest;
    assert p[1..1 + |o.extension|] == o.extension;
    hide Header, ObuType, HasSizeField, ClearSizeField, Leb128.Encode, Leb128.Size;
  }

  lemma LastBare(o: Obu)
    requires Formed(o)
    ensures var p := Bare(o);
            && p != [] && p[0] == Header(o.header, false)
            && var s := ObuSpan(p);
               && s.Span? && p[s.end..] == []
               && ElementAt(p, s) == Element([Header(o.header, false)] + o.extension, o.payload)
  {
    HeaderReads(o.header, false);
    var p := Bare(o);
    assert p[1..1 + |o.extension|] == o.extension && p[1 + |o.extension|..|p|] == o.payload;
    hide Header, ObuType, HasSizeField, ClearSizeField;
  }

  lemma ForwardedTravels(o: Obu, sized: bool)
    ensures Forwarded(Header(o.header, sized)) == Travels(o)
    ensures (ObuType(Header(o.header, sized)) == SEQUENCE_HEADER) == (o.header / 8 % 16 == 1)
  {
    HeaderReads(o.header, sized);
    hide Header, ObuType;
  }

  lemma StartsLater(o: Obu, os: seq<Obu>)
    ensures StartsSequence([o] + os) <==> o.header / 8 % 16 == 1 || StartsSequence(os)
  {
    var all := [o] + os;
    assert all[0] == o;
    if StartsSequence(os) {
      var i :| 0 <= i < |os| && os[i].header / 8 % 16 == 1;
      assert all[i + 1] == os[i];
    }
    if StartsSequence(all) && o.header / 8 % 16 != 1 {
      var i :| 0 <= i < |all| && all[i].header / 8 % 16 == 1;
      assert all[i] == os[i - 1];
    }
  }

  /** The parse of what begins with one OBU. */
  lemma ParseFirst(p: seq<byte>, o: Obu, sized: bool, rest: seq<byte>, taken: nat)
    requires Formed(o) && p == (if sized then Sized(o) + rest else Bare(o)) && (!sized ==> rest == [])
    ensures Parse(p, taken) ==
            if !Travels(o) then Parse(rest, taken)
            else if taken >= 32 then Rejected
            else Continue([Element([Header(o.header, false)] + o.extension, o.payload)], o.header / 8 % 16 == 1, Parse(rest, taken + 1))
  {
    if sized { FirstSized(o, rest); } else { LastBare(o); }
    ForwardedTravels(o, sized);
    hide ObuSpan, ElementAt, Forwarded, Travels, Header, ObuType, Sized, Bare;
  }

  /** What a spelled unit parses to, before anything that follows it. */
  lemma {:induction false} ParsesSpelled(os: seq<Obu>, lastSized: bool, taken: nat)
    requires AllFormed(os) && taken <= 32
    ensures Parse(Spelled(os, lastSized), taken) ==
            if taken + |Sent(os)| > 32 then Rejected else Parsed(Sent(os), StartsSequence(os))
    decreases |os|
  {
    hide Parse, Sized, Bare, Formed, Travels, Header, StartsSequence, Spelled, Sent;
    SpelledParts(os, lastSized);
    if os == [] {
      NothingParsed(taken);
    } else {
      var o, rest, sized := os[0], os[1..], |os| > 1 || lastSized;
      assert os == [o] + rest;
      StartsLater(o, rest);
      ParseFirst(Spelled(os, lastSized), o, sized, Spelled(rest, lastSized), taken);
      if !Travels(o) {
        StaysBehind(o);
        ParsesSpelled(rest, lastSized, taken);
      } else if taken < 32 {
        ParsesSpelled(rest, lastSized, taken + 1);
      }
    }
  }

  lemma SpelledParts(os: seq<Obu>, lastSized: bool)
    ensures os == [] ==> Spelled(os, lastSized) == [] && Sent(os) == [] && !StartsSequence(os)
    ensures os != [] ==>
              var o, rest := os[0], Spelled(os[1..], lastSized);
              && (Spelled(os, lastSized) == if |os| > 1 || lastSized then Sized(o) + rest else Bare(o))
              && (|os| == 1 && !lastSized ==> rest == [])
              && Sent(os) == (if Travels(o) then [Element([Header(o.header, false)] + o.extension, o.payload)] else []) + Sent(os[1..])
  {
    hide Sized, Bare, Travels, Header;
  }

  lemma NothingParsed(taken: nat)
    ensures Parse([], taken) == Parsed([], false)
  {
  }

  lemma StaysBehind(o: Obu)
    requires !Travels(o)
    ensures o.header / 8 % 16 != 1
  {
  }

  /** A whole unit: exactly the OBUs that travel are sent, and more than 32 of them are refused. */
  lemma UnitParses(os: seq<Obu>, lastSized: bool)
    requires AllFormed(os)
    ensures ParseUnit(Spelled(os, lastSized)) ==
            if |Sent(os)| > 32 then Rejected else Parsed(Sent(os), StartsSequence(os))
  {
    ParsesSpelled(os, lastSized, 0);
    hide Parse, Spelled, Sent, StartsSequence, AllFormed;
  }

  // ---- Units that are cut short ----

  /** A header without its extension byte, a payload shorter than announced, a size that does not end. */
  datatype Defect =
    | HeaderCut(h: byte)
    | PayloadCut(o: Obu, size: nat)
    | SizeCut(h: byte, extension: seq<byte>, bytes: seq<byte>)

  predicate Defective(d: Defect) {
    match d
    case HeaderCut(h) => h / 4 % 2 == 1
    case PayloadCut(o, size) => Formed(o) && |o.payload| < size < 0x100_0000_0000_0000
    case SizeCut(h, x, bytes) => |x| == h / 4 % 2 && forall i :: 0 <= i < |bytes| ==> bytes[i] >= 128
  }

  function Tail(d: Defect): seq<byte> {
    match d
    case HeaderCut(h) => [h]
    case PayloadCut(o, size) => [Header(o.header, true)] + o.extension + (Leb128.Encode(size) + o.payload)
    case SizeCut(h, x, bytes) => [Header(h, true)] + x + bytes
  }

  lemma {:induction false} Unending(bytes: seq<byte>, limit: nat)
    requires forall i :: 0 <= i < |bytes| ==> bytes[i] >= 128
    ensures Leb128.DecodeWithin(bytes, limit) == Leb128.Malformed
    decreases |bytes|
  {
    if bytes != [] && limit > 0 { Unending(bytes[1..], limit - 1); }
  }

  lemma TailOverruns(d: Defect)
    requires Defective(d)
    ensures Tail(d) != [] && ObuSpan(Tail(d)).Overrun?
  {
    var t := Tail(d);
    match d
    case HeaderCut(h) =>
    case PayloadCut(o, size) =>
      HeaderReads(o.header, true);
      assert t[1 + |o.extension|..] == Leb128.Encode(size) + o.payload;
      Leb128.RoundTrip(size, o.payload);
      hide Header, ObuType, HasSizeField, ClearSizeField, Leb128.Decode, Leb128.Encode;
    case SizeCut(h, x, bytes) =>
      HeaderReads(h, true);
      assert t[1 + |x|..] == bytes;
      Unending(bytes, 8);
      hide Header, ObuType, HasSizeField, ClearSizeField, Leb128.DecodeWithin;
  }

  lemma ParseTail(d: Defect, taken: nat)
    requires Defective(d)
    ensures Parse(Tail(d), taken) == Rejected
  {
    TailOverruns(d);
    hide ObuSpan, Tail;
  }

  lemma FirstBeforeTail(o: Obu, os: seq<Obu>, tail: seq<byte>)
    ensures Spelled([o] + os, true) + tail == Sized(o) + (Spelled(os, true) + tail)
  {
    assert ([o] + os)[1..] == os;
    hide Sized;
  }

  /** Whatever comes before, such a unit is refused as a whole. */
  lemma {:induction false} RejectsCutShort(os: seq<Obu>, d: Defect, taken: nat)
    requires AllFormed(os) && Defective(d) && taken <= 32
    ensures Parse(Spelled(os, true) + Tail(d), taken) == Rejected
    decreases |os|
  {
    hide Parse, Sized, Formed, Travels, Header, Tail, Defective;
    if os == [] {
      assert Spelled(os, true) + Tail(d) == Tail(d);
      ParseTail(d, taken);
    } else {
      var o, rest := os[0], os[1..];
      assert os == [o] + rest;
      FirstBeforeTail(o, rest, Tail(d));
      ParseFirst(Spelled(os, true) + Tail(d), o, true, Spelled(rest, true) + Tail(d), taken);
      RejectsCutShort(rest, d, taken);
      if taken < 32 { RejectsCutShort(rest, d, taken + 1); }
    }
  }

  // ---- What goes on the wire ----

  /** The OBUs that travel, as the bytes that are cut up. */
  function Bodies(os: seq<Obu>): seq<byte> {
    if os == [] then [] else (if Travels(os[0]) then Bare(os[0]) else []) + Bodies(os[1..])
  }

  lemma {:induction false} SentBodies(os: seq<Obu>)
    ensures Flatten(Obus(Sent(os))) == Bodies(os)
    decreases |os|
  {
    if os != [] {
      SentBodies(os[1..]);
      hide Travels, Header;
      if Travels(os[0]) {
        var e, tail := Element([Header(os[0].header, false)] + os[0].extension, os[0].payload), Sent(os[1..]);
        assert Sent(os) == [e] + tail && ([e] + tail)[1..] == tail;
        assert Obus([e] + tail) == [e.Bytes()] + Obus(tail);
        assert ([e.Bytes()] + Obus(tail))[1..] == Obus(tail);
      } else {
        assert Sent(os) == Sent(os[1..]);
      }
    }
  }

  /** What one call of the encoder does with a spelled unit. */
  lemma UnitEncodes(os: seq<Obu>, lastSized: bool, sn: u16, ts: u32)
    requires AllFormed(os) && |Spelled(os, lastSized)| < 0x100_0000_0000_0000
    ensures var unit := Spelled(os, lastSized); var e, ps := EncodeUnit(unit, sn, ts), UnitPackets(unit);
            && (|Sent(os)| > 32 ==> e == Encoding(-1, [], sn, ts))
            && (Sent(os) == [] ==> e == Encoding(0, [], sn, ts))
            && (0 < |Sent(os)| <= 32 ==>
                  && e.ret == 0 && e.ts == (ts + 3000) % 0x1_0000_0000 && e.sn == (sn + |ps|) % 0x1_0000
                  && AllChunks(ps) == Bodies(os) && |e.packets| == |ps| > 0 && ps[0].n == StartsSequence(os))
  {
    hide Parse, Spelled, Wire, Cut, StartsSequence, Travels;
    var unit := Spelled(os, lastSized);
    UnitParses(os, lastSized);
    if Accepted(unit) {
      AcceptedProper(unit);
      SentBodies(os);
      var rem := Obus(Sent(os));
      CutKeepsBytes(rem, false, StartsSequence(os));
      CutSome(rem, StartsSequence(os));
    }
  }

  lemma CutSome(rem: seq<seq<byte>>, n: bool)
    requires NonEmpty(rem) && rem != []
    ensures |Cut(rem, false, n)| > 0 && Cut(rem, false, n)[0].n == n
  {
    hide Fill;
  }

  /** Every byte of packet `i`: payload type 45 with the marker on the last, number, time, source 2, and the pieces. */
  lemma PacketBytes(unit: seq<byte>, sn: u16, ts: u32, i: nat)
    requires |unit| < 0x100_0000_0000_0000 && i < |UnitPackets(unit)|
    ensures var ps, n := UnitPackets(unit), (sn + i) % 0x1_0000; var p := ps[i];
            && i < |EncodeUnit(unit, sn, ts).packets|
            && EncodeUnit(unit, sn, ts).packets[i] ==
               [0x80, 45 + if i == |ps| - 1 then 128 else 0, n / 256, n % 256,
                ts / 0x100_0000, ts / 0x1_0000 % 256, ts / 256 % 256, ts % 256, 0, 0, 0, 2,
                (if p.z then 128 else 0) + (if p.y then 64 else 0) + if p.n then 8 else 0] + Payload(p.chunks)
            && |EncodeUnit(unit, sn, ts).packets[i]| <= 1300
  {
    hide Parse, Cut, Payload;
    AcceptedProper(unit);
    var ps := UnitPackets(unit);
    CutRules(Obus(ParseUnit(unit).elements), false, ParseUnit(unit).newSequence, i);
    WireAt(ps, sn, ts, i);
    WireBytes(ps[i], (sn + i) % 0x1_0000, ts);
    hide Wire, Wires;
  }

  lemma WireBytes(p: Packet, n: u16, ts: u32)
    ensures Wire(p, n, ts) ==
            [0x80, 45 + if p.marker then 128 else 0, n / 256, n % 256,
             ts / 0x100_0000, ts / 0x1_0000 % 256, ts / 256 % 256, ts % 256, 0, 0, 0, 2,
             (if p.z then 128 else 0) + (if p.y then 64 else 0) + if p.n then 8 else 0] + Payload(p.chunks)
  {
    hide Payload;
  }

  // ---- What a receiver makes of it ----

  /** The OBUs that travel, each behind its size. */
  function SizedBodies(os: seq<Obu>): seq<byte> {
    if os == [] then [] else (if Travels(os[0]) then Sized(os[0]) else []) + SizedBodies(os[1..])
  }

  lemma BareRestored(o: Obu)
    requires Formed(o)
    ensures Proper(Bare(o)) && Restored(Bare(o)) == Sized(o)
  {
    var b := Bare(o);
    HeaderReads(o.header, false);
    assert Header(o.header, true) == Header(o.header, false) + 2;
    assert HeaderSize(b[0]) == 1 + |o.extension|;
    assert b[1..1 + |o.extension|] == o.extension && b[1 + |o.extension|..] == o.payload;
    hide Leb128.Encode, Header, HasSizeField;
  }

  lemma RestoreFirst(obu: seq<byte>, obus: seq<seq<byte>>)
    requires Proper(obu) && AllProper(obus)
    ensures AllProper([obu] + obus) && RestoreAll([obu] + obus) == Restored(obu) + RestoreAll(obus)
  {
    hide Proper, Restored;
    assert ([obu] + obus)[1..] == obus;
  }

  lemma {:induction false} SentRestored(os: seq<Obu>)
    requires AllFormed(os)
    ensures AllProper(Obus(Sent(os))) && RestoreAll(Obus(Sent(os))) == SizedBodies(os)
    decreases |os|
  {
    if os != [] {
      assert Formed(os[0]) && AllFormed(os[1..]);
      SentRestored(os[1..]);
      hide Header, Restored, Sized, AllProper, RestoreAll, Formed;
      if Travels(os[0]) {
        var e, tail := Element([Header(os[0].header, false)] + os[0].extension, os[0].payload), Sent(os[1..]);
        assert Sent(os) == [e] + tail && ([e] + tail)[1..] == tail;
        assert Obus([e] + tail) == [Bare(os[0])] + Obus(tail);
        BareRestored(os[0]);
        RestoreFirst(Bare(os[0]), Obus(tail));
      } else {
        assert Sent(os) == Sent(os[1..]);
      }
    }
  }

  /** A receiver hands over a delimiter and the OBUs that travelled, each behind its size. */
  lemma UnitRestores(os: seq<Obu>, lastSized: bool)
    requires AllFormed(os) && |Spelled(os, lastSized)| < 0x100_0000_0000_0000 && 0 < |Sent(os)| <= 32
    ensures NormalForm(Spelled(os, lastSized)) == Some([0x12, 0x00] + SizedBodies(os))
  {
    hide Spelled, Sent, SizedBodies, RestoreAll, StartsSequence, AllFormed;
    UnitParses(os, lastSized);
    SentRestored(os);
  }
}
