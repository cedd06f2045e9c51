/**
 The depacketizer against any sender of the payload format: OBUs cut at will, with or without
 obu_size, counted by W or each behind its length, behind CSRCs and extensions, before padding.
 */
module Av1AnySender {
  import opened Bytes
  import opened Rtp
  import opened Av1Obu
  import opened Av1Packetizer
  import opened Av1Depacketizer
  import opened Av1Reassembly
  import E = Av1EndToEnd
  import Leb128

  // ---- A packet as any sender may write it ----

  /** CSRC list, header extension and padding, each as it stands in the packet; whether W counts the elements. */
  datatype Form = Form(csrc: seq<byte>, extension: seq<byte>, padding: seq<byte>, counted: bool, codec: nat, stamps: seq<byte>)

  /** The length field of a header extension. */
  function Words(x: seq<byte>): nat
    requires |x| >= 4
  {
    var high: int := x[2];
    high * 256 + x[3]
  }

  /** Elements are not empty; a packet whose elements W counts has three at most. */
  predicate Allowed(f: Form, chunks: seq<seq<byte>>) {
    && |f.csrc| % 4 == 0 && |f.csrc| < 64 && |f.stamps| == 8 && f.codec < 128
    && (f.extension != [] ==> |f.extension| >= 4 && |f.extension| == 4 + 4 * Words(f.extension))
    && (f.padding != [] ==> |f.padding| < 256 && f.padding[|f.padding| - 1] == |f.padding|)
    && chunks != [] && (f.counted ==> |chunks| <= 3)
    && forall i :: 0 <= i < |chunks| ==> 0 < |chunks[i]| < 0x100_0000_0000_0000
  }

  /** The elements: each behind its length, the last one without if W counts them. */
  function Elements(chunks: seq<seq<byte>>, counted: bool): seq<byte> {
    if chunks == [] then []
    else if counted && |chunks| == 1 then chunks[0]
    else Leb128.Encode(|chunks[0]|) + chunks[0] + Elements(chunks[1..], counted)
  }

  function Front(p: Packet, f: Form, sn: u16): (h: seq<byte>)
    requires Allowed(f, p.chunks)
    ensures |h| == HEADER_SIZE
  {
    [128 + (if f.padding == [] then 0 else 32) + (if f.extension == [] then 0 else 16) + |f.csrc| / 4,
     (if p.marker then 128 else 0) + f.codec, sn / 256, sn % 256] + f.stamps
  }

  function Aggregated(p: Packet, f: Form): byte
    requires Allowed(f, p.chunks)
  {
    (if p.z then 128 else 0) + (if p.y then 64 else 0) + (if f.counted then 16 * |p.chunks| else 0) + if p.n then 8 else 0
  }

  function Written(p: Packet, f: Form, sn: u16): seq<byte>
    requires Allowed(f, p.chunks)
  {
    WrittenWith(p, f, sn, Elements(p.chunks, f.counted))
  }

  /** The same with other bytes in place of the elements. */
  function WrittenWith(p: Packet, f: Form, sn: u16, body: seq<byte>): seq<byte>
    requires Allowed(f, p.chunks)
  {
    Front(p, f, sn) + f.csrc + f.extension + [Aggregated(p, f)] + body + f.padding
  }

  // ---- Whatever the form, it is the same packet ----

  lemma AggregatedReads(p: Packet, f: Form)
    requires Allowed(f, p.chunks)
    ensures var a := Aggregated(p, f);
            && (a / 128 == 1) == p.z && (a / 64 % 2 == 1) == p.y && (a / 8 % 2 == 1) == p.n
            && a / 16 % 4 == if f.counted then |p.chunks| else 0
  {
  }

  lemma FrontReads(p: Packet, f: Form, sn: u16, rest: seq<byte>)
    requires Allowed(f, p.chunks)
    ensures var w := Front(p, f, sn) + rest;
            && CsrcCount(w) * 4 == |f.csrc| && Extended(w) == (f.extension != []) && Padded(w) == (f.padding != [])
            && Marker(w) == p.marker && Seq(w) == sn
  {
    var w := Front(p, f, sn) + rest;
    var h: int := 128 + (if f.padding == [] then 0 else 32) + (if f.extension == [] then 0 else 16) + |f.csrc| / 4;
    assert w[0] == h && w[1] == (if p.marker then 128 else 0) + f.codec && w[2] == sn / 256 && w[3] == sn % 256;
  }

  /** Where the parts of a packet stand. */
  lemma Parts(a: seq<byte>, b: seq<byte>, c: seq<byte>, x: byte, d: seq<byte>, e: seq<byte>)
    ensures var w, n := a + b + c + [x] + d + e, |a| + |b| + |c|;
            && w[|a| + |b|..n] == c && w[n] == x && w[n + 1..|w| - |e|] == d && w[|w| - |e|..] == e
  {
    var w, n := a + b + c + [x] + d + e, |a| + |b| + |c|;
    assert w == (a + b + c) + ([x] + (d + e));
    assert w == (a + b + c + [x] + d) + e;
    assert w[n..] == [x] + (d + e);
    assert w[..|w| - |e|] == a + b + c + [x] + d;
  }

  /** The bounds of a payload, from what the header says and what stands behind it. */
  lemma BoundsRead(w: seq<byte>, f: Form, size: nat)
    requires |w| == HEADER_SIZE + |f.csrc| + |f.extension| + size + |f.padding|
    requires CsrcCount(w) * 4 == |f.csrc| && Extended(w) == (f.extension != []) && Padded(w) == (f.padding != [])
    requires var at := HEADER_SIZE + |f.csrc|;
             f.extension != [] ==> |f.extension| >= 4 && |f.extension| == 4 + 4 * Words(f.extension) &&
                                   w[at + 2] == f.extension[2] && w[at + 3] == f.extension[3]
    requires f.padding != [] ==> w[|w| - 1] == |f.padding|
    ensures PayloadBounds(w) == Bounds(HEADER_SIZE + |f.csrc| + |f.extension|, |w| - |f.padding|)
  {
    hide CsrcCount, Extended, Padded;
  }

  lemma WrittenParts(p: Packet, f: Form, sn: u16, body: seq<byte>)
    requires Allowed(f, p.chunks)
    ensures var w, at := WrittenWith(p, f, sn, body), HEADER_SIZE + |f.csrc|;
            var from := at + |f.extension|;
            && |w| == from + 1 + |body| + |f.padding|
            && w[from] == Aggregated(p, f) && w[from + 1..|w| - |f.padding|] == body
            && (f.extension != [] ==> w[at + 2] == f.extension[2] && w[at + 3] == f.extension[3])
            && (f.padding != [] ==> w[|w| - 1] == |f.padding|)
  {
    hide Front, Aggregated;
    var w, at := WrittenWith(p, f, sn, body), HEADER_SIZE + |f.csrc|;
    Parts(Front(p, f, sn), f.csrc, f.extension, Aggregated(p, f), body, f.padding);
    if f.extension != [] {
      assert w[at..at + |f.extension|][2] == w[at + 2] && w[at..at + |f.extension|][3] == w[at + 3];
    }
    if f.padding != [] { assert w[|w| - |f.padding|..][|f.padding| - 1] == w[|w| - 1]; }
  }

  lemma Bounded(p: Packet, f: Form, sn: u16, body: seq<byte>)
    requires Allowed(f, p.chunks)
    ensures var w := WrittenWith(p, f, sn, body);
            var from := HEADER_SIZE + |f.csrc| + |f.extension|;
            && PayloadBounds(w) == Bounds(from, |w| - |f.padding|) && from + 1 + |body| == |w| - |f.padding|
            && w[from] == Aggregated(p, f) && w[from + 1..|w| - |f.padding|] == body
            && Marker(w) == p.marker && Seq(w) == sn
  {
    hide Front, CsrcCount, Extended, Padded, Marker, Seq, Aggregated, PayloadBounds;
    var w, rest := WrittenWith(p, f, sn, body), f.csrc + f.extension + [Aggregated(p, f)] + body + f.padding;
    WrittenParts(p, f, sn, body);
    assert w == Front(p, f, sn) + rest;
    hide WrittenWith;
    FrontReads(p, f, sn, rest);
    BoundsRead(w, f, 1 + |body|);
  }

  lemma LengthExtent(c: seq<byte>, rest: seq<byte>, w: nat, element: nat)
    requires |c| < 0x100_0000_0000_0000 && !(w != 0 && element + 1 == w)
    ensures var p, n := Leb128.Encode(|c|) + c + rest, Leb128.Size(|c|);
            && p != [] && ElementExtent(p, w, element) == Extent(n, |c|)
            && p[n..n + |c|] == c && p[n + |c|..] == rest
  {
    Leb128.RoundTrip(|c|, c + rest);
    hide Leb128.Encode, Leb128.Decode, Leb128.Size;
    Assoc(Leb128.Encode(|c|), c, rest);
    Behind(Leb128.Encode(|c|), c, rest);
  }

  lemma ElementsEmpty(chunks: seq<seq<byte>>, counted: bool)
    requires forall i :: 0 <= i < |chunks| ==> chunks[i] != []
    ensures Elements(chunks, counted) == [] <==> chunks == []
  {
  }

  /** The loop over the elements comes by the same pieces, counted or not. */
  /** One element behind its length, and the rest. */
  lemma FirstTaken(acc: Acc, chunks: seq<seq<byte>>, counted: bool, y: bool, w: nat, element: nat)
    requires chunks != [] && 0 < |chunks[0]| < 0x100_0000_0000_0000 && !(counted && |chunks| == 1)
    requires if counted then w == element + |chunks| else w == 0
    requires forall i :: 0 <= i < |chunks[1..]| ==> chunks[1..][i] != []
    ensures TakeElements(acc, w, element, y, Elements(chunks, counted)) ==
            match TakeElement(acc, chunks[0], |chunks| == 1, y)
            case Corrupt => Corrupt
            case Taken(a) => TakeElements(a, w, element + 1, y, Elements(chunks[1..], counted))
  {
    hide TakeElement, Leb128.Encode, Leb128.Size;
    ElementsEmpty(chunks[1..], counted);
    LengthExtent(chunks[0], Elements(chunks[1..], counted), w, element);
    hide ElementExtent;
  }

  lemma FirstChunk(acc: Acc, chunks: seq<seq<byte>>, y: bool)
    ensures chunks == [] ==> TakeChunks(acc, chunks, y) == Taken(acc)
    ensures chunks != [] ==> TakeChunks(acc, chunks, y) ==
                             match TakeElement(acc, chunks[0], |chunks| == 1, y)
                             case Corrupt => Corrupt
                             case Taken(a) => TakeChunks(a, chunks[1..], y)
  {
    hide TakeElement;
  }

  lemma FewElements(acc: Acc, chunks: seq<seq<byte>>, counted: bool, y: bool, w: nat, element: nat)
    ensures chunks == [] ==> TakeElements(acc, w, element, y, Elements(chunks, counted)) == Taken(acc)
    ensures counted && |chunks| == 1 ==> Elements(chunks, counted) == chunks[0]
  {
    hide TakeElement;
  }

  lemma {:induction false} ElementsTaken(acc: Acc, chunks: seq<seq<byte>>, counted: bool, y: bool, w: nat, element: nat)
    requires if counted then chunks == [] || w == element + |chunks| else w == 0
    requires forall i :: 0 <= i < |chunks| ==> 0 < |chunks[i]| < 0x100_0000_0000_0000
    ensures TakeElements(acc, w, element, y, Elements(chunks, counted)) == TakeChunks(acc, chunks, y)
    decreases |chunks|
  {
    hide TakeElement, TakeChunks, TakeElements, Elements;
    FirstChunk(acc, chunks, y);
    FewElements(acc, chunks, counted, y, w, element);
    if chunks == [] {
    } else if counted && |chunks| == 1 {
      assert chunks == [chunks[0]];
      LastTaken(acc, chunks[0], y, w, element);
    } else {
      FirstTaken(acc, chunks, counted, y, w, element);
      match TakeElement(acc, chunks[0], |chunks| == 1, y)
      case Corrupt =>
      case Taken(a) => ElementsTaken(a, chunks[1..], counted, y, w, element + 1);
    }
  }

  lemma LastTaken(acc: Acc, c: seq<byte>, y: bool, w: nat, element: nat)
    requires c != [] && w == element + 1
    ensures TakeElements(acc, w, element, y, c) == TakeElement(acc, c, true, y)
    ensures TakeChunks(acc, [c], y) == TakeElement(acc, c, true, y)
  {
    hide TakeElement;
    assert c[0..|c|] == c && c[|c|..] == [];
    var none: seq<seq<byte>> := [];
    assert [c][1..] == none;
  }

  /** The depacketizer reads every allowed form of a packet as the packet it is; the length reported leaves out the padding. */
  lemma StepOnAnyForm(s0: State, p: Packet, f: Form, sn: u16)
    requires Allowed(f, p.chunks)
    ensures var w := Written(p, f, sn);
            var o, o' := Step(s0, w), TakePacket(Track(Start(s0), sn), p);
            && o.state == o'.state && o.units == o'.units
            && o.ret == if o'.ret == -1 then -1 else |w| - |f.padding|
  {
    var w, from, s := Written(p, f, sn), HEADER_SIZE + |f.csrc| + |f.extension|, Track(Start(s0), sn);
    Bounded(p, f, sn, Elements(p.chunks, f.counted));
    ElementsEmpty(p.chunks, f.counted);
    PayloadTaken(s, p, f);
    hide Written, PayloadBounds, Elements, TakePayload, TakePacket, Aggregated, Track, Start, Seq, Marker, Allowed;
    assert w[from + 1..|w| - |f.padding|] == Elements(p.chunks, f.counted);
  }

  lemma PayloadTaken(s: State, p: Packet, f: Form)
    requires Allowed(f, p.chunks)
    ensures TakePayload(s, Aggregated(p, f), Elements(p.chunks, f.counted), p.marker) == TakePacket(s, p)
  {
    AggregatedReads(p, f);
    BodyTaken(s, p, f);
    BodyTaken(s.(dropping := false, acc := FreshAcc), p, f);
    hide Elements, TakeBody, TakePieces, Aggregated, Discard, Allowed;
  }

  lemma BodyTaken(s: State, p: Packet, f: Form)
    requires Allowed(f, p.chunks)
    ensures TakeBody(s, Aggregated(p, f), Elements(p.chunks, f.counted), p.marker) == TakePieces(s, p)
  {
    AggregatedReads(p, f);
    ElementsTaken(s.acc.(open := false), p.chunks, f.counted, p.y, if f.counted then |p.chunks| else 0, 0);
    hide Elements, TakeElements, TakeChunks, Aggregated, Discard, Allowed;
  }

  // ---- A unit cut at will ----

  /** An OBU, with obu_size or without, as long as its header at least. */
  predicate Complete(obu: seq<byte>) { obu != [] && |obu| >= 1 + obu[0] / 4 % 2 }

  predicate AllComplete(obus: seq<seq<byte>>) { forall i :: 0 <= i < |obus| ==> Complete(obus[i]) }

  /** What it is in the unit handed over: with its obu_size, which is put in where it is missing. */
  function InUnit(obu: seq<byte>): seq<byte>
    requires Complete(obu)
  {
    var hdr := 1 + obu[0] / 4 % 2;
    if obu[0] / 2 % 2 == 1 then obu
    else [obu[0] + 2] + obu[1..hdr] + Leb128.Encode(|obu| - hdr) + obu[hdr..]
  }

  function AllInUnit(obus: seq<seq<byte>>): seq<byte>
    requires AllComplete(obus)
  {
    if obus == [] then [] else InUnit(obus[0]) + AllInUnit(obus[1..])
  }

  lemma ClosesAs(acc: Acc)
    requires Complete(acc.obu)
    ensures var c := CloseObu(acc);
            && |InUnit(acc.obu)| >= |acc.obu|
            && (|acc.tu| + |InUnit(acc.obu)| <= CAPACITY ==> c == Taken(acc.(tu := acc.tu + InUnit(acc.obu), obu := [])))
            && (c.Taken? && |acc.tu| + |acc.obu| <= CAPACITY ==> c == Taken(acc.(tu := acc.tu + InUnit(acc.obu), obu := [])))
  {
    hide Leb128.Size, Leb128.Encode;
  }

  /** `acc` plus the bytes `rem` still on their way make the unit `unit`. */
  ghost predicate Makes(acc: Acc, rem: seq<seq<byte>>, unit: seq<byte>) {
    && |acc.tu| >= |DELIMITER| && NonEmpty(rem)
    && (acc.open <==> acc.obu != []) && (acc.open ==> rem != [])
    && AllComplete(Joined(acc.obu, rem))
    && unit == acc.tu + AllInUnit(Joined(acc.obu, rem))
  }

  lemma InUnitCons(obu: seq<byte>, tail: seq<seq<byte>>)
    ensures AllComplete([obu] + tail) <==> Complete(obu) && AllComplete(tail)
    ensures AllComplete([obu] + tail) ==> AllInUnit([obu] + tail) == InUnit(obu) + AllInUnit(tail)
  {
    var all := [obu] + tail;
    assert all[1..] == tail && all[0] == obu;
    if AllComplete(all) {
      forall i | 0 <= i < |tail| ensures Complete(tail[i]) { assert all[i + 1] == tail[i]; }
    }
    hide Complete, InUnit;
  }

  /** A piece left open by Y. */
  lemma OpenTaken(acc: Acc, rem: seq<seq<byte>>, c: nat, unit: seq<byte>)
    requires Makes(acc, rem, unit) && rem != [] && 0 < c < |rem[0]|
    ensures var t := TakeElement(acc.(open := false), rem[0][..c], true, true);
            && (|unit| <= CAPACITY ==> t.Taken?)
            && (t.Taken? ==> t.acc.open && Makes(t.acc, [rem[0][c..]] + rem[1..], unit))
  {
    var e, tail := rem[0], rem[1..];
    JoinedCons(acc.obu, rem);
    InUnitCons(acc.obu + e, tail);
    ClosesAs(Acc(acc.tu, acc.obu + e, false));
    JoinedCut(acc.obu, e, c, tail);
    hide AllInUnit, InUnit, Complete, Joined, AllComplete, CloseObu;
  }

  /** A piece that completes its OBU. */
  lemma WholeTaken(acc: Acc, rem: seq<seq<byte>>, last: bool, y: bool, unit: seq<byte>)
    requires Makes(acc, rem, unit) && rem != [] && !(last && y)
    ensures var t := TakeElement(acc.(open := false), rem[0], last, y);
            && (|unit| <= CAPACITY ==> t.Taken?)
            && (t.Taken? ==> t.acc.obu == [] && !t.acc.open && Makes(t.acc, rem[1..], unit))
  {
    var e, tail := rem[0], rem[1..];
    JoinedCons(acc.obu, rem);
    InUnitCons(acc.obu + e, tail);
    ClosesAs(Acc(acc.tu, acc.obu + e, false));
    hide AllInUnit, InUnit, Complete, CloseObu, AllComplete;
    Assoc(acc.tu, InUnit(acc.obu + e), AllInUnit(tail));
    assert Joined([], tail) == tail;
  }

  /** A packet's pieces: whole OBUs of `rem`, the last cut short if Y says so; `rest` is still to come. */
  ghost predicate CutsOff(rem: seq<seq<byte>>, chunks: seq<seq<byte>>, y: bool, rest: seq<seq<byte>>) {
    && 0 < |chunks| <= |rem|
    && var k := |chunks| - 1;
       && chunks[..k] == rem[..k]
       && if y then 0 < |chunks[k]| < |rem[k]| && rem[k][..|chunks[k]|] == chunks[k]
                    && rest == [rem[k][|chunks[k]|..]] + rem[k + 1..]
          else chunks[k] == rem[k] && rest == rem[k + 1..]
  }

  lemma CutsOffNext(rem: seq<seq<byte>>, chunks: seq<seq<byte>>, y: bool, rest: seq<seq<byte>>)
    requires CutsOff(rem, chunks, y, rest) && |chunks| > 1
    ensures chunks[0] == rem[0] && CutsOff(rem[1..], chunks[1..], y, rest)
  {
    var k := |chunks| - 1;
    assert chunks[0] == chunks[..k][0] && rem[0] == rem[..k][0];
    assert chunks[1..][..k - 1] == chunks[..k][1..] && rem[1..][..k - 1] == rem[..k][1..];
    assert rem[1..][k - 1] == rem[k] && rem[1..][k..] == rem[k + 1..];
  }

  lemma {:induction false} ChunksTaken(acc: Acc, rem: seq<seq<byte>>, chunks: seq<seq<byte>>, y: bool,
                                       rest: seq<seq<byte>>, unit: seq<byte>)
    requires Makes(acc, rem, unit) && CutsOff(rem, chunks, y, rest)
    ensures var t := TakeChunks(acc.(open := false), chunks, y);
            && (|unit| <= CAPACITY ==> t.Taken?)
            && (t.Taken? ==> t.acc.open == y && Makes(t.acc, rest, unit))
    decreases |chunks|
  {
    hide TakeElement, Makes;
    if |chunks| == 1 {
      assert chunks == [chunks[0]] && chunks[1..] == [];
      if y { OpenTaken(acc, rem, |chunks[0]|, unit); } else { WholeTaken(acc, rem, true, false, unit); }
    } else {
      CutsOffNext(rem, chunks, y, rest);
      WholeTaken(acc, rem, false, y, unit);
      hide CutsOff;
      var t := TakeElement(acc.(open := false), rem[0], false, y);
      if t.Taken? {
        assert t.acc.(open := false) == t.acc;
        ChunksTaken(t.acc, rem[1..], chunks[1..], y, rest, unit);
      }
    }
  }

  lemma UnitComplete(acc: Acc, unit: seq<byte>)
    requires Makes(acc, [], unit)
    ensures acc.tu == unit && !acc.open && acc.obu == []
  {
    assert Joined(acc.obu, []) == [];
    assert acc.tu + [] == acc.tu;
  }

  /** What one packet of the unit does to a receiver that is in step. */
  ghost predicate Advances(s: State, o: Outcome, p: Packet, rest: seq<seq<byte>>, unit: seq<byte>) {
    && o.state.nextSeq == s.nextSeq && o.state.haveSeq == s.haveSeq && o.state.started == s.started
    && (|unit| <= CAPACITY ==> !o.state.dropping && o.ret == 0)
    && (rest != [] ==> o.units == [] && (!o.state.dropping ==> Makes(o.state.acc, rest, unit) && o.state.acc.open == p.y))
    && (rest == [] && !o.state.dropping ==> |unit| <= CAPACITY && o.units == [unit] && o.state.acc == FreshAcc)
    && (o.state.dropping ==> o.units == [])
  }

  lemma PiecesTaken(s: State, rem: seq<seq<byte>>, p: Packet, rest: seq<seq<byte>>, unit: seq<byte>)
    requires !s.dropping && Makes(s.acc, rem, unit) && CutsOff(rem, p.chunks, p.y, rest)
    requires (p.marker <==> rest == []) && |unit| > |DELIMITER|
    ensures Advances(s, TakePieces(s, p), p, rest, unit)
  {
    ChunksTaken(s.acc, rem, p.chunks, p.y, rest, unit);
    TakeChunksFits(s.acc.(open := false), p.chunks, p.y);
    hide TakeChunks, Makes, CutsOff;
    var t := TakeChunks(s.acc.(open := false), p.chunks, p.y);
    if t.Taken? && rest == [] { UnitComplete(t.acc, unit); }
  }

  /** The unit's first packet finds the receiver between units, or waiting and invited by N. */
  lemma PacketTaken(s: State, rem: seq<seq<byte>>, p: Packet, rest: seq<seq<byte>>, unit: seq<byte>)
    requires if s.dropping then p.n && !p.z && Makes(FreshAcc, rem, unit) else Makes(s.acc, rem, unit) && s.acc.open == p.z
    requires CutsOff(rem, p.chunks, p.y, rest) && (p.marker <==> rest == []) && |unit| > |DELIMITER|
    ensures Advances(s, TakePacket(s, p), p, rest, unit)
  {
    var s1 := if s.dropping then s.(dropping := false, acc := FreshAcc) else s;
    PiecesTaken(s1, rem, p, rest, unit);
    hide Makes, CutsOff, TakePieces;
  }

  // ---- All packets of a unit ----

  datatype Leg = Leg(p: Packet, f: Form)

  function RestOf(rem: seq<seq<byte>>, chunks: seq<seq<byte>>, y: bool): seq<seq<byte>>
    requires 0 < |chunks| <= |rem| && (y ==> |chunks[|chunks| - 1]| <= |rem[|chunks| - 1]|)
  {
    var k := |chunks| - 1;
    if y then [rem[k][|chunks[k]|..]] + rem[k + 1..] else rem[k + 1..]
  }

  /** Packets that carry `rem`: Z repeats the previous Y, N stands on the first if at all, the marker on the last. */
  ghost predicate Carry(rem: seq<seq<byte>>, z: bool, n: bool, legs: seq<Leg>)
    decreases |legs|
  {
    && legs != []
    && var p := legs[0].p;
       && Allowed(legs[0].f, p.chunks) && p.z == z && p.n == n
       && 0 < |p.chunks| <= |rem| && (p.y ==> |p.chunks[|p.chunks| - 1]| <= |rem[|p.chunks| - 1]|)
       && var rest := RestOf(rem, p.chunks, p.y);
          && CutsOff(rem, p.chunks, p.y, rest) && (p.marker <==> rest == [])
          && if rest == [] then |legs| == 1 else Carry(rest, p.y, false, legs[1..])
  }

  ghost predicate AllAllowed(legs: seq<Leg>) { forall i :: 0 <= i < |legs| ==> Allowed(legs[i].f, legs[i].p.chunks) }

  lemma {:induction false} CarryAllowed(rem: seq<seq<byte>>, z: bool, n: bool, legs: seq<Leg>)
    requires Carry(rem, z, n, legs)
    ensures AllAllowed(legs)
    decreases |legs|
  {
    hide Allowed, CutsOff;
    var p := legs[0].p;
    var rest := RestOf(rem, p.chunks, p.y);
    if rest != [] { CarryAllowed(rest, p.y, false, legs[1..]); }
  }

  function OnTheWire(legs: seq<Leg>, sn: u16): seq<seq<byte>>
    requires AllAllowed(legs)
  {
    if legs == [] then [] else [Written(legs[0].p, legs[0].f, sn)] + OnTheWire(legs[1..], NextSeq(sn))
  }

  /** The receiver is where a packet with these flags finds it in step, or discarding and not invited. */
  ghost predicate Meets(s: State, rem: seq<seq<byte>>, z: bool, n: bool, unit: seq<byte>) {
    if !s.dropping then Makes(s.acc, rem, unit) && s.acc.open == z
    else n ==> !z && Makes(FreshAcc, rem, unit)
  }

  /** What one packet of the unit does, wherever the receiver stands. */
  ghost predicate Passed(s: State, o: Outcome, p: Packet, sn: u16, rest: seq<seq<byte>>, unit: seq<byte>) {
    && o.state.started && E.Awaiting(o.state, NextSeq(sn))
    && if Start(s).dropping && !p.n then o.state.dropping && o.units == []
       else
         && (|unit| <= CAPACITY ==> !o.state.dropping)
         && (o.state.dropping ==> o.units == [])
         && (rest != [] ==> o.units == [] && (!o.state.dropping ==> Makes(o.state.acc, rest, unit) && o.state.acc.open == p.y))
         && (rest == [] && !o.state.dropping ==> |unit| <= CAPACITY && o.units == [unit] && o.state.acc == FreshAcc)
  }

  lemma StepPasses(s: State, rem: seq<seq<byte>>, l: Leg, sn: u16, rest: seq<seq<byte>>, unit: seq<byte>)
    requires E.Awaiting(s, sn) && Meets(Start(s), rem, l.p.z, l.p.n, unit) && Allowed(l.f, l.p.chunks)
    requires CutsOff(rem, l.p.chunks, l.p.y, rest) && (l.p.marker <==> rest == []) && |unit| > |DELIMITER|
    ensures Passed(s, Step(s, Written(l.p, l.f, sn)), l.p, sn, rest, unit)
  {
    E.TrackKeeps(s, sn);
    StepOnAnyForm(s, l.p, l.f, sn);
    var t := Track(Start(s), sn);
    hide Makes, CutsOff, Step, Track, Written, Allowed;
    if t.dropping && !l.p.n {
      Uninvited(t, l.p);
    } else {
      PacketTaken(t, rem, l.p, rest, unit);
      hide TakePacket;
    }
  }

  lemma PassedLast(s: State, o: Outcome, p: Packet, sn: u16, unit: seq<byte>)
    requires Passed(s, o, p, sn, [], unit)
    ensures E.Takes(o, NextSeq(sn), !Start(s).dropping || p.n, unit)
  {
    hide Makes, Start;
  }

  lemma PassedOn(s: State, o: Outcome, p: Packet, sn: u16, rest: seq<seq<byte>>, unit: seq<byte>)
    requires Passed(s, o, p, sn, rest, unit) && rest != []
    ensures Meets(Start(o.state), rest, p.y, false, unit)
  {
    hide Makes;
  }

  lemma PassedJoin(s: State, o: Outcome, p: Packet, sn: u16, rest: seq<seq<byte>>, unit: seq<byte>, r: Outcome, end: u16)
    requires Passed(s, o, p, sn, rest, unit) && rest != [] && E.Takes(r, end, !Start(o.state).dropping || false, unit)
    ensures E.Takes(r.(units := o.units + r.units), end, !Start(s).dropping || p.n, unit)
  {
    hide Makes;
    assert [] + r.units == r.units;
  }

  lemma WireFirst(legs: seq<Leg>, sn: u16)
    requires legs != [] && AllAllowed(legs)
    ensures Allowed(legs[0].f, legs[0].p.chunks) && AllAllowed(legs[1..])
    ensures OnTheWire(legs, sn) == [Written(legs[0].p, legs[0].f, sn)] + OnTheWire(legs[1..], NextSeq(sn))
  {
    hide Allowed, Written;
  }

  lemma Uninvited(s: State, p: Packet)
    requires s.dropping && !p.n
    ensures TakePacket(s, p) == Outcome(s, [], 0)
  {
  }

  /** The packets of a unit, however cut and written, yield the unit once, or discard it if it does not fit. */
  lemma {:induction false} ReceiveLegs(s: State, rem: seq<seq<byte>>, z: bool, n: bool, legs: seq<Leg>, sn: u16, unit: seq<byte>)
    requires Carry(rem, z, n, legs) && AllAllowed(legs) && E.Awaiting(s, sn) && |unit| > |DELIMITER|
    requires Meets(Start(s), rem, z, n, unit)
    ensures E.Takes(E.DepayAll(s, OnTheWire(legs, sn)), Advance(sn, |legs|), !Start(s).dropping || n, unit)
    decreases |legs|
  {
    hide Makes, CutsOff, Allowed, Written, Step, E.DepayAll, Advance, Start, Meets, Passed, E.Takes, E.Awaiting, AllAllowed;
    var l := legs[0];
    var rest := RestOf(rem, l.p.chunks, l.p.y);
    WireFirst(legs, sn);
    StepPasses(s, rem, l, sn, rest, unit);
    var w, next := Written(l.p, l.f, sn), NextSeq(sn);
    var o, tail := Step(s, w), OnTheWire(legs[1..], NextSeq(sn));
    E.DepayCons(s, w, tail);
    AdvanceOne(sn, |legs| - 1);
    hide OnTheWire;
    if rest == [] {
      OneLeg(s, legs, sn);
      PassedLast(s, o, l.p, sn, unit);
      E.TakesSame(o, E.DepayAll(s, OnTheWire(legs, sn)), next, !Start(s).dropping || n, unit);
    } else {
      PassedOn(s, o, l.p, sn, rest, unit);
      PassedAwaits(s, o, l.p, sn, rest, unit);
      ReceiveLegs(o.state, rest, l.p.y, false, legs[1..], next, unit);
      var r, end := E.DepayAll(o.state, tail), Advance(sn, |legs|);
      PassedJoin(s, o, l.p, sn, rest, unit, r, end);
      E.TakesSame(r.(units := o.units + r.units), E.DepayAll(s, OnTheWire(legs, sn)), end, !Start(s).dropping || n, unit);
    }
  }

  lemma PassedAwaits(s: State, o: Outcome, p: Packet, sn: u16, rest: seq<seq<byte>>, unit: seq<byte>)
    requires Passed(s, o, p, sn, rest, unit)
    ensures E.Awaiting(o.state, NextSeq(sn))
  {
    hide Makes;
  }

  lemma AdvanceOne(sn: u16, n: nat)
    ensures Advance(sn, n + 1) == Advance(NextSeq(sn), n) && Advance(sn, 1) == NextSeq(sn)
  {
  }

  lemma OneLeg(s: State, legs: seq<Leg>, sn: u16)
    requires |legs| == 1 && AllAllowed(legs)
    ensures var o, r := Step(s, Written(legs[0].p, legs[0].f, sn)), E.DepayAll(s, OnTheWire(legs, sn));
            r.state == o.state && r.units == o.units
  {
    hide Written, Step, Allowed;
    WireFirst(legs, sn);
    E.DepayCons(s, Written(legs[0].p, legs[0].f, sn), []);
    var o := Step(s, Written(legs[0].p, legs[0].f, sn));
    E.DepayNone(o.state);
    assert legs[1..] == [];
  }

  /**
   Whoever sends it and however it is cut and written: a unit received in sequence, with the receiver
   between units or invited by N, is handed over once, each OBU behind its size; one that does not fit
   the buffer is discarded.
   */
  lemma AnySenderIsUnderstood(s: State, obus: seq<seq<byte>>, n: bool, legs: seq<Leg>, sn: u16)
    requires AllComplete(obus) && NonEmpty(obus) && obus != [] && Carry(obus, false, n, legs) && AllAllowed(legs)
    requires E.Awaiting(s, sn) && (Start(s).dropping || Start(s).acc == FreshAcc)
    ensures var o, unit := E.DepayAll(s, OnTheWire(legs, sn)), [0x12, 0x00] + AllInUnit(obus);
            && o.units == (if (!Start(s).dropping || n) && |unit| <= 262144 then [unit] else [])
            && o.state.started && E.Awaiting(o.state, (sn + |legs|) % 0x1_0000)
            && (o.units == [] ==> o.state.dropping) && (o.units != [] ==> o.state.acc == FreshAcc && !o.state.dropping)
  {
    hide Carry, AllAllowed, OnTheWire, E.DepayAll, InUnit, Complete;
    assert Joined([], obus) == obus;
    var unit := DELIMITER + AllInUnit(obus);
    AllInUnitLong(obus);
    ReceiveLegs(s, obus, false, n, legs, sn, unit);
  }

  lemma AllInUnitLong(obus: seq<seq<byte>>)
    requires AllComplete(obus) && obus != []
    ensures |AllInUnit(obus)| > 0
  {
    assert Complete(obus[0]);
    ClosesAs(Acc([], obus[0], false));
    hide InUnit, CloseObu;
  }

  // ---- What is refused ----

  /** A packet that ought to continue an OBU and does not, or the other way round, discards the unit. */
  lemma WrongZDiscards(s: State, p: Packet, f: Form, sn: u16)
    requires E.Awaiting(s, sn) && Allowed(f, p.chunks)
    requires if Start(s).dropping then p.n && p.z else Start(s).acc.open != p.z
    ensures var w := Written(p, f, sn); var o := Step(s, w);
            o.units == [] && o.state.dropping && E.Awaiting(o.state, NextSeq(sn)) && o.ret == |w| - |f.padding|
  {
    hide Written, Step, Allowed, TakePieces;
    StepOnAnyForm(s, p, f, sn);
    E.TrackKeeps(s, sn);
  }

  /** A unit that ends inside an OBU is discarded. */
  lemma OpenEndDiscards(s: State, rem: seq<seq<byte>>, p: Packet, f: Form, sn: u16, rest: seq<seq<byte>>, unit: seq<byte>)
    requires E.Awaiting(s, sn) && Allowed(f, p.chunks) && !Start(s).dropping
    requires Makes(Start(s).acc, rem, unit) && Start(s).acc.open == p.z && CutsOff(rem, p.chunks, true, rest) && p.y && p.marker
    ensures var o := Step(s, Written(p, f, sn)); o.units == [] && o.state.dropping && o.ret == -1
  {
    StepOnAnyForm(s, p, f, sn);
    E.TrackKeeps(s, sn);
    ChunksTaken(Start(s).acc, rem, p.chunks, true, rest, unit);
    hide Written, Step, Allowed, TakeChunks, Makes, CutsOff;
  }

  /** An element that announces more than the packet holds corrupts it, whatever stands before. */
  lemma {:induction false} OverrunCorrupts(acc: Acc, chunks: seq<seq<byte>>, y: bool, element: nat, n: nat, part: seq<byte>)
    requires (forall i :: 0 <= i < |chunks| ==> 0 < |chunks[i]| < 0x100_0000_0000_0000) && |part| < n < 0x100_0000_0000_0000
    ensures TakeElements(acc, 0, element, y, Elements(chunks, false) + (Leb128.Encode(n) + part)) == Corrupt
    decreases |chunks|
  {
    hide TakeElement, Leb128.Encode, Leb128.Size;
    var bad := Leb128.Encode(n) + part;
    if chunks == [] {
      assert Elements(chunks, false) + bad == bad;
      Leb128.RoundTrip(n, part);
    } else {
      var c, rest := chunks[0], Elements(chunks[1..], false) + bad;
      assert Elements(chunks, false) + bad == Leb128.Encode(|c|) + c + rest by {
        Assoc(Leb128.Encode(|c|) + c, Elements(chunks[1..], false), bad);
      }
      LengthExtent(c, rest, 0, element);
      hide ElementExtent, Elements;
      match TakeElement(acc, c, rest == [], y)
      case Corrupt =>
      case Taken(a) => OverrunCorrupts(a, chunks[1..], y, element + 1, n, part);
    }
  }

  /** What the packet finds: the unit so far, or a fresh one if it is invited to start over. */
  function Before(s: State): Acc { if s.dropping then FreshAcc else s.acc.(open := false) }

  /** A packet whose elements are corrupt is reported and discards the unit. */
  lemma CorruptDiscards(s: State, p: Packet, f: Form, sn: u16, body: seq<byte>)
    requires E.Awaiting(s, sn) && Allowed(f, p.chunks) && body != []
    requires if Start(s).dropping then p.n && !p.z else Start(s).acc.open == p.z
    requires TakeElements(Before(Start(s)), if f.counted then |p.chunks| else 0, 0, p.y, body) == Corrupt
    ensures var o := Step(s, WrittenWith(p, f, sn, body));
            o.units == [] && o.ret == -1 && o.state.dropping && o.state.acc == FreshAcc && E.Awaiting(o.state, NextSeq(sn))
  {
    hide WrittenWith, TakeElements, Aggregated, Allowed, PayloadBounds, Marker, Seq;
    Bounded(p, f, sn, body);
    AggregatedReads(p, f);
    E.TrackKeeps(s, sn);
  }

  /** So is one whose element after some announces more than there is. */
  lemma OverrunDiscards(s: State, p: Packet, f: Form, sn: u16, k: nat, n: nat, part: seq<byte>)
    requires E.Awaiting(s, sn) && Allowed(f, p.chunks) && !f.counted && k <= |p.chunks| && |part| < n < 0x100_0000_0000_0000
    requires if Start(s).dropping then p.n && !p.z else Start(s).acc.open == p.z
    ensures var o := Step(s, WrittenWith(p, f, sn, Elements(p.chunks[..k], false) + (Leb128.Encode(n) + part)));
            o.units == [] && o.ret == -1 && o.state.dropping && o.state.acc == FreshAcc && E.Awaiting(o.state, NextSeq(sn))
  {
    assert forall i :: 0 <= i < k ==> 0 < |p.chunks[..k][i]| < 0x100_0000_0000_0000;
    hide Allowed, Elements, TakeElements, Leb128.Encode, WrittenWith;
    var body := Elements(p.chunks[..k], false) + (Leb128.Encode(n) + part);
    OverrunCorrupts(Before(Start(s)), p.chunks[..k], p.y, 0, n, part);
    assert body != [] by { Leb128.RoundTrip(n, part); }
    CorruptDiscards(s, p, f, sn, body);
  }

  /** An OBU that ends inside its header corrupts the packet. */
  lemma ShortObuCorrupts(acc: Acc, h: byte)
    requires acc.obu == [] && h / 4 % 2 == 1
    ensures TakeChunks(acc, [[h]], false) == Corrupt
  {
    assert [] + [h] == [h];
  }

  /** A packet without elements, as networks send to probe a path, moves the sequence on and nothing else. */
  lemma ProbeOnlyCounts(s: State, f: Form, sn: u16, marker: bool, tail: seq<byte>)
    requires E.Awaiting(s, sn) && |tail| <= 1
    requires var p := Packet(false, false, false, marker, [[0]]); Allowed(f, p.chunks)
    ensures var w := Front(Packet(false, false, false, marker, [[0]]), f, sn) + f.csrc + f.extension + tail + f.padding;
            var o := Step(s, w);
            && o.units == [] && o.ret == |w| - |f.padding| && E.Awaiting(o.state, NextSeq(sn))
            && o.state.acc == Start(s).acc && o.state.dropping == Start(s).dropping
  {
    var p := Packet(false, false, false, marker, [[0]]);
    var front := Front(p, f, sn);
    var w, rest, at := front + f.csrc + f.extension + tail + f.padding, f.csrc + f.extension + tail + f.padding, HEADER_SIZE + |f.csrc|;
    hide Front, CsrcCount, Extended, Padded, Marker, Seq;
    assert w == front + rest;
    FrontReads(p, f, sn, rest);
    if f.extension != [] {
      assert w[at..at + |f.extension|] == f.extension;
      assert w[at..at + |f.extension|][2] == w[at + 2] && w[at..at + |f.extension|][3] == w[at + 3];
    }
    if f.padding != [] {
      assert w[|w| - |f.padding|..] == f.padding;
      assert w[|w| - |f.padding|..][|f.padding| - 1] == w[|w| - 1];
    }
    BoundsRead(w, f, |tail|);
    E.TrackKeeps(s, sn);
    hide PayloadBounds;
  }

  /** A packet cut short inside its headers is reported, and changes nothing once the receiver has started. */
  lemma CutShortIsIgnored(s: State, w: seq<byte>)
    requires s.started && (|w| < 12 || |w| < 12 + 4 * (w[0] % 16))
    ensures Step(s, w) == Outcome(s, [], -1)
  {
  }

  /** So is one whose padding is announced as none at all, or as more than is there. */
  lemma BadPaddingIsIgnored(s: State, w: seq<byte>)
    requires s.started && |w| >= 12 && w[0] / 32 % 2 == 1
    requires w[|w| - 1] == 0 || w[|w| - 1] > |w| - 12 - 4 * (w[0] % 16)
    ensures Step(s, w) == Outcome(s, [], -1)
  {
  }
}
