/** The depacketizer undoes the packetizer: what one packet of a unit does to the unit being rebuilt. */
module Av1Reassembly {
  import opened Bytes
  import opened Rtp
  import opened Av1Obu
  import opened Av1Packetizer
  import opened Av1Depacketizer
  import Leb128

  /** `TakeElements` on a list of OBU pieces rather than on the bytes that carry them. */
  function TakeChunks(acc: Acc, chunks: seq<seq<byte>>, y: bool): Taken
    decreases |chunks|
  {
    if chunks == [] then Taken(acc)
    else
      match TakeElement(acc, chunks[0], |chunks| == 1, y)
      case Corrupt => Corrupt
      case Taken(a) => TakeChunks(a, chunks[1..], y)
  }

  lemma ExtentOnWire(c: seq<byte>, rest: seq<byte>, element: nat)
    requires |c| <= ROOM
    ensures var p := Prefixed(c) + rest;
            && p != []
            && var e := ElementExtent(p, 0, element);
            && e == Extent(Leb128.Size(|c|), |c|)
            && p[e.at..e.at + e.len] == c && p[e.at + e.len..] == rest
  {
    Leb128.RoundTrip(|c|, c + rest);
    hide Leb128.Encode, Leb128.Decode, Leb128.Size;
    Assoc(Leb128.Encode(|c|), c, rest);
    Behind(Leb128.Encode(|c|), c, rest);
  }

  lemma Behind(a: seq<byte>, c: seq<byte>, rest: seq<byte>)
    ensures (a + c + rest)[|a|..|a| + |c|] == c && (a + c + rest)[|a| + |c|..] == rest
  {
  }

  lemma {:induction false} TakeOnWire(acc: Acc, chunks: seq<seq<byte>>, y: bool, element: nat)
    requires forall i :: 0 <= i < |chunks| ==> |chunks[i]| <= ROOM
    ensures TakeElements(acc, 0, element, y, Payload(chunks)) == TakeChunks(acc, chunks, y)
    decreases |chunks|
  {
    hide ElementExtent, TakeElement;
    if chunks != [] {
      var c, rest := chunks[0], Payload(chunks[1..]);
      ExtentOnWire(c, rest, element);
      PayloadEmpty(chunks[1..]);
      match TakeElement(acc, c, |chunks| == 1, y)
      case Corrupt =>
      case Taken(a) => TakeOnWire(a, chunks[1..], y, element + 1);
    }
  }

  lemma PayloadEmpty(chunks: seq<seq<byte>>)
    ensures Payload(chunks) == [] <==> chunks == []
  {
  }

  /** What is still to come, with the OBU in progress put back in front. */
  function Joined(obu: seq<byte>, rem: seq<seq<byte>>): seq<seq<byte>> {
    if obu == [] then rem
    else if rem == [] then [obu]
    else [obu + rem[0]] + rem[1..]
  }

  /** `acc` plus the bytes `rem` still on their way make the unit `norm`. */
  ghost predicate Rebuilds(acc: Acc, rem: seq<seq<byte>>, norm: seq<byte>) {
    && |acc.tu| >= |DELIMITER| && NonEmpty(rem)
    && (acc.open <==> acc.obu != []) && (acc.open ==> rem != [])
    && AllProper(Joined(acc.obu, rem))
    && norm == acc.tu + RestoreAll(Joined(acc.obu, rem))
  }

  lemma RestoreCons(obu: seq<byte>, tail: seq<seq<byte>>)
    requires Proper(obu) && AllProper(tail)
    ensures AllProper([obu] + tail) && RestoreAll([obu] + tail) == Restored(obu) + RestoreAll(tail)
    ensures |Restored(obu)| == |obu| + Leb128.Size(|obu| - HeaderSize(obu[0]))
  {
    assert ([obu] + tail)[1..] == tail;
  }

  lemma JoinedCons(obu: seq<byte>, rem: seq<seq<byte>>)
    requires rem != []
    ensures Joined(obu, rem) == [obu + rem[0]] + rem[1..]
  {
    if obu == [] {
      assert obu + rem[0] == rem[0];
      assert rem == [rem[0]] + rem[1..];
    }
  }

  /** A piece left open by Y: the unit still rebuilds from the shortened rest. */
  lemma TakeOpen(acc: Acc, rem: seq<seq<byte>>, c: nat, norm: seq<byte>)
    requires Rebuilds(acc, rem, norm) && rem != [] && 0 < c < |rem[0]|
    ensures var t := TakeElement(acc.(open := false), rem[0][..c], true, true);
            && (|norm| <= CAPACITY ==> t.Taken?)
            && (t.Taken? ==> t.acc.open && Rebuilds(t.acc, [rem[0][c..]] + rem[1..], norm))
  {
    hide RestoreAll, Restored, Proper;
    var e, tail := rem[0], rem[1..];
    JoinedCons(acc.obu, rem);
    RestoreLength(acc.obu + e, tail);
    JoinedCut(acc.obu, e, c, tail);
    hide Joined, AllProper;
  }

  lemma RestoreLength(obu: seq<byte>, tail: seq<seq<byte>>)
    requires AllProper([obu] + tail)
    ensures |RestoreAll([obu] + tail)| >= |obu|
  {
    assert Proper(([obu] + tail)[0]) && ([obu] + tail)[1..] == tail;
    forall i | 0 <= i < |tail| ensures Proper(tail[i]) { assert ([obu] + tail)[i + 1] == tail[i]; }
    RestoreCons(obu, tail);
  }

  /** Cutting an OBU moves bytes from what is to come into what is in progress. */
  lemma JoinedCut(obu: seq<byte>, e: seq<byte>, c: nat, tail: seq<seq<byte>>)
    requires 0 < c < |e|
    ensures Joined(obu + e[..c], [e[c..]] + tail) == [obu + e] + tail
  {
    JoinedCons(obu + e[..c], [e[c..]] + tail);
    assert obu + e[..c] + e[c..] == obu + e;
    assert ([e[c..]] + tail)[1..] == tail;
  }

  /** A piece that completes its OBU. */
  lemma TakeWhole(acc: Acc, rem: seq<seq<byte>>, last: bool, y: bool, norm: seq<byte>)
    requires Rebuilds(acc, rem, norm) && rem != [] && !(last && y)
    ensures var t := TakeElement(acc.(open := false), rem[0], last, y);
            && (|norm| <= CAPACITY ==> t.Taken?)
            && (t.Taken? ==> t.acc.obu == [] && !t.acc.open && Rebuilds(t.acc, rem[1..], norm))
  {
    var e, tail := rem[0], rem[1..];
    var obu := acc.obu + e;
    JoinedCons(acc.obu, rem);
    RestoreCons(obu, tail);
    Assoc(acc.tu, Restored(obu), RestoreAll(tail));
    assert Joined([], tail) == tail;
  }

  /** One packet's fill takes the rebuilt unit exactly as far as the packetizer cut it. */
  lemma {:induction false} FillTaken(acc: Acc, rem: seq<seq<byte>>, used: nat, norm: seq<byte>)
    requires Rebuilds(acc, rem, norm) && used <= ROOM && (acc.open ==> used == 0)
    ensures var f := Fill(rem, used);
            var t := TakeChunks(acc.(open := false), f.chunks, f.y);
            && (|norm| <= CAPACITY ==> t.Taken?)
            && (t.Taken? ==> t.acc.open == f.y && Rebuilds(t.acc, f.rest, norm))
    decreases |rem|
  {
    hide TakeElement, Rebuilds;
    if rem == [] || ROOM - used < 3 {
      FillTakenNothing(acc, rem, used, norm);
    } else {
      var e, room := rem[0], ROOM - used;
      if Leb128.Size(|e|) + |e| > room {
        Split(e, room);
        TakeOpen(acc, rem, room - 2, norm);
      } else {
        var f := Fill(rem[1..], used + Leb128.Size(|e|) + |e|);
        TakeWhole(acc, rem, f.chunks == [], f.y, norm);
        var t := TakeElement(acc.(open := false), e, f.chunks == [], f.y);
        assert ([e] + f.chunks)[1..] == f.chunks;
        if t.Taken? {
          assert t.acc.(open := false) == t.acc;
          FillTaken(t.acc, rem[1..], used + Leb128.Size(|e|) + |e|, norm);
        }
      }
    }
  }

  lemma FillTakenNothing(acc: Acc, rem: seq<seq<byte>>, used: nat, norm: seq<byte>)
    requires Rebuilds(acc, rem, norm) && used <= ROOM && (acc.open ==> used == 0)
    requires rem == [] || ROOM - used < 3
    ensures acc.(open := false) == acc && Fill(rem, used) == Filled([], rem, false)
  {
  }

  /** `TakeBody` on OBU pieces. */
  function TakePieces(s: State, p: Packet): Outcome {
    match TakeChunks(s.acc.(open := false), p.chunks, p.y)
    case Corrupt => Outcome(Discard(s), [], -1)
    case Taken(a) =>
      if !p.marker then Outcome(s.(acc := a), [], 0)
      else if a.open then Outcome(Discard(s), [], -1)
      else Outcome(s.(acc := FreshAcc), if |a.tu| > |DELIMITER| then [a.tu] else [], 0)
  }

  /** `TakePayload` on a packet of the packetizer. */
  function TakePacket(s: State, p: Packet): Outcome {
    if s.dropping && !p.n then Outcome(s, [], 0)
    else
      var s1 := if s.dropping then s.(dropping := false, acc := FreshAcc) else s;
      if p.z != s1.acc.open then Outcome(Discard(s1), [], 0)
      else TakePieces(s1, p)
  }

  predicate Sendable(p: Packet) {
    p.chunks != [] && forall i :: 0 <= i < |p.chunks| ==> |p.chunks[i]| <= ROOM
  }

  lemma AggregationReadsBack(z: bool, y: bool, n: bool)
    ensures var a := Aggregation(z, y, n);
            (a / 128 == 1) == z && (a / 64 % 2 == 1) == y && (a / 8 % 2 == 1) == n && a / 16 % 4 == 0
  {
  }

  lemma BoundsOnWire(p: Packet, sn: u16, ts: u32)
    ensures var w := Wire(p, sn, ts);
            && |w| == HEADERS + |Payload(p.chunks)|
            && PayloadBounds(w) == Bounds(HEADER_SIZE, |w|)
            && Seq(w) == sn && Marker(w) == p.marker
            && w[HEADER_SIZE] == Aggregation(p.z, p.y, p.n)
            && w[HEADER_SIZE + 1..] == Payload(p.chunks)
  {
    hide Header, Payload, Seq, Marker, Padded, Extended, CsrcCount, Aggregation;
    var head := Header(Rtp.AV1, p.marker, sn, ts);
    var body := [Aggregation(p.z, p.y, p.n)] + Payload(p.chunks);
    var w := Wire(p, sn, ts);
    assert w == head + body;
    HeaderReadsBack(Rtp.AV1, p.marker, sn, ts, body);
    assert w[HEADER_SIZE] == body[0];
    assert w[HEADER_SIZE + 1..] == body[1..];
  }

  /** The depacketizer reads from the wire exactly what the packetizer put there. */
  lemma StepOnWire(s0: State, p: Packet, sn: u16, ts: u32)
    requires Sendable(p)
    ensures var o := Step(s0, Wire(p, sn, ts));
            var o' := TakePacket(Track(Start(s0), sn), p);
            o.state == o'.state && o.units == o'.units
  {
    hide Wire, PayloadBounds, Payload, TakeElements, TakeChunks, Aggregation, Track, Start, Discard;
    var w := Wire(p, sn, ts);
    BoundsOnWire(p, sn, ts);
    assert w[HEADER_SIZE + 1..|w|] == w[HEADER_SIZE + 1..];
    PayloadEmpty(p.chunks);
    AggregationReadsBack(p.z, p.y, p.n);
    var s := Track(Start(s0), sn);
    var s1 := if s.dropping then s.(dropping := false, acc := FreshAcc) else s;
    TakeOnWire(s1.acc.(open := false), p.chunks, p.y, 0);
  }

  lemma TakeElementFits(acc: Acc, e: seq<byte>, last: bool, y: bool)
    ensures var t := TakeElement(acc, e, last, y); t.Taken? ==> Fits(t.acc)
  {
    hide Leb128.Size, Leb128.Encode;
    var obu := acc.obu + e;
    if obu != [] && Proper(obu) { RestoreCons(obu, []); }
  }

  lemma {:induction false} TakeChunksFits(acc: Acc, chunks: seq<seq<byte>>, y: bool)
    requires chunks != []
    ensures var t := TakeChunks(acc, chunks, y); t.Taken? ==> Fits(t.acc)
    decreases |chunks|
  {
    hide TakeElement, Fits;
    TakeElementFits(acc, chunks[0], |chunks| == 1, y);
    var t := TakeElement(acc, chunks[0], |chunks| == 1, y);
    if t.Taken? && |chunks| > 1 { TakeChunksFits(t.acc, chunks[1..], y); }
  }
}
