/**
 The AV1 packetizer (sections 4.4 and 5 of RTP Payload Format For AV1, v1.0.0): the OBUs of one
 temporal unit are cut into packets, each element behind its own leb128 length (W = 0).
 */
module Av1Packetizer {
  import opened Bytes
  import opened Rtp
  import opened Av1Obu
  import Leb128

  /** Payload bytes of a packet behind the RTP header and the aggregation header. */
  const ROOM: nat := 1287

  /** One packet: the aggregation bits, the marker, and the OBU pieces it carries. */
  datatype Packet = Packet(z: bool, y: bool, n: bool, marker: bool, chunks: seq<seq<byte>>)

  /** A packet's fill: pieces taken, OBU bytes left over, whether the last piece is continued. */
  datatype Filled = Filled(chunks: seq<seq<byte>>, rest: seq<seq<byte>>, y: bool)

  function Prefixed(chunk: seq<byte>): seq<byte> {
    Leb128.Encode(|chunk|) + chunk
  }

  function Payload(chunks: seq<seq<byte>>): seq<byte> {
    if chunks == [] then [] else Prefixed(chunks[0]) + Payload(chunks[1..])
  }

  predicate NonEmpty(rem: seq<seq<byte>>) {
    forall i :: 0 <= i < |rem| ==> rem[i] != []
  }

  /** Fill a packet holding `used` bytes from what is left of the unit. */
  function Fill(rem: seq<seq<byte>>, used: nat): (f: Filled)
    ensures f.y ==> f.chunks != [] && f.rest != []
  {
    if rem == [] || ROOM - used < 3 then Filled([], rem, false)
    else
      var e, room := rem[0], ROOM - used;
      if Leb128.Size(|e|) + |e| > room then
        Split(e, room);
        Filled([e[..room - 2]], [e[room - 2..]] + rem[1..], true)
      else
        var f := Fill(rem[1..], used + Leb128.Size(|e|) + |e|);
        Filled([e] + f.chunks, f.rest, f.y)
  }

  /** A fill never overflows the packet and leaves no empty piece on either side. */
  lemma {:induction false} FillFits(rem: seq<seq<byte>>, used: nat)
    requires used <= ROOM && NonEmpty(rem)
    ensures var f := Fill(rem, used);
            NonEmpty(f.chunks) && NonEmpty(f.rest) && used + |Payload(f.chunks)| <= ROOM
  {
    if rem != [] && ROOM - used >= 3 {
      var e, room := rem[0], ROOM - used;
      if Leb128.Size(|e|) + |e| > room {
        Split(e, room);
      } else {
        FillFits(rem[1..], used + Leb128.Size(|e|) + |e|);
        var f := Fill(rem[1..], used + Leb128.Size(|e|) + |e|);
        assert ([e] + f.chunks)[1..] == f.chunks;
      }
    }
  }

  /** Pieces taken and bytes left are the bytes there were, and an empty packet takes at least one. */
  lemma {:induction false} FillKeepsBytes(rem: seq<seq<byte>>, used: nat)
    requires used <= ROOM && NonEmpty(rem)
    ensures var f := Fill(rem, used);
            && Flatten(f.chunks) + Flatten(f.rest) == Flatten(rem)
            && (used == 0 && rem != [] ==> f.chunks != [])
            && (f.chunks != [] ==> |Flatten(f.rest)| < |Flatten(rem)|)
  {
    if rem != [] && ROOM - used >= 3 {
      var e, room := rem[0], ROOM - used;
      if Leb128.Size(|e|) + |e| > room {
        Split(e, room);
        SplitFlatten(e, room - 2, rem[1..]);
      } else {
        var f := Fill(rem[1..], used + Leb128.Size(|e|) + |e|);
        FillKeepsBytes(rem[1..], used + Leb128.Size(|e|) + |e|);
        assert ([e] + f.chunks)[1..] == f.chunks;
        Assoc(e, Flatten(f.chunks), Flatten(f.rest));
      }
    }
  }

  /** A piece that does not fit whole is cut shorter than what remains, and its length field fits two bytes. */
  lemma Split(e: seq<byte>, room: nat)
    requires 3 <= room <= ROOM
    requires Leb128.Size(|e|) + |e| > room
    ensures 1 <= room - 2 < |e|
    ensures |Payload([e[..room - 2]])| <= room
  {
    Leb128.SizeBound(|e|, 2);
    Leb128.SizeBound(room - 2, 2);
    assert Leb128.Pow128(2) == 16384 by { assert Leb128.Pow128(1) == 128 * Leb128.Pow128(0); }
    assert Payload([e[..room - 2]]) == Prefixed(e[..room - 2]) + Payload([]);
  }

  lemma SplitFlatten(e: seq<byte>, at: nat, tail: seq<seq<byte>>)
    requires at <= |e|
    ensures Flatten([e[..at]]) + Flatten([e[at..]] + tail) == Flatten([e] + tail)
  {
    assert Flatten([e[..at]]) == e[..at] + Flatten([]);
    assert ([e[at..]] + tail)[1..] == tail && ([e] + tail)[1..] == tail;
    assert e[..at] + e[at..] == e;
  }

  /** The packets of a unit whose bytes `rem` are still to go; `z` says the first continues a cut OBU. */
  function Cut(rem: seq<seq<byte>>, z: bool, n: bool): seq<Packet>
    requires NonEmpty(rem)
    decreases |Flatten(rem)|, |rem|
  {
    if rem == [] then []
    else
      FillFits(rem, 0);
      FillKeepsBytes(rem, 0);
      var f := Fill(rem, 0);
      [Packet(z, f.y, n, f.rest == [], f.chunks)] + Cut(f.rest, f.y, false)
  }

  function Flag(b: bool, weight: nat): nat { if b then weight else 0 }

  /** Z, Y and N of the aggregation header; W stays 0. */
  function Aggregation(z: bool, y: bool, n: bool): byte {
    Flag(z, 128) + Flag(y, 64) + Flag(n, 8)
  }

  function Wire(p: Packet, sn: u16, ts: u32): seq<byte> {
    Header(Rtp.AV1, p.marker, sn, ts) + [Aggregation(p.z, p.y, p.n)] + Payload(p.chunks)
  }

  /** The packets of one unit on the wire: one timestamp, consecutive sequence numbers. */
  function Wires(ps: seq<Packet>, sn: u16, ts: u32): (ws: seq<seq<byte>>)
    ensures |ws| == |ps|
  {
    if ps == [] then [] else [Wire(ps[0], sn, ts)] + Wires(ps[1..], NextSeq(sn), ts)
  }

  lemma {:induction false} WireAt(ps: seq<Packet>, sn: u16, ts: u32, i: nat)
    requires i < |ps|
    ensures Wires(ps, sn, ts)[i] == Wire(ps[i], (sn + i) % 0x1_0000, ts)
  {
    NumberAt(sn, i);
    hide Wire, NextSeq;
    if i > 0 {
      WireAt(ps[1..], NextSeq(sn), ts, i - 1);
    }
  }

  lemma NumberAt(sn: u16, i: nat)
    ensures if i > 0 then (NextSeq(sn) + (i - 1)) % 0x1_0000 == (sn + i) % 0x1_0000 else (sn + i) % 0x1_0000 == sn
  {
  }

  predicate WithinMtu(p: Packet) {
    HEADER_SIZE + 1 + |Payload(p.chunks)| <= MTU
  }

  function AllChunks(ps: seq<Packet>): seq<byte> {
    if ps == [] then [] else Flatten(ps[0].chunks) + AllChunks(ps[1..])
  }

  /**
   Section 5's rules for packet `i` of one unit: nothing oversized or empty, Z mirrors the
   previous Y, N only on the first packet, the marker on the last alone.
   */
  lemma {:induction false} CutRules(rem: seq<seq<byte>>, z: bool, n: bool, i: nat)
    requires NonEmpty(rem) && i < |Cut(rem, z, n)|
    ensures var ps := Cut(rem, z, n);
            && WithinMtu(ps[i]) && ps[i].chunks != [] && NonEmpty(ps[i].chunks)
            && ps[i].z == (if i == 0 then z else ps[i - 1].y)
            && ps[i].n == (i == 0 && n)
            && (ps[i].marker <==> i == |ps| - 1)
            && (i == |ps| - 1 ==> !ps[i].y)
    decreases i
  {
    var f := Fill(rem, 0);
    FillFits(rem, 0);
    FillKeepsBytes(rem, 0);
    assert Cut(rem, z, n)[1..] == Cut(f.rest, f.y, false);
    if i > 0 {
      CutRules(f.rest, f.y, false, i - 1);
    }
  }

  /** A fill that leaves bytes over leaves no room for another piece. */
  lemma {:induction false} FillFull(rem: seq<seq<byte>>, used: nat)
    requires used <= ROOM && NonEmpty(rem)
    ensures var f := Fill(rem, used); f.rest != [] ==> used + |Payload(f.chunks)| >= ROOM - 2
  {
    if rem != [] && ROOM - used >= 3 {
      var e, room := rem[0], ROOM - used;
      hide Leb128.Size, Leb128.Encode;
      if Leb128.Size(|e|) + |e| > room {
        Split(e, room);
        assert Payload([e[..room - 2]]) == Prefixed(e[..room - 2]) + Payload([]);
      } else {
        var f := Fill(rem[1..], used + Leb128.Size(|e|) + |e|);
        FillFull(rem[1..], used + Leb128.Size(|e|) + |e|);
        assert ([e] + f.chunks)[1..] == f.chunks;
      }
    }
  }

  /** Every packet of a unit but the last fills the MTU, two bytes at most left over. */
  lemma {:induction false} CutFull(rem: seq<seq<byte>>, z: bool, n: bool, i: nat)
    requires NonEmpty(rem) && i + 1 < |Cut(rem, z, n)|
    ensures 13 + |Payload(Cut(rem, z, n)[i].chunks)| >= 1298
    decreases i
  {
    var f := Fill(rem, 0);
    FillFits(rem, 0);
    FillKeepsBytes(rem, 0);
    FillFull(rem, 0);
    assert Cut(rem, z, n)[1..] == Cut(f.rest, f.y, false);
    hide Fill, Payload;
    if i > 0 { CutFull(f.rest, f.y, false, i - 1); }
  }

  /** No byte of the unit is lost or moved by cutting it. */
  lemma {:induction false} CutKeepsBytes(rem: seq<seq<byte>>, z: bool, n: bool)
    requires NonEmpty(rem)
    ensures AllChunks(Cut(rem, z, n)) == Flatten(rem)
    decreases |Flatten(rem)|, |rem|
  {
    if rem != [] {
      var f := Fill(rem, 0);
      FillFits(rem, 0);
      FillKeepsBytes(rem, 0);
      CutKeepsBytes(f.rest, f.y, false);
      assert Cut(rem, z, n)[1..] == Cut(f.rest, f.y, false);
    }
  }

  /** What is left of a unit when `offset` bytes of element `index` are gone. */
  function Remaining(elements: seq<Element>, index: nat, offset: nat): seq<seq<byte>> {
    if index < |elements| && offset <= |elements[index].Bytes()|
    then [elements[index].Bytes()[offset..]] + Obus(elements)[index + 1..]
    else []
  }

  predicate ElementsProper(elements: seq<Element>) {
    forall i :: 0 <= i < |elements| ==> elements[i].Bytes() != []
  }

  predicate Cursor(elements: seq<Element>, index: nat, offset: nat) {
    && ElementsProper(elements) && index <= |elements|
    && (index < |elements| ==> offset < |elements[index].Bytes()|)
    && (index == |elements| ==> offset == 0)
  }

  /** The part of `ElementCopy` that comes out of the two-byte header field. */
  method HeaderCopy(element: Element, offset: nat, dst: array<byte>, at: nat, n: nat) returns (copied: nat)
    requires offset + n <= |element.Bytes()| && at + n <= dst.Length
    modifies dst
    ensures copied <= n && (copied > 0 ==> offset + copied <= |element.header|)
    ensures copied < n ==> |element.header| <= offset + copied
    ensures dst[..] == Overwrite(old(dst[..]), at, element.Bytes()[offset..offset + copied])
  {
    copied := 0;
    while copied < n && offset + copied < |element.header|
      invariant copied <= n
      invariant copied > 0 ==> offset + copied <= |element.header|
      invariant forall j :: at <= j < at + copied ==> dst[j] == element.header[j - at + offset]
      invariant forall j :: 0 <= j < dst.Length && !(at <= j < at + copied) ==> dst[j] == old(dst[j])
    {
      dst[at + copied] := element.header[offset + copied];
      copied := copied + 1;
    }
  }

  lemma PastHeader(header: seq<byte>, payload: seq<byte>, i: nat, j: nat)
    requires |header| <= i <= j <= |header| + |payload|
    ensures payload[i - |header|..j - |header|] == (header + payload)[i..j]
  {
  }

  lemma SliceJoin(s: seq<byte>, i: nat, j: nat, k: nat)
    requires i <= j <= k <= |s|
    ensures s[i..j] + s[j..k] == s[i..k]
  {
  }

  /** The part of a copy that lies past the header. */
  method PayloadCopy(element: Element, from: nat, dst: array<byte>, at: nat, n: nat)
    requires |element.header| <= from && from + n <= |element.Bytes()| && at + n <= dst.Length
    modifies dst
    ensures dst[..] == Overwrite(old(dst[..]), at, element.Bytes()[from..from + n])
  {
    hide Overwrite;
    var hdr := |element.header|;
    PastHeader(element.header, element.payload, from, from + n);
    Memcpy(dst, at, element.payload[from - hdr..from + n - hdr]);
  }

  /** Copies `n` bytes of the virtual concatenation of header and payload, from `offset`. */
  method ElementCopy(element: Element, offset: nat, dst: array<byte>, at: nat, n: nat)
    requires offset + n <= |element.Bytes()| && at + n <= dst.Length
    modifies dst
    ensures dst[..] == Overwrite(old(dst[..]), at, element.Bytes()[offset..offset + n])
  {
    hide Element.Bytes, Overwrite;
    ghost var was, bytes := dst[..], element.Bytes();
    var copied := HeaderCopy(element, offset, dst, at, n);
    if copied < n {
      SliceJoin(bytes, offset, offset + copied, offset + n);
      OverwriteTwice(was, at, bytes[offset..offset + copied], bytes[offset + copied..offset + n]);
      PayloadCopy(element, offset + copied, dst, at + copied, n - copied);
    }
  }

  /** Payload of one element piece behind what the packet already holds. */
  lemma {:induction false} PayloadAppend(chunks: seq<seq<byte>>, c: seq<byte>)
    ensures Payload(chunks + [c]) == Payload(chunks) + Prefixed(c)
  {
    if chunks == [] {
      assert [] + [c] == [c];
      assert Payload([c]) == Prefixed(c) + Payload([]);
    } else {
      PayloadAppend(chunks[1..], c);
      assert (chunks + [c])[1..] == chunks[1..] + [c];
    }
  }

  /** A fill that has taken `chunks` (together `used` bytes) and goes on from `rem`. */
  function FillFrom(chunks: seq<seq<byte>>, rem: seq<seq<byte>>, used: nat): Filled
  {
    var f := Fill(rem, used);
    f.(chunks := chunks + f.chunks)
  }

  /** One turn of the filling loop. */
  lemma FillTurn(chunks: seq<seq<byte>>, rem: seq<seq<byte>>, used: nat)
    requires used <= ROOM && rem != []
    ensures ROOM - used < 3 ==> FillFrom(chunks, rem, used) == Filled(chunks, rem, false)
    ensures ROOM - used >= 3 && Leb128.Size(|rem[0]|) + |rem[0]| > ROOM - used ==>
              var c := ROOM - used - 2;
              && c < |rem[0]|
              && FillFrom(chunks, rem, used) ==
                 Filled(chunks + [rem[0][..c]], [rem[0][c..]] + rem[1..], true)
    ensures ROOM - used >= 3 && Leb128.Size(|rem[0]|) + |rem[0]| <= ROOM - used ==>
              FillFrom(chunks, rem, used) ==
              FillFrom(chunks + [rem[0]], rem[1..], used + |Prefixed(rem[0])|)
  {
    if ROOM - used >= 3 {
      var e := rem[0];
      if Leb128.Size(|e|) + |e| > ROOM - used {
        Split(e, ROOM - used);
      } else {
        var f := Fill(rem[1..], used + Leb128.Size(|e|) + |e|);
        assert chunks + ([e] + f.chunks) == chunks + [e] + f.chunks;
      }
    }
  }

  lemma RemainingTurn(elements: seq<Element>, index: nat, offset: nat, chunk: nat)
    requires Cursor(elements, index, offset) && index < |elements|
    requires 0 < chunk <= |elements[index].Bytes()| - offset
    ensures var bytes := elements[index].Bytes();
            var rem := Remaining(elements, index, offset);
            && NonEmpty(rem) && rem != [] && rem[0] == bytes[offset..]
            && rem[0][..chunk] == bytes[offset..offset + chunk]
            && (offset + chunk == |bytes| ==>
                  Cursor(elements, index + 1, 0) && Remaining(elements, index + 1, 0) == rem[1..])
            && (offset + chunk < |bytes| ==>
                  Cursor(elements, index, offset + chunk)
                  && Remaining(elements, index, offset + chunk) == [rem[0][chunk..]] + rem[1..])
  {
    var bytes := elements[index].Bytes();
    assert bytes[offset..][..chunk] == bytes[offset..offset + chunk];
    assert bytes[offset..][chunk..] == bytes[offset + chunk..];
  }

  /** Writes one element piece: its length, then its bytes. */
  method PutChunk(buf: array<byte>, at: nat, element: Element, offset: nat, chunk: nat) returns (written: nat)
    requires offset + chunk <= |element.Bytes()|
    requires at + Leb128.Size(chunk) + chunk <= buf.Length
    modifies buf
    ensures written == |Prefixed(element.Bytes()[offset..offset + chunk])|
    ensures buf[..] == Overwrite(old(buf[..]), at, Prefixed(element.Bytes()[offset..offset + chunk]))
  {
    hide Overwrite, Leb128.Size;
    ghost var piece := element.Bytes()[offset..offset + chunk];
    written := Leb128.Write(buf, at, chunk);
    OverwriteTwice(old(buf[..]), at, Leb128.Encode(chunk), piece);
    ElementCopy(element, offset, buf, at + written, chunk);
    written := written + chunk;
  }

  /** How much of an element goes into `room` bytes. */
  function PieceSize(remaining: nat, room: nat): int {
    if Leb128.Size(remaining) + remaining > room then room - 2 else remaining
  }

  /** The filling loop stands at (`index`, `offset`) with `chunks` in the packet; `goal` is the final fill. */
  ghost predicate Filling(elements: seq<Element>, index: nat, offset: nat, chunks: seq<seq<byte>>, goal: Filled) {
    && Cursor(elements, index, offset)
    && |Payload(chunks)| <= ROOM
    && (offset > 0 ==> chunks == [])
    && goal == FillFrom(chunks, Remaining(elements, index, offset), |Payload(chunks)|)
  }

  lemma FillStops(elements: seq<Element>, index: nat, offset: nat, chunks: seq<seq<byte>>, goal: Filled)
    requires Filling(elements, index, offset, chunks, goal)
    requires index < |elements| ==> ROOM - |Payload(chunks)| < 3
    ensures Cursor(elements, index, offset) && |Payload(chunks)| <= ROOM
    ensures offset == 0 && goal == Filled(chunks, Remaining(elements, index, offset), false)
  {
    assert chunks + [] == chunks;
    if chunks == [] { assert |Payload(chunks)| == 0; }
  }

  lemma FillAdvances(elements: seq<Element>, index: nat, offset: nat, chunks: seq<seq<byte>>, goal: Filled)
    requires Filling(elements, index, offset, chunks, goal) && index < |elements|
    requires ROOM - |Payload(chunks)| >= 3
    ensures var bytes := elements[index].Bytes();
            var c := PieceSize(|bytes| - offset, ROOM - |Payload(chunks)|);
            && 0 < c <= |bytes| - offset
            && var piece := bytes[offset..offset + c];
            && Payload(chunks + [piece]) == Payload(chunks) + Prefixed(piece)
            && |Payload(chunks + [piece])| <= ROOM
            && (offset + c == |bytes| ==> Filling(elements, index + 1, 0, chunks + [piece], goal))
            && (offset + c < |bytes| ==>
                  Cursor(elements, index, offset + c)
                  && goal == Filled(chunks + [piece], Remaining(elements, index, offset + c), true))
  {
    var bytes := elements[index].Bytes();
    var rem, used := Remaining(elements, index, offset), |Payload(chunks)|;
    var e := rem[0];
    FillTurn(chunks, rem, used);
    if Leb128.Size(|e|) + |e| > ROOM - used { Split(e, ROOM - used); }
    var c := PieceSize(|bytes| - offset, ROOM - used);
    var piece := bytes[offset..offset + c];
    RemainingTurn(elements, index, offset, c);
    PayloadAppend(chunks, piece);
    if c == |e| {
      assert piece == e;
    } else {
      assert piece == e[..c];
      assert Payload([piece]) == Prefixed(piece) + Payload([]);
    }
  }

  const HEADERS: nat := HEADER_SIZE + 1

  /** The body of the filling loop: one element piece goes behind the `len` payload bytes already placed. */
  method PlacePiece(buf: array<byte>, elements: seq<Element>, index: nat, offset: nat, len: nat,
                    ghost chunks: seq<seq<byte>>, ghost goal: Filled)
    returns (chunk: nat, written: nat, ghost more: seq<seq<byte>>)
    requires HEADERS + ROOM <= buf.Length
    requires Filling(elements, index, offset, chunks, goal) && index < |elements|
    requires len == |Payload(chunks)| && ROOM - len >= 3
    modifies buf
    ensures 0 < chunk <= |elements[index].Bytes()| - offset
    ensures Payload(more) == Payload(chunks) + Prefixed(elements[index].Bytes()[offset..offset + chunk])
    ensures len + written == |Payload(more)| <= ROOM
    ensures buf[..] == Overwrite(old(buf[..]), HEADERS + len, Prefixed(elements[index].Bytes()[offset..offset + chunk]))
    ensures offset + chunk == |elements[index].Bytes()| ==> Filling(elements, index + 1, 0, more, goal)
    ensures offset + chunk < |elements[index].Bytes()| ==>
              Cursor(elements, index, offset + chunk)
              && goal == Filled(more, Remaining(elements, index, offset + chunk), true)
  {
    hide Fill, FillFrom, Remaining, Cursor, Payload, Overwrite;
    FillAdvances(elements, index, offset, chunks, goal);
    chunk := |elements[index].header| + |elements[index].payload| - offset;
    var room := ROOM - len;
    var size := Leb128.ComputeSize(chunk);
    if size + chunk > room { chunk := room - 2; }
    more := chunks + [elements[index].Bytes()[offset..offset + chunk]];
    written := PutChunk(buf, HEADERS + len, elements[index], offset, chunk);
  }

  /** The filling loop: packs element pieces behind the headers until the packet is full. */
  method FillPacket(buf: array<byte>, elements: seq<Element>, index0: nat, offset0: nat)
    returns (index: nat, offset: nat, len: nat, y: bool, ghost chunks: seq<seq<byte>>)
    requires HEADERS + ROOM <= buf.Length
    requires Cursor(elements, index0, offset0) && index0 < |elements|
    modifies buf
    ensures Cursor(elements, index, offset)
    ensures offset > 0 <==> y
    ensures Fill(Remaining(elements, index0, offset0), 0) ==
            Filled(chunks, Remaining(elements, index, offset), y)
    ensures len == |Payload(chunks)| <= ROOM
    ensures buf[..] == Overwrite(old(buf[..]), HEADERS, Payload(chunks))
  {
    hide Fill, Filling, Remaining, Payload, Overwrite, Prefixed;
    index, offset, len, y, chunks := index0, offset0, 0, false, [];
    ghost var goal, blank := Fill(Remaining(elements, index0, offset0), 0), buf[..];
    FillStarts(elements, index0, offset0, blank);
    while index < |elements| && ROOM - len >= 3
      invariant Filling(elements, index, offset, chunks, goal)
      invariant len == |Payload(chunks)| <= ROOM
      invariant buf[..] == Overwrite(blank, HEADERS, Payload(chunks))
      decreases |elements| - index
    {
      var chunk, written;
      ghost var more;
      chunk, written, more := PlacePiece(buf, elements, index, offset, len, chunks, goal);
      OverwriteTwice(blank, HEADERS, Payload(chunks), Prefixed(elements[index].Bytes()[offset..offset + chunk]));
      len, offset, chunks := len + written, offset + chunk, more;
      if offset < |elements[index].header| + |elements[index].payload| {
        y := true;
        return;
      }
      index, offset := index + 1, 0;
    }
    FillStops(elements, index, offset, chunks, goal);
  }

  lemma FillStarts(elements: seq<Element>, index: nat, offset: nat, blank: seq<byte>)
    requires Cursor(elements, index, offset) && HEADERS <= |blank|
    ensures Payload([]) == [] && Overwrite(blank, HEADERS, []) == blank
    ensures Filling(elements, index, offset, [], Fill(Remaining(elements, index, offset), 0))
  {
    var f := Fill(Remaining(elements, index, offset), 0);
    assert [] + f.chunks == f.chunks;
  }

  /** Everything one call of the encoder does: packets out, counters on, return code. */
  datatype Encoding = Encoding(ret: int, packets: seq<seq<byte>>, sn: u16, ts: u32)

  /** Sequence number after `n` packets. */
  function Advance(sn: u16, n: nat): u16 {
    (sn + n) % 0x1_0000
  }

  predicate Accepted(unit: seq<byte>) {
    ParseUnit(unit).Parsed? && ParseUnit(unit).elements != []
  }

  lemma AcceptedProper(unit: seq<byte>)
    requires |unit| < 0x100_0000_0000_0000 && Accepted(unit)
    ensures var es := ParseUnit(unit).elements;
            AllProper(Obus(es)) && NonEmpty(Obus(es)) && Cursor(es, 0, 0)
            && Remaining(es, 0, 0) == Obus(es)
  {
    ParseShape(unit, 0);
    var es := ParseUnit(unit).elements;
    assert Obus(es)[0] == es[0].Bytes();
    assert forall i :: 0 <= i < |es| ==> Obus(es)[i] == es[i].Bytes();
    assert Obus(es)[0][0..] == Obus(es)[0];
  }

  /** The packets of a unit; rejected and empty units have none. */
  function UnitPackets(unit: seq<byte>): seq<Packet>
    requires |unit| < 0x100_0000_0000_0000
  {
    if Accepted(unit) then
      AcceptedProper(unit);
      Cut(Obus(ParseUnit(unit).elements), false, ParseUnit(unit).newSequence)
    else []
  }

  function EncodeUnit(unit: seq<byte>, sn: u16, ts: u32): Encoding
    requires |unit| < 0x100_0000_0000_0000
  {
    var ps := UnitPackets(unit);
    Encoding(if ParseUnit(unit).Rejected? then -1 else 0,
             Wires(ps, sn, ts),
             Advance(sn, |ps|),
             if Accepted(unit) then Tick(ts, Rtp.AV1.increment) else ts)
  }

  lemma {:induction false} WiresSplit(ps: seq<Packet>, qs: seq<Packet>, sn: u16, ts: u32)
    ensures Wires(ps + qs, sn, ts) == Wires(ps, sn, ts) + Wires(qs, Advance(sn, |ps|), ts)
  {
    hide Wire, NextSeq;
    AdvanceNext(sn, 0);
    if ps == [] {
      assert ps + qs == qs;
    } else {
      WiresSplit(ps[1..], qs, NextSeq(sn), ts);
      assert (ps + qs)[1..] == ps[1..] + qs;
      AdvanceNext(sn, |ps| - 1);
    }
    hide Advance;
  }

  lemma AdvanceNext(sn: u16, n: nat)
    ensures Advance(NextSeq(sn), n) == Advance(sn, n + 1) == NextSeq(Advance(sn, n))
  {
  }

  /** The sender's state: packet buffer, sequence counter, timestamp. */
  class Encoder {
    const buf: array<byte>
    var sn: u16
    var ts: u32

    constructor ()
      ensures fresh(buf) && buf.Length == MTU + 128 && sn == 0 && ts == 0
    {
      buf := new byte[MTU + 128](_ => 0);
      sn, ts := 0, 0;
    }

    /** Writes the RTP and aggregation headers in front of `len` payload bytes and hands the packet over. */
    method Emit(z: bool, y: bool, n: bool, marker: bool, len: nat, ghost chunks: seq<seq<byte>>)
      returns (wire: seq<byte>)
      requires buf.Length == MTU + 128
      requires len == |Payload(chunks)| <= ROOM && buf[HEADERS..HEADERS + len] == Payload(chunks)
      modifies this`sn, buf
      ensures wire == Wire(Packet(z, y, n, marker, chunks), old(sn), ts) && sn == NextSeq(old(sn))
    {
      hide Payload, Header;
      var headers := Header(Rtp.AV1, marker, sn, ts) + [Aggregation(z, y, n)];
      OverwriteKeeps(buf[..], 0, headers, HEADERS, HEADERS + len);
      assert buf[HEADERS..HEADERS + len] == buf[..][HEADERS..HEADERS + len];
      Memcpy(buf, 0, headers);
      assert buf[HEADERS..HEADERS + len] == buf[..][HEADERS..HEADERS + len] == Payload(chunks);
      assert buf[..HEADERS] == headers;
      sn := NextSeq(sn);
      wire := buf[..HEADERS + len];
      assert wire == buf[..HEADERS] + buf[HEADERS..HEADERS + len];
    }

    /** One packet: fill, then emit. */
    method EmitNext(elements: seq<Element>, index0: nat, offset0: nat, z: bool, n: bool)
      returns (index: nat, offset: nat, y: bool, wire: seq<byte>, ghost p: Packet)
      requires buf.Length == MTU + 128
      requires Cursor(elements, index0, offset0) && index0 < |elements|
      modifies this`sn, buf
      ensures Cursor(elements, index, offset) && sn == NextSeq(old(sn))
      ensures offset > 0 <==> y
      ensures var f := Fill(Remaining(elements, index0, offset0), 0);
              f.rest == Remaining(elements, index, offset) && f.y == y
              && p == Packet(z, y, n, f.rest == [], f.chunks)
      ensures wire == Wire(p, old(sn), ts)
    {
      hide Fill, Payload, Wire;
      ghost var chunks;
      var len;
      index, offset, len, y, chunks := FillPacket(buf, elements, index0, offset0);
      p := Packet(z, y, n, index == |elements|, chunks);
      wire := Emit(z, y, n, index == |elements|, len, chunks);
    }

    /** The packetizing loop over one temporal unit. */
    method EncodeAv1(unit: seq<byte>) returns (ret: int, packets: seq<seq<byte>>)
      requires buf.Length == MTU + 128 && |unit| < 0x100_0000_0000_0000
      modifies this, buf
      ensures Encoding(ret, packets, sn, ts) == EncodeUnit(unit, old(sn), old(ts))
    {
      var parsed := ParseTemporalUnit(unit);
      if parsed.Rejected? { return -1, []; }
      if parsed.elements == [] { return 0, []; }
      AcceptedProper(unit);
      packets := EncodeElements(parsed.elements, parsed.newSequence);
      ts := Tick(ts, Rtp.AV1.increment);
      ret := 0;
    }

    method EncodeElements(elements: seq<Element>, newSequence: bool) returns (packets: seq<seq<byte>>)
      requires buf.Length == MTU + 128
      requires elements != [] && Cursor(elements, 0, 0) && NonEmpty(Remaining(elements, 0, 0))
      modifies this`sn, buf
      ensures var ps := Cut(Remaining(elements, 0, 0), false, newSequence);
              packets == Wires(ps, old(sn), ts) && sn == Advance(old(sn), |ps|)
    {
      hide Fill, Cut, Remaining, Wire, Wires, Flatten, Cursor, Advance;
      var index: nat, offset: nat, z, first := 0, 0, false, true;
      packets := [];
      WiresNone(sn, ts);
      ghost var all, done: seq<Packet> := Cut(Remaining(elements, 0, 0), false, newSequence), [];
      while index < |elements|
        invariant Cursor(elements, index, offset) && NonEmpty(Remaining(elements, index, offset))
        invariant all == done + Cut(Remaining(elements, index, offset), z, first && newSequence)
        invariant packets == Wires(done, old(sn), ts) && sn == Advance(old(sn), |done|)
        decreases |Flatten(Remaining(elements, index, offset))|
      {
        ghost var rem := Remaining(elements, index, offset);
        CursorRemaining(elements, index, offset);
        FillFits(rem, 0);
        FillKeepsBytes(rem, 0);
        ghost var p;
        var wire, y;
        index, offset, y, wire, p := EmitNext(elements, index, offset, z, first && newSequence);
        CutTurn(rem, z, first && newSequence, done, p);
        WiresAppend(done, p, old(sn), ts);
        packets := packets + [wire];
        done := done + [p];
        z := y;
        first := false;
      }
      CursorEnd(elements, index, offset);
      assert done + [] == done;
    }
  }

  lemma WiresNone(sn: u16, ts: u32)
    ensures Wires([], sn, ts) == [] && Advance(sn, 0) == sn
  {
  }

  lemma WiresAppend(ps: seq<Packet>, p: Packet, sn: u16, ts: u32)
    ensures Wires(ps + [p], sn, ts) == Wires(ps, sn, ts) + [Wire(p, Advance(sn, |ps|), ts)]
    ensures Advance(sn, |ps| + 1) == NextSeq(Advance(sn, |ps|))
  {
    hide Wire;
    WiresSplit(ps, [p], sn, ts);
    AdvanceNext(sn, |ps|);
  }

  lemma CursorRemaining(elements: seq<Element>, index: nat, offset: nat)
    requires Cursor(elements, index, offset) && index < |elements|
    ensures Remaining(elements, index, offset) != []
  {
  }

  lemma CursorEnd(elements: seq<Element>, index: nat, offset: nat)
    requires Cursor(elements, index, offset) && index >= |elements|
    ensures index == |elements| && Remaining(elements, index, offset) == []
    ensures forall z, n :: Cut(Remaining(elements, index, offset), z, n) == []
  {
  }

  lemma CutTurn(rem: seq<seq<byte>>, z: bool, n: bool, done: seq<Packet>, p: Packet)
    requires NonEmpty(rem) && rem != [] && NonEmpty(Fill(rem, 0).rest)
    requires var f := Fill(rem, 0); p == Packet(z, f.y, n, f.rest == [], f.chunks)
    ensures var f := Fill(rem, 0); done + Cut(rem, z, n) == (done + [p]) + Cut(f.rest, f.y, false)
  {
    CutNext(rem, z, n, p);
    hide Cut, Fill, NonEmpty;
    var f := Fill(rem, 0);
    var more := Cut(f.rest, f.y, false);
    assert done + ([p] + more) == (done + [p]) + more;
  }

  lemma CutNext(rem: seq<seq<byte>>, z: bool, n: bool, p: Packet)
    requires NonEmpty(rem) && rem != [] && NonEmpty(Fill(rem, 0).rest)
    requires var f := Fill(rem, 0); p == Packet(z, f.y, n, f.rest == [], f.chunks)
    ensures var f := Fill(rem, 0); Cut(rem, z, n) == [p] + Cut(f.rest, f.y, false)
  {
    hide Fill, NonEmpty;
  }
}
