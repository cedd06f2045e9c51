/**
 A whole stream of temporal units through packetizer and depacketizer: what every packet does to a
 receiver that is in step with the sender, and to one that has lost packets.
 */
module Av1Stream {
  import opened Bytes
  import opened Av1Obu
  import opened Av1Packetizer
  import opened Av1Depacketizer
  import opened Av1Reassembly

  /** Where a unit stands before one of its packets: the bytes still to go and the unit they rebuild. */
  datatype Slot = Slot(unit: nat, packet: Packet, rem: seq<seq<byte>>, norm: seq<byte>)

  function Rest(s: Slot): seq<seq<byte>> { Fill(s.rem, 0).rest }

  /** The first packet of a unit. */
  ghost predicate Opens(s: Slot) {
    AllProper(s.rem) && s.norm == Normalised(s.rem) && !s.packet.z
  }

  ghost predicate WellCut(s: Slot) {
    && NonEmpty(s.rem) && s.rem != []
    && (var f := Fill(s.rem, 0);
        s.packet == Packet(s.packet.z, f.y, s.packet.n, f.rest == [], f.chunks))
    && (s.packet.n ==> Opens(s))
  }

  ghost predicate Follows(a: Slot, b: Slot) {
    if Rest(a) == [] then Opens(b) && b.unit > a.unit
    else b.rem == Rest(a) && b.unit == a.unit && b.norm == a.norm && b.packet.z == a.packet.y && !b.packet.n
  }

  ghost predicate Linked(slots: seq<Slot>) {
    && (forall i :: 0 <= i < |slots| ==> WellCut(slots[i]))
    && forall i :: 0 < i < |slots| ==> Follows(slots[i - 1], slots[i])
  }

  /** The receiver holds what was sent of the unit before packet `b`. */
  ghost predicate Ready(acc: Acc, b: Slot) {
    Rebuilds(acc, b.rem, b.norm) && acc.open == b.packet.z
  }

  /** The receiver holds what was sent of the unit up to and including packet `a`. */
  ghost predicate After(acc: Acc, a: Slot) {
    if Rest(a) == [] then acc == FreshAcc
    else Rebuilds(acc, Rest(a), a.norm) && acc.open == a.packet.y
  }

  lemma FreshReady(b: Slot)
    requires WellCut(b) && Opens(b)
    ensures Ready(FreshAcc, b)
  {
    assert Joined([], b.rem) == b.rem;
  }

  lemma AfterReady(acc: Acc, a: Slot, b: Slot)
    requires After(acc, a) && Follows(a, b) && WellCut(b)
    ensures Ready(acc, b)
  {
    if Rest(a) == [] { FreshReady(b); }
  }

  lemma Sent(s: Slot)
    requires WellCut(s)
    ensures Sendable(s.packet)
    ensures s.packet.marker <==> Rest(s) == []
  {
    FillFits(s.rem, 0);
    FillKeepsBytes(s.rem, 0);
    ChunksFit(s.packet.chunks);
  }

  lemma {:induction false} ChunksFit(chunks: seq<seq<byte>>)
    ensures forall i :: 0 <= i < |chunks| ==> |chunks[i]| <= |Payload(chunks)|
  {
    if chunks != [] { ChunksFit(chunks[1..]); }
  }

  /** The last packet of a unit leaves the whole unit, which therefore fits. */
  lemma CompletesWith(acc: Acc, s: Slot)
    requires WellCut(s) && Rest(s) == [] && Rebuilds(acc, Rest(s), s.norm) && acc.open == s.packet.y
    ensures acc.tu == s.norm && !acc.open && acc.obu == []
  {
    assert Joined(acc.obu, []) == [];
    assert acc.tu + [] == acc.tu;
  }

  /** The elements of a packet, taken by a receiver that is in step. */
  lemma TakeInStep(s: State, b: Slot)
    requires WellCut(b) && Ready(s.acc, b) && |b.norm| > |DELIMITER| && !s.dropping
    ensures var o := TakePieces(s, b.packet);
            && o.state.nextSeq == s.nextSeq && o.state.haveSeq == s.haveSeq && o.state.started == s.started
            && (!o.state.dropping ==> After(o.state.acc, b))
            && (|b.norm| <= CAPACITY ==> !o.state.dropping)
            && (b.packet.marker && !o.state.dropping ==> |b.norm| <= CAPACITY)
            && o.units == (if b.packet.marker && !o.state.dropping then [b.norm] else [])
  {
    FillTaken(s.acc, b.rem, 0, b.norm);
    Sent(b);
    var t := TakeChunks(s.acc.(open := false), b.packet.chunks, b.packet.y);
    TakeChunksFits(s.acc.(open := false), b.packet.chunks, b.packet.y);
    hide Fill, TakeChunks, Rebuilds, Sendable;
    if t.Taken? && b.packet.marker {
      CompletesWith(t.acc, b);
    }
  }

  /** The receiver takes part in packet `b`: it is in step, or `b` lets it join. */
  predicate Joins(s: State, b: Slot) { !s.dropping || b.packet.n }

  /** What one packet of the stream does to a receiver that is in step or discarding. */
  ghost predicate TakesSlot(s: State, b: Slot, o: Outcome) {
    && o.state.nextSeq == s.nextSeq && o.state.haveSeq == s.haveSeq && o.state.started == s.started
    && (o.state.dropping || After(o.state.acc, b))
    && (!Joins(s, b) ==> o.state.dropping)
    && (Joins(s, b) && |b.norm| <= CAPACITY ==> !o.state.dropping)
    && (b.packet.marker && !o.state.dropping ==> |b.norm| <= CAPACITY)
    && o.units == (if b.packet.marker && !o.state.dropping then [b.norm] else [])
  }

  lemma TakeSlot(s: State, b: Slot)
    requires WellCut(b) && |b.norm| > |DELIMITER| && (s.dropping || Ready(s.acc, b))
    ensures TakesSlot(s, b, TakePacket(s, b.packet))
  {
    hide TakePieces, Ready, After;
    if Joins(s, b) {
      var s1 := if s.dropping then s.(dropping := false, acc := FreshAcc) else s;
      if s.dropping { FreshReady(b); }
      TakeInStep(s1, b);
      ReadyOpen(s1.acc, b);
    }
  }

  lemma ReadyOpen(acc: Acc, b: Slot)
    requires Ready(acc, b)
    ensures acc.open == b.packet.z
  {
  }

  // ---- The sender's whole stream ----

  /** Temporal units of any size a machine can hold. */
  type Unit = u: seq<byte> | |u| < 0x100_0000_0000_0000

  /** The packets of one unit with the bytes still to go before each. */
  function UnitSlots(unit: nat, rem: seq<seq<byte>>, z: bool, n: bool, norm: seq<byte>): seq<Slot>
    requires NonEmpty(rem)
    decreases |Flatten(rem)|, |rem|
  {
    if rem == [] then []
    else
      FillFits(rem, 0);
      FillKeepsBytes(rem, 0);
      var f := Fill(rem, 0);
      [Slot(unit, Packet(z, f.y, n, f.rest == [], f.chunks), rem, norm)] + UnitSlots(unit, f.rest, f.y, false, norm)
  }

  function SlotPackets(slots: seq<Slot>): (ps: seq<Packet>)
    ensures |ps| == |slots| && forall i :: 0 <= i < |ps| ==> ps[i] == slots[i].packet
  {
    if slots == [] then [] else [slots[0].packet] + SlotPackets(slots[1..])
  }

  /** Slots of one unit: linked among themselves, all of the same unit, the last one closing it. */
  ghost predicate OneUnit(slots: seq<Slot>, unit: nat, norm: seq<byte>) {
    && Linked(slots) && slots != [] && Rest(slots[|slots| - 1]) == []
    && forall i :: 0 <= i < |slots| ==> slots[i].unit == unit && slots[i].norm == norm
  }

  lemma {:induction false} UnitSlotsShape(unit: nat, rem: seq<seq<byte>>, z: bool, n: bool, norm: seq<byte>)
    requires NonEmpty(rem) && rem != []
    requires n ==> AllProper(rem) && norm == Normalised(rem) && !z
    ensures var slots := UnitSlots(unit, rem, z, n, norm);
            && OneUnit(slots, unit, norm) && SlotPackets(slots) == Cut(rem, z, n)
            && slots[0].rem == rem && slots[0].packet.z == z && slots[0].packet.n == n
    decreases |Flatten(rem)|
  {
    FillFits(rem, 0);
    FillKeepsBytes(rem, 0);
    var f := Fill(rem, 0);
    var head := Slot(unit, Packet(z, f.y, n, f.rest == [], f.chunks), rem, norm);
    var tail := UnitSlots(unit, f.rest, f.y, false, norm);
    var slots := UnitSlots(unit, rem, z, n, norm);
    assert slots == [head] + tail;
    assert WellCut(head) && Rest(head) == f.rest;
    assert Cut(rem, z, n) == [head.packet] + Cut(f.rest, f.y, false);
    if f.rest != [] {
      UnitSlotsShape(unit, f.rest, f.y, false, norm);
      assert Follows(head, tail[0]);
      hide Fill, WellCut, Follows, Opens, UnitSlots, Cut, Flatten, Payload, NonEmpty;
      OneUnitCons(head, tail, unit, norm);
    } else {
      hide Fill, WellCut, Follows, Opens, Cut, Flatten, Payload;
      assert slots == [head];
    }
  }

  lemma OneUnitCons(head: Slot, tail: seq<Slot>, unit: nat, norm: seq<byte>)
    requires OneUnit(tail, unit, norm) && WellCut(head) && Follows(head, tail[0])
    requires head.unit == unit && head.norm == norm
    ensures OneUnit([head] + tail, unit, norm)
    ensures SlotPackets([head] + tail) == [head.packet] + SlotPackets(tail)
  {
    LinkedCons(head, tail);
    hide Linked, WellCut, Follows;
    var all := [head] + tail;
    assert all[1..] == tail;
    assert forall i :: 0 < i < |all| ==> all[i] == tail[i - 1];
  }

  lemma LinkedCons(head: Slot, tail: seq<Slot>)
    requires WellCut(head) && Linked(tail) && (tail != [] ==> Follows(head, tail[0]))
    ensures Linked([head] + tail)
  {
    hide WellCut, Follows;
    var all := [head] + tail;
    assert forall i :: 0 < i < |all| ==> all[i] == tail[i - 1];
  }

  lemma LinkedAppend(a: seq<Slot>, b: seq<Slot>)
    requires Linked(a) && Linked(b)
    requires a != [] && b != [] ==> Follows(a[|a| - 1], b[0])
    ensures Linked(a + b)
  {
    hide WellCut, Follows;
    var all := a + b;
    assert forall i :: |a| <= i < |all| ==> all[i] == b[i - |a|];
  }

  /** The slots of unit `k`; rejected and empty units have none. */
  function SlotsOf(units: seq<Unit>, k: nat): seq<Slot>
    requires k < |units|
  {
    if Accepted(units[k]) then
      AcceptedProper(units[k]);
      var es := ParseUnit(units[k]).elements;
      UnitSlots(k, Obus(es), false, ParseUnit(units[k]).newSequence, Normalised(Obus(es)))
    else []
  }

  /** All packets of the stream from unit `k` on, in sending order. */
  function Stream(units: seq<Unit>, k: nat): seq<Slot>
    decreases |units| - k
  {
    if k >= |units| then [] else SlotsOf(units, k) + Stream(units, k + 1)
  }

  /** Each slot belongs to the unit it says, and rebuilds that unit's normal form. */
  ghost predicate Belongs(s: Slot, units: seq<Unit>) {
    s.unit < |units| && Accepted(units[s.unit]) && NormalForm(units[s.unit]) == Some(s.norm)
  }

  lemma SlotsOfShape(units: seq<Unit>, k: nat)
    requires k < |units| && Accepted(units[k])
    ensures var slots := SlotsOf(units, k);
            && OneUnit(slots, k, NormalForm(units[k]).value) && NormalForm(units[k]).Some?
            && Opens(slots[0]) && SlotPackets(slots) == UnitPackets(units[k])
            && |NormalForm(units[k]).value| > |DELIMITER|
  {
    AcceptedProper(units[k]);
    var es := ParseUnit(units[k]).elements;
    var norm := Normalised(Obus(es));
    UnitSlotsShape(k, Obus(es), false, ParseUnit(units[k]).newSequence, norm);
    RestoreCons(Obus(es)[0], Obus(es)[1..]);
    assert Obus(es) == [Obus(es)[0]] + Obus(es)[1..];
  }

  ghost predicate Grounded(slots: seq<Slot>, units: seq<Unit>, k: nat) {
    forall i :: 0 <= i < |slots| ==>
      Belongs(slots[i], units) && slots[i].unit >= k && |slots[i].norm| > |DELIMITER|
  }

  lemma SlotsGrounded(units: seq<Unit>, k: nat)
    requires k < |units| && Accepted(units[k])
    ensures var a := SlotsOf(units, k);
            && a != [] && Linked(a) && Grounded(a, units, k) && Opens(a[0])
            && Rest(a[|a| - 1]) == [] && a[|a| - 1].unit == k
  {
    SlotsOfShape(units, k);
    hide UnitSlots, Fill, Opens, WellCut, Accepted, NormalForm, Linked;
  }

  lemma StreamAppend(a: seq<Slot>, b: seq<Slot>, units: seq<Unit>, k: nat)
    requires a != [] && Linked(a) && Grounded(a, units, k) && Rest(a[|a| - 1]) == [] && a[|a| - 1].unit == k
    requires Linked(b) && Grounded(b, units, k + 1) && (b != [] ==> Opens(b[0]))
    ensures Linked(a + b) && Grounded(a + b, units, k)
  {
    LinkedAppend(a, b);
    hide Linked, Opens, Belongs;
  }

  /** The stream is linked from packet to packet and from unit to unit. */
  lemma {:induction false} StreamLinked(units: seq<Unit>, k: nat)
    ensures Linked(Stream(units, k)) && Grounded(Stream(units, k), units, k)
    ensures Stream(units, k) != [] ==> Opens(Stream(units, k)[0])
    decreases |units| - k
  {
    hide Linked, Grounded, Opens, SlotsOf, Accepted, Rest;
    if k < |units| {
      StreamLinked(units, k + 1);
      var a, b := SlotsOf(units, k), Stream(units, k + 1);
      if Accepted(units[k]) {
        SlotsGrounded(units, k);
        StreamAppend(a, b, units, k);
      } else {
        NoSlots(units, k);
        assert a + b == b;
        GroundedLater(b, units, k);
      }
    } else {
      NothingLinked(units, k);
    }
  }

  lemma NoSlots(units: seq<Unit>, k: nat)
    requires k < |units| && !Accepted(units[k])
    ensures SlotsOf(units, k) == []
  {
  }

  lemma NothingLinked(units: seq<Unit>, k: nat)
    ensures Linked([]) && Grounded([], units, k)
  {
  }

  lemma GroundedLater(b: seq<Slot>, units: seq<Unit>, k: nat)
    requires Grounded(b, units, k + 1)
    ensures Grounded(b, units, k)
  {
    hide Accepted;
  }
}
