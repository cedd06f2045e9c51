/**
 Packetizer, network, reorder window and depacketizer as one system: what the receiver's callback
 gets for what the sender's encoder was given, over runs of any length.
 */
module Av1EndToEnd {
  import opened Bytes
  import opened Rtp
  import opened Av1Obu
  import opened Av1Packetizer
  import opened Av1Reorder
  import opened Av1Stream
  import D = Av1Depacketizer
  import R = Av1Reassembly

  /** The depacketizer over packets released one after the other. */
  function DepayAll(s: D.State, pkts: seq<seq<byte>>): (o: D.Outcome)
    decreases |pkts|
  {
    if pkts == [] then D.Outcome(s, [], 0)
    else
      var o := D.Step(s, pkts[0]);
      var r := DepayAll(o.state, pkts[1..]);
      r.(units := o.units + r.units)
  }

  lemma {:induction false} DepayAppend(s: D.State, a: seq<seq<byte>>, b: seq<seq<byte>>)
    ensures var m := DepayAll(s, a);
            var r := DepayAll(m.state, b);
            DepayAll(s, a + b).state == r.state && DepayAll(s, a + b).units == m.units + r.units
    decreases |a|
  {
    hide D.Step;
    if a == [] {
      assert a + b == b;
    } else {
      var o := D.Step(s, a[0]);
      DepayAppend(o.state, a[1..], b);
      assert (a + b)[1..] == a[1..] + b;
    }
  }

  /** The receiving side: window and depacketizer. */
  datatype Decoder = Decoder(window: Window, depay: D.State)

  const FreshDecoder := Decoder(EmptyWindow, D.Initial)

  datatype Decoded = Decoded(decoder: Decoder, units: seq<seq<byte>>, ret: int)

  function DecodePacket(d: Decoder, pkt: seq<byte>): (r: Decoded)
    requires d.window.Valid()
    ensures r.decoder.window.Valid()
  {
    var w := Accept(d.window, pkt);
    var o := DepayAll(d.depay, w.released);
    Decoded(Decoder(w.window, o.state), o.units, w.ret)
  }

  /** Every unit handed to the callback over a run of datagrams. */
  function DecodeRun(pkts: seq<seq<byte>>): (r: Decoded)
    ensures r.decoder.window.Valid()
    decreases |pkts|
  {
    if pkts == [] then Decoded(FreshDecoder, [], 0)
    else
      var p := DecodeRun(pkts[..|pkts| - 1]);
      var r := DecodePacket(p.decoder, pkts[|pkts| - 1]);
      r.(units := p.units + r.units)
  }

  /** A run is the window's releases fed to the depacketizer. */
  lemma {:induction false} DecodeRunIsWindowThenDepay(pkts: seq<seq<byte>>)
    ensures var w := WindowRun(pkts);
            var o := DepayAll(D.Initial, w.released);
            DecodeRun(pkts).decoder == Decoder(w.window, o.state) && DecodeRun(pkts).units == o.units
    decreases |pkts|
  {
    hide Accept, DepayAll;
    if pkts != [] {
      var n := |pkts| - 1;
      DecodeRunIsWindowThenDepay(pkts[..n]);
      var w := WindowRun(pkts[..n]);
      DepayAppend(D.Initial, w.released, Accept(w.window, pkts[n]).released);
    } else {
      DepayNone(D.Initial);
    }
  }

  lemma DepayNone(s: D.State)
    ensures DepayAll(s, []) == D.Outcome(s, [], 0)
  {
  }

  // ---- The sender ----

  /** Every packet handed to the network for `units[k..]`, counters running on from `sn` and `ts`. */
  function SendAll(units: seq<Unit>, k: nat, sn: u16, ts: u32): seq<seq<byte>>
    decreases |units| - k
  {
    if k >= |units| then []
    else
      var e := EncodeUnit(units[k], sn, ts);
      e.packets + SendAll(units, k + 1, e.sn, e.ts)
  }

  ghost predicate IsWire(pkt: seq<byte>, b: Slot, sn: u16) {
    exists ts: u32 :: pkt == Wire(b.packet, sn, ts)
  }

  /** `ws` are the packets of `slots` on the wire, numbered from `sn` on. */
  ghost predicate AllWires(ws: seq<seq<byte>>, slots: seq<Slot>, sn: u16) {
    |ws| == |slots| && forall i :: 0 <= i < |ws| ==> IsWire(ws[i], slots[i], Advance(sn, i))
  }

  lemma AllWiresAppend(ws: seq<seq<byte>>, vs: seq<seq<byte>>, a: seq<Slot>, b: seq<Slot>, sn: u16)
    requires AllWires(ws, a, sn) && AllWires(vs, b, Advance(sn, |a|))
    ensures AllWires(ws + vs, a + b, sn)
  {
    hide IsWire;
    forall i | |a| <= i < |a + b|
      ensures IsWire((ws + vs)[i], (a + b)[i], Advance(sn, i))
    {
      AdvanceAdd(sn, |a|, i - |a|);
      assert IsWire(vs[i - |a|], b[i - |a|], Advance(Advance(sn, |a|), i - |a|));
    }
  }

  lemma AdvanceAdd(sn: u16, m: nat, n: nat)
    ensures Advance(Advance(sn, m), n) == Advance(sn, m + n)
  {
  }

  lemma UnitIsSlots(units: seq<Unit>, k: nat, sn: u16, ts: u32)
    requires k < |units|
    ensures var e, a := EncodeUnit(units[k], sn, ts), SlotsOf(units, k);
            AllWires(e.packets, a, sn) && e.sn == Advance(sn, |a|)
  {
    var e, a := EncodeUnit(units[k], sn, ts), SlotsOf(units, k);
    var ps := UnitPackets(units[k]);
    if Accepted(units[k]) { SlotsOfShape(units, k); }
    hide Wire, UnitPackets, SlotsOf, Accepted;
    forall i | 0 <= i < |a|
      ensures IsWire(e.packets[i], a[i], Advance(sn, i))
    {
      WireAt(ps, sn, ts, i);
      assert SlotPackets(a)[i] == a[i].packet;
      assert e.packets[i] == Wire(a[i].packet, Advance(sn, i), ts);
    }
  }

  /** Sequence numbers run on by one from packet to packet over the whole stream. */
  lemma {:induction false} SendAllIsStream(units: seq<Unit>, k: nat, sn: u16, ts: u32)
    ensures AllWires(SendAll(units, k, sn, ts), Stream(units, k), sn)
    decreases |units| - k
  {
    hide EncodeUnit, SlotsOf;
    if k < |units| {
      var e := EncodeUnit(units[k], sn, ts);
      SendAllIsStream(units, k + 1, e.sn, e.ts);
      UnitIsSlots(units, k, sn, ts);
      hide AllWires, Advance;
      AllWiresAppend(e.packets, SendAll(units, k + 1, e.sn, e.ts), SlotsOf(units, k), Stream(units, k + 1), sn);
    }
  }

  // ---- The receiver, against packets of the stream ----

  /** Sequence number of packet `k`. */
  function Number(sn0: u16, k: int): u16 { (sn0 + k) % 0x1_0000 }

  /** The receiver after packet `last` of the stream (-1: before any). */
  ghost predicate InStep(s: D.State, slots: seq<Slot>, sn0: u16, last: int) {
    && -1 <= last < |slots|
    && if last == -1 then s == D.Initial
       else && s.started && s.haveSeq && s.nextSeq == Number(sn0, last + 1)
            && (s.dropping || After(s.acc, slots[last]))
  }

  ghost predicate Sound(slots: seq<Slot>) {
    Linked(slots) && forall i :: 0 <= i < |slots| ==> |slots[i].norm| > |DELIMITER|
  }

  /** The gap test of the depacketizer is exact as long as fewer than 2^16 packets are skipped. */
  lemma TrackTells(s: D.State, slots: seq<Slot>, sn0: u16, last: int, k: int)
    requires Sound(slots) && InStep(s, slots, sn0, last) && last < k < |slots|
    requires last >= 0 ==> k - last < 0x1_0000
    ensures var s1 := D.Track(D.Start(s), Number(sn0, k));
            && s1.started && s1.haveSeq && s1.nextSeq == Number(sn0, k + 1)
            && (s1.dropping || Ready(s1.acc, slots[k]))
            && s1.dropping == (last == -1 || k > last + 1 || s.dropping)
  {
    if last >= 0 && k == last + 1 && !s.dropping {
      AfterReady(s.acc, slots[last], slots[k]);
    }
    NumberNext(sn0, k);
    hide After, Ready, WellCut, Follows, Number, Rtp.NextSeq;
    if last >= 0 { NumbersDiffer(sn0, last + 1, k); }
  }

  lemma NumberNext(sn0: u16, k: int)
    ensures Rtp.NextSeq(Number(sn0, k)) == Number(sn0, k + 1)
  {
  }

  lemma NumbersDiffer(sn0: u16, a: int, b: int)
    requires 0 <= b - a < 0x1_0000
    ensures Number(sn0, a) == Number(sn0, b) <==> a == b
  {
  }

  /** One packet of the stream arrives at the depacketizer, later than all before it. */
  lemma ReceivePacket(s: D.State, slots: seq<Slot>, sn0: u16, last: int, k: int, pkt: seq<byte>)
    requires Sound(slots) && InStep(s, slots, sn0, last) && last < k < |slots|
    requires last >= 0 ==> k - last < 0x1_0000
    requires IsWire(pkt, slots[k], Number(sn0, k))
    ensures var o := D.Step(s, pkt);
            && InStep(o.state, slots, sn0, k)
            && (o.units == [] || (slots[k].packet.marker && o.units == [slots[k].norm]))
  {
    var b := slots[k];
    var ts: u32 :| pkt == Wire(b.packet, Number(sn0, k), ts);
    TrackTells(s, slots, sn0, last, k);
    Sent(b);
    R.StepOnWire(s, b.packet, Number(sn0, k), ts);
    hide D.Step, D.Track, D.Start, R.TakePacket, After, Ready, WellCut, Follows, Wire;
    TakeSlot(D.Track(D.Start(s), Number(sn0, k)), b);
  }

  /** `out` lists the units of strictly later and later closing packets, all after packet `last`. */
  ghost predicate Delivered(slots: seq<Slot>, last: int, out: seq<seq<byte>>)
    decreases |out|
  {
    out == [] ||
    exists k: nat :: last < k < |slots| && Closes(slots[k], out[0]) && Delivered(slots, k, out[1..])
  }

  ghost predicate Closes(s: Slot, norm: seq<byte>) { s.packet.marker && s.norm == norm }

  lemma DeliveredLater(slots: seq<Slot>, last: int, k: int, out: seq<seq<byte>>)
    requires last <= k && Delivered(slots, k, out)
    ensures Delivered(slots, last, out)
  {
    hide Closes;
  }

  /** Releases that are packets of the stream, each at its own number. */
  ghost predicate FromStream(rs: seq<Arrival>, slots: seq<Slot>, sn0: u16) {
    forall i :: 0 <= i < |rs| ==>
      0 <= rs[i].u - sn0 < |slots| && IsWire(rs[i].pkt, slots[rs[i].u - sn0], Number(sn0, rs[i].u - sn0))
  }

  /** Whatever is lost in between, the callback only ever gets whole units, in order. */
  lemma {:induction false} ReceiveAll(s: D.State, slots: seq<Slot>, sn0: u16, last: int, prev: int, rs: seq<Arrival>)
    requires Sound(slots) && InStep(s, slots, sn0, last) && (last >= 0 ==> prev == sn0 + last)
    requires Chain(prev, rs) && FromStream(rs, slots, sn0)
    ensures Delivered(slots, last, DepayAll(s, Packets(rs)).units)
    decreases |rs|
  {
    if rs != [] {
      var k := rs[0].u - sn0;
      var first, rest := rs[0], rs[1..];
      assert IsWire(first.pkt, slots[k], Number(sn0, k));
      assert Chain(first.u, rest) && FromStream(rest, slots, sn0);
      assert Packets(rs) == [first.pkt] + Packets(rest);
      hide Sound, IsWire, D.Step, FromStream, Packets, Delivered, InStep;
      ReceivePacket(s, slots, sn0, last, k, first.pkt);
      var o := D.Step(s, first.pkt);
      ReceiveAll(o.state, slots, sn0, k, first.u, rest);
      DeliverOne(slots, last, k, o.units, DepayAll(o.state, Packets(rest)).units);
    }
  }

  lemma DeliverOne(slots: seq<Slot>, last: int, k: int, now: seq<seq<byte>>, later: seq<seq<byte>>)
    requires -1 <= last < k < |slots| && Delivered(slots, k, later)
    requires now == [] || (slots[k].packet.marker && now == [slots[k].norm])
    ensures Delivered(slots, last, now + later)
  {
    if now == [] {
      DeliveredLater(slots, last, k, later);
      assert now + later == later;
    } else {
      var out := now + later;
      assert out[1..] == later && Closes(slots[k], out[0]);
    }
  }

  lemma {:induction false} UnitsRise(slots: seq<Slot>, i: nat, j: nat)
    requires Linked(slots) && i <= j < |slots|
    ensures slots[i].unit <= slots[j].unit
    ensures i < j && slots[i].packet.marker ==> slots[i].unit < slots[j].unit
    decreases j
  {
    if i < j {
      UnitsRise(slots, i, j - 1);
      assert Follows(slots[j - 1], slots[j]);
      assert WellCut(slots[j - 1]);
    }
  }

  /** `out` is the normal forms of the sent units numbered `us`, in sending order, none twice. */
  ghost predicate InSendOrder(units: seq<Unit>, out: seq<seq<byte>>, us: seq<nat>) {
    && |us| == |out|
    && (forall i, j :: 0 <= i < j < |us| ==> us[i] < us[j])
    && forall i :: 0 <= i < |us| ==> us[i] < |units| && NormalForm(units[us[i]]) == Some(out[i])
  }

  /** The units delivered are sent units, in send order, all after unit `prev`. */
  ghost predicate InOrderAfter(units: seq<Unit>, out: seq<seq<byte>>, prev: int) {
    exists us :: InSendOrder(units, out, us) && (us != [] ==> prev < us[0])
  }

  lemma {:induction false} DeliveredInOrder(units: seq<Unit>, slots: seq<Slot>, last: int, out: seq<seq<byte>>)
    requires Linked(slots) && Grounded(slots, units, 0) && Delivered(slots, last, out)
    requires -1 <= last < |slots| && (last >= 0 ==> slots[last].packet.marker)
    ensures InOrderAfter(units, out, if last >= 0 then slots[last].unit else -1)
    decreases |out|
  {
    if out == [] {
      assert InSendOrder(units, out, []);
    } else {
      var k: nat :| last < k < |slots| && Closes(slots[k], out[0]) && Delivered(slots, k, out[1..]);
      assert Belongs(slots[k], units) && slots[k].packet.marker;
      var u := slots[k].unit;
      assert u < |units| && NormalForm(units[u]) == Some(out[0]);
      hide Belongs, Linked, Grounded, NormalForm, Delivered, Closes;
      hide InSendOrder, InOrderAfter;
      if last >= 0 { UnitsRise(slots, last, k); }
      DeliveredInOrder(units, slots, k, out[1..]);
      ConsAfter(units, out, u, if last >= 0 then slots[last].unit else -1);
    }
  }

  lemma ConsAfter(units: seq<Unit>, out: seq<seq<byte>>, u: nat, prev: int)
    requires out != [] && InOrderAfter(units, out[1..], u) && prev < u < |units|
    requires NormalForm(units[u]) == Some(out[0])
    ensures InOrderAfter(units, out, prev)
  {
    hide InSendOrder, NormalForm;
    var rest :| InSendOrder(units, out[1..], rest) && (rest != [] ==> u < rest[0]);
    ConsInOrder(units, out, u, rest);
    assert ([u] + rest)[0] == u;
  }

  lemma ConsInOrder(units: seq<Unit>, out: seq<seq<byte>>, u: nat, rest: seq<nat>)
    requires out != [] && InSendOrder(units, out[1..], rest) && (rest != [] ==> u < rest[0])
    requires u < |units| && NormalForm(units[u]) == Some(out[0])
    ensures InSendOrder(units, out, [u] + rest)
  {
    hide NormalForm;
    var us := [u] + rest;
    assert forall i :: 0 < i < |us| ==> us[i] == rest[i - 1] && out[i] == out[1..][i - 1];
  }

  // ---- The network ----

  /** The packets the network hands over: `ks` picks from everything sent, with repeats, in any order. */
  function Network(sent: seq<seq<byte>>, sn0: u16, ks: seq<nat>): (net: seq<Arrival>)
    requires forall i :: 0 <= i < |ks| ==> ks[i] < |sent|
    ensures |net| == |ks| && forall i :: 0 <= i < |ks| ==> net[i] == Arrival(sn0 + ks[i], sent[ks[i]])
  {
    seq(|ks|, i requires 0 <= i < |ks| => Arrival(sn0 + ks[i], sent[ks[i]]))
  }

  lemma WireCarries(pkt: seq<byte>, b: Slot, sn0: u16, k: nat)
    requires WellCut(b) && IsWire(pkt, b, Number(sn0, k))
    ensures Carries(Arrival(sn0 + k, pkt))
  {
    var ts: u32 :| pkt == Wire(b.packet, Number(sn0, k), ts);
    FillFits(b.rem, 0);
    R.BoundsOnWire(b.packet, Number(sn0, k), ts);
    hide Wire, Fill, D.PayloadBounds;
  }

  /** Each arrival within half the 16-bit sequence space of what the window awaits at that moment. */
  ghost predicate WithinReach(arrivals: seq<Arrival>) {
    forall i :: 0 <= i < |arrivals| ==> Near(IdealRun(arrivals[..i]).ideal, arrivals[i].u)
  }

  ghost predicate FromNetwork(arrivals: seq<Arrival>, sent: seq<seq<byte>>, sn0: u16) {
    forall a :: a in arrivals ==> 0 <= a.u - sn0 < |sent| && a.pkt == sent[a.u - sn0]
  }

  lemma NetworkArrives(arrivals: seq<Arrival>, slots: seq<Slot>, sent: seq<seq<byte>>, sn0: u16)
    requires Linked(slots) && AllWires(sent, slots, sn0)
    requires FromNetwork(arrivals, sent, sn0) && WithinReach(arrivals)
    ensures Arrives(arrivals)
  {
    hide IdealRun, Near, WellCut, Carries, Follows;
    forall i | 0 <= i < |arrivals|
      ensures Carries(arrivals[i])
    {
      var a := arrivals[i];
      assert a in arrivals;
      var k := a.u - sn0;
      assert IsWire(sent[k], slots[k], Advance(sn0, k));
      WireCarries(a.pkt, slots[k], sn0, k);
    }
  }

  lemma GenuineFromStream(rs: seq<Arrival>, arrivals: seq<Arrival>, slots: seq<Slot>, sent: seq<seq<byte>>, sn0: u16)
    requires forall r :: r in rs ==> r in arrivals
    requires FromNetwork(arrivals, sent, sn0) && AllWires(sent, slots, sn0)
    ensures FromStream(rs, slots, sn0)
  {
    hide IsWire;
    forall i | 0 <= i < |rs|
      ensures 0 <= rs[i].u - sn0 < |slots| && IsWire(rs[i].pkt, slots[rs[i].u - sn0], Number(sn0, rs[i].u - sn0))
    {
      assert rs[i] in rs;
      var k := rs[i].u - sn0;
      assert IsWire(sent[k], slots[k], Advance(sn0, k));
    }
  }

  lemma NetworkIsSent(sent: seq<seq<byte>>, sn0: u16, ks: seq<nat>)
    requires forall i :: 0 <= i < |ks| ==> ks[i] < |sent|
    ensures FromNetwork(Network(sent, sn0, ks), sent, sn0)
  {
  }

  /**
   Safety against any network: whatever packets of the encoder arrive, lost, repeated or reordered,
   every unit handed to the callback is byte for byte the normal form of one sent temporal unit,
   in strictly increasing send order, never twice.
   */
  lemma DeliversOnlyWholeUnitsInOrder(units: seq<Unit>, sn0: u16, ts0: u32, ks: seq<nat>)
    requires forall i :: 0 <= i < |ks| ==> ks[i] < |SendAll(units, 0, sn0, ts0)|
    requires WithinReach(Network(SendAll(units, 0, sn0, ts0), sn0, ks))
    ensures var net := Network(SendAll(units, 0, sn0, ts0), sn0, ks);
            exists us :: InSendOrder(units, DecodeRun(Packets(net)).units, us)
  {
    var sent, slots := SendAll(units, 0, sn0, ts0), Stream(units, 0);
    var net := Network(sent, sn0, ks);
    SendAllIsStream(units, 0, sn0, ts0);
    StreamLinked(units, 0);
    assert Sound(slots);
    NetworkIsSent(sent, sn0, ks);
    hide WithinReach, FromNetwork, AllWires, Linked, Grounded, Network;
    NetworkArrives(net, slots, sent, sn0);
    RunDelivers(units, slots, sent, sn0, net);
  }

  lemma RunDelivers(units: seq<Unit>, slots: seq<Slot>, sent: seq<seq<byte>>, sn0: u16, net: seq<Arrival>)
    requires Sound(slots) && Grounded(slots, units, 0) && AllWires(sent, slots, sn0)
    requires FromNetwork(net, sent, sn0) && Arrives(net)
    ensures exists us :: InSendOrder(units, DecodeRun(Packets(net)).units, us)
  {
    hide IdealRun, Arrives, FromNetwork, AllWires, Grounded, Settled, FromStream, Linked, Refines, NothingLost;
    RunRefines(net);
    RunConserves(net);
    RunOrdered(net);
    var rs := IdealRun(net).released;
    GenuineFromStream(rs, net, slots, sent, sn0);
    if net == [] { IdealRunNone(); }
    var prev := if net == [] then 0 else net[0].u - 1;
    ReceiveAll(D.Initial, slots, sn0, -1, prev, rs);
    DecodeRunIsWindowThenDepay(Packets(net));
    DeliveredInOrder(units, slots, -1, DecodeRun(Packets(net)).units);
  }

  // ---- A network that keeps within the window ----

  /** The receiver expects number `sn` next, or has seen nothing yet. */
  predicate Awaiting(s: D.State, sn: u16) {
    s == D.Initial || (s.started && s.haveSeq && s.nextSeq == sn)
  }

  lemma TrackKeeps(s: D.State, sn: u16)
    requires Awaiting(s, sn)
    ensures var s1 := D.Track(D.Start(s), sn);
            && s1.acc == D.Start(s).acc && s1.dropping == D.Start(s).dropping
            && s1.started && s1.haveSeq && s1.nextSeq == Rtp.NextSeq(sn)
  {
  }

  /** What a whole unit does to a receiver in the state `dropping`. */
  ghost predicate Takes(o: D.Outcome, sn: u16, joins: bool, norm: seq<byte>) {
    && o.state.started && Awaiting(o.state, sn)
    && if joins && |norm| <= D.CAPACITY
       then o.units == [norm] && !o.state.dropping && o.state.acc == D.FreshAcc
       else o.units == [] && o.state.dropping
  }

  lemma DepayCons(s: D.State, pkt: seq<byte>, rest: seq<seq<byte>>)
    ensures var o := D.Step(s, pkt);
            var r := DepayAll(o.state, rest);
            DepayAll(s, [pkt] + rest).state == r.state && DepayAll(s, [pkt] + rest).units == o.units + r.units
  {
    hide D.Step;
    assert ([pkt] + rest)[1..] == rest;
  }

  /** What one packet of a unit, received in sequence, does. */
  ghost predicate TakesNext(s: D.State, b: Slot, sn: u16, o: D.Outcome) {
    && o.state.started && Awaiting(o.state, Rtp.NextSeq(sn))
    && (o.state.dropping || After(o.state.acc, b))
    && (!Joins(D.Start(s), b) ==> o.state.dropping)
    && (Joins(D.Start(s), b) && |b.norm| <= D.CAPACITY ==> !o.state.dropping)
    && (b.packet.marker && !o.state.dropping ==> |b.norm| <= D.CAPACITY)
    && o.units == (if b.packet.marker && !o.state.dropping then [b.norm] else [])
  }

  lemma ReceiveNext(s: D.State, b: Slot, sn: u16, ts: u32)
    requires WellCut(b) && |b.norm| > |DELIMITER| && Awaiting(s, sn)
    requires D.Start(s).dropping || Ready(D.Start(s).acc, b)
    ensures TakesNext(s, b, sn, D.Step(s, Wire(b.packet, sn, ts)))
  {
    Sent(b);
    TrackKeeps(s, sn);
    R.StepOnWire(s, b.packet, sn, ts);
    hide D.Step, D.Track, R.TakePacket, After, Ready, WellCut, Wire;
    TakeSlot(D.Track(D.Start(s), sn), b);
  }

  function Head(rem: seq<seq<byte>>, z: bool, n: bool, norm: seq<byte>): Slot {
    var f := Fill(rem, 0);
    Slot(0, Packet(z, f.y, n, f.rest == [], f.chunks), rem, norm)
  }

  lemma HeadOfCut(rem: seq<seq<byte>>, z: bool, n: bool, norm: seq<byte>, sn: u16, ts: u32)
    requires NonEmpty(rem) && rem != []
    requires n ==> AllProper(rem) && norm == Normalised(rem) && !z
    ensures var b := Head(rem, z, n, norm);
            && WellCut(b) && NonEmpty(Rest(b)) && |Flatten(Rest(b))| < |Flatten(rem)|
            && (b.packet.marker <==> Rest(b) == [])
            && var tail := Cut(Rest(b), b.packet.y, false);
            && |Cut(rem, z, n)| == 1 + |tail|
            && Wires(Cut(rem, z, n), sn, ts) == [Wire(b.packet, sn, ts)] + Wires(tail, Rtp.NextSeq(sn), ts)
            && Advance(Rtp.NextSeq(sn), |tail|) == Advance(sn, |Cut(rem, z, n)|)
  {
    FillFits(rem, 0);
    FillKeepsBytes(rem, 0);
    var b := Head(rem, z, n, norm);
    var tail := Cut(Rest(b), b.packet.y, false);
    assert Cut(rem, z, n) == [b.packet] + tail;
    AdvanceNext(sn, |tail|);
    hide Fill, Wire, Advance, NonEmpty, Flatten, Cut;
  }

  /** The last packet of a unit settles it. */
  lemma TakesLast(s: D.State, b: Slot, sn: u16, o: D.Outcome)
    requires TakesNext(s, b, sn, o) && b.packet.marker && Rest(b) == []
    ensures Takes(o, Rtp.NextSeq(sn), Joins(D.Start(s), b), b.norm)
  {
  }

  /** An earlier packet leaves it to the rest. */
  lemma TakesMore(s: D.State, b: Slot, sn: u16, o: D.Outcome, end: u16, r: D.Outcome)
    requires TakesNext(s, b, sn, o) && !b.packet.marker
    requires Takes(r, end, !o.state.dropping, b.norm)
    ensures Takes(r.(units := o.units + r.units), end, Joins(D.Start(s), b), b.norm)
  {
    assert [] + r.units == r.units;
  }

  lemma TakesNextReady(s: D.State, b: Slot, sn: u16, o: D.Outcome)
    requires TakesNext(s, b, sn, o) && Rest(b) != []
    ensures D.Start(o.state) == o.state && Awaiting(o.state, Rtp.NextSeq(sn))
    ensures o.state.dropping || (R.Rebuilds(o.state.acc, Rest(b), b.norm) && o.state.acc.open == b.packet.y)
  {
  }

  /** The packets of one unit, in sequence and complete. */
  lemma {:induction false} ReceiveCut(s: D.State, rem: seq<seq<byte>>, z: bool, n: bool, norm: seq<byte>, sn: u16, ts: u32)
    requires NonEmpty(rem) && rem != [] && |norm| > |DELIMITER| && Awaiting(s, sn)
    requires n ==> AllProper(rem) && norm == Normalised(rem) && !z
    requires D.Start(s).dropping || (R.Rebuilds(D.Start(s).acc, rem, norm) && D.Start(s).acc.open == z)
    ensures var ps := Cut(rem, z, n);
            Takes(DepayAll(s, Wires(ps, sn, ts)), Advance(sn, |ps|), !D.Start(s).dropping || n, norm)
    decreases |Flatten(rem)|
  {
    var b := Head(rem, z, n, norm);
    HeadOfCut(rem, z, n, norm, sn, ts);
    assert b.norm == norm && b.rem == rem && b.packet.z == z && b.packet.n == n;
    hide Rest, Fill, Cut, Flatten, Wire, Wires, Advance, D.Step, Awaiting, Takes, TakesNext, WellCut, Head, DepayAll, D.Start;
    var next, w, tail := Rtp.NextSeq(sn), Wire(b.packet, sn, ts), Cut(Rest(b), b.packet.y, false);
    DepayCons(s, w, Wires(tail, next, ts));
    ReceiveNext(s, b, sn, ts);
    var o := D.Step(s, w);
    if Rest(b) == [] {
      CutNone(b.packet.y, next, ts);
      DepayNone(o.state);
      AdvanceNone(sn);
      TakesLast(s, b, sn, o);
      TakesSame(o, DepayAll(s, Wires(Cut(rem, z, n), sn, ts)), next, Joins(D.Start(s), b), norm);
    } else {
      TakesNextReady(s, b, sn, o);
      ReceiveCut(o.state, Rest(b), b.packet.y, false, norm, next, ts);
      var r, end := DepayAll(o.state, Wires(tail, next, ts)), Advance(sn, |Cut(rem, z, n)|);
      TakesMore(s, b, sn, o, end, r);
      TakesSame(r.(units := o.units + r.units), DepayAll(s, Wires(Cut(rem, z, n), sn, ts)), end, Joins(D.Start(s), b), norm);
    }
  }

  lemma TakesSame(o: D.Outcome, p: D.Outcome, sn: u16, joins: bool, norm: seq<byte>)
    requires Takes(o, sn, joins, norm) && p.state == o.state && p.units == o.units
    ensures Takes(p, sn, joins, norm)
  {
  }

  lemma CutNone(y: bool, sn: u16, ts: u32)
    ensures Cut([], y, false) == [] && Wires([], sn, ts) == []
  {
  }

  lemma AdvanceNone(sn: u16)
    ensures Advance(sn, 1) == Rtp.NextSeq(sn)
  {
  }

  /**
   What a lossless stream delivers: every accepted unit that fits the buffer, from the first one with a
   sequence header on; a unit that does not fit silences the stream up to the next sequence header.
   */
  function Expected(units: seq<Unit>, k: nat, dropping: bool): seq<seq<byte>>
    decreases |units| - k
  {
    if k >= |units| then []
    else if !Accepted(units[k]) then Expected(units, k + 1, dropping)
    else
      var norm := NormalOf(units[k]);
      if (!dropping || ParseUnit(units[k]).newSequence) && |norm| <= D.CAPACITY
      then [norm] + Expected(units, k + 1, false)
      else Expected(units, k + 1, true)
  }

  function NormalOf(unit: Unit): seq<byte>
    requires Accepted(unit)
  {
    NormalForm(unit).value
  }

  /** One whole unit through encoder and depacketizer. */
  lemma ReceiveUnit(s: D.State, unit: Unit, sn: u16, ts: u32)
    requires Accepted(unit) && Awaiting(s, sn)
    requires D.Start(s).dropping || D.Start(s).acc == D.FreshAcc
    ensures var e := EncodeUnit(unit, sn, ts);
            Takes(DepayAll(s, e.packets), e.sn, !D.Start(s).dropping || ParseUnit(unit).newSequence, NormalOf(unit))
  {
    AcceptedProper(unit);
    var es := ParseUnit(unit).elements;
    var rem := Obus(es);
    var norm := Normalised(rem);
    R.RestoreCons(rem[0], rem[1..]);
    assert rem == [rem[0]] + rem[1..];
    assert R.Joined([], rem) == rem;
    hide Restored, D.Step, DepayAll, Wires, Cut;
    ReceiveCut(s, rem, false, ParseUnit(unit).newSequence, norm, sn, ts);
  }

  /** The whole stream, in sequence and complete. */
  lemma {:induction false} ReceiveStream(s: D.State, units: seq<Unit>, k: nat, sn: u16, ts: u32)
    requires Awaiting(s, sn) && (D.Start(s).dropping || D.Start(s).acc == D.FreshAcc)
    ensures DepayAll(s, SendAll(units, k, sn, ts)).units == Expected(units, k, D.Start(s).dropping)
    decreases |units| - k
  {
    hide EncodeUnit, DepayAll, Accepted, ParseUnit, NormalOf, D.Step;
    if k >= |units| {
      DepayNone(s);
    } else {
      var e := EncodeUnit(units[k], sn, ts);
      var rest := SendAll(units, k + 1, e.sn, e.ts);
      DepayAppend(s, e.packets, rest);
      if Accepted(units[k]) {
        ReceiveUnit(s, units[k], sn, ts);
        var o := DepayAll(s, e.packets);
        assert D.Start(o.state) == o.state;
        ReceiveStream(o.state, units, k + 1, e.sn, e.ts);
      } else {
        NothingSent(units[k], sn, ts);
        DepayNone(s);
        ReceiveStream(s, units, k + 1, e.sn, e.ts);
        assert [] + DepayAll(s, rest).units == DepayAll(s, rest).units;
      }
    }
  }

  lemma NothingSent(unit: Unit, sn: u16, ts: u32)
    requires !Accepted(unit)
    ensures EncodeUnit(unit, sn, ts).packets == [] && EncodeUnit(unit, sn, ts).sn == sn
  {
  }

  /** The first packet of the stream arrives first, and none arrives before one sent four or more earlier. */
  ghost predicate InOrderEnough(net: seq<Arrival>, sn0: u16) {
    Timely(net) && (net != [] ==> net[0].u == sn0)
  }

  /** Every packet of the stream arrives as well, the first one first, and none after one sent four or more later. */
  ghost predicate KeptWithinWindow(net: seq<Arrival>, n: nat, sn0: u16) {
    && InOrderEnough(net, sn0)
    && forall v: nat :: sn0 <= v < sn0 + n ==> Arrived(net, v)
  }

  lemma ArrivedIsSent(net: seq<Arrival>, sent: seq<seq<byte>>, sn0: u16, v: nat)
    requires FromNetwork(net, sent, sn0) && Arrived(net, v)
    ensures v < sn0 + |sent|
  {
    var i :| 0 <= i < |net| && net[i].u == v;
    assert net[i] in net;
  }

  lemma ReleasedCount(net: seq<Arrival>, sent: seq<seq<byte>>, sn0: u16, s: Step)
    requires FromNetwork(net, sent, sn0) && Complete(sn0, s, net)
    requires forall v: nat :: sn0 <= v < sn0 + |sent| ==> Arrived(net, v)
    ensures |s.released| == |sent|
  {
    var e := s.ideal.awaited;
    assert !Arrived(net, e);
    if e > sn0 {
      assert Arrived(net, e - 1);
      ArrivedIsSent(net, sent, sn0, e - 1);
    }
  }

  /** Contiguous genuine releases are the first packets sent. */
  lemma ReleasedIsSent(net: seq<Arrival>, sent: seq<seq<byte>>, sn0: u16, rs: seq<Arrival>)
    requires FromNetwork(net, sent, sn0) && Contiguous(sn0, rs)
    requires forall r :: r in rs ==> r in net
    ensures |rs| <= |sent| && Packets(rs) == sent[..|rs|]
  {
    PacketsLength(rs);
    if rs != [] { assert rs[|rs| - 1] in rs; }
    forall i | 0 <= i < |rs|
      ensures Packets(rs)[i] == sent[i]
    {
      PacketsAt(rs, i);
      assert rs[i] in rs;
    }
  }

  /** The window releases the first packets sent, however many have arrived. */
  lemma ReleasesSent(net: seq<Arrival>, sent: seq<seq<byte>>, sn0: u16)
    requires FromNetwork(net, sent, sn0) && Arrives(net) && InOrderEnough(net, sn0)
    ensures var rs := IdealRun(net).released; |rs| <= |sent| && Packets(rs) == sent[..|rs|]
  {
    if net == [] {
      IdealRunNone();
    } else {
      hide IdealRun, Timely;
      RunTimely(net);
      RunConserves(net);
      hide Arrives, FromNetwork;
      ReleasedIsSent(net, sent, sn0, IdealRun(net).released);
    }
  }

  /** And all of them, when all have. */
  lemma ReleasesAllSent(net: seq<Arrival>, sent: seq<seq<byte>>, sn0: u16)
    requires FromNetwork(net, sent, sn0) && Arrives(net) && KeptWithinWindow(net, |sent|, sn0)
    ensures Packets(IdealRun(net).released) == sent
  {
    ReleasesSent(net, sent, sn0);
    if net == [] {
      IdealRunNone();
      assert !Arrived(net, sn0);
    } else {
      hide IdealRun, Timely;
      RunTimely(net);
      hide Arrives, FromNetwork, Arrived;
      ReleasedCount(net, sent, sn0, IdealRun(net));
      assert sent[..|sent|] == sent;
    }
  }

  lemma {:induction false} PacketsLength(rs: seq<Arrival>)
    ensures |Packets(rs)| == |rs|
  {
    if rs != [] { PacketsLength(rs[1..]); }
  }

  lemma {:induction false} PacketsAt(rs: seq<Arrival>, i: nat)
    requires i < |rs|
    ensures |Packets(rs)| == |rs| && Packets(rs)[i] == rs[i].pkt
  {
    PacketsLength(rs);
    if i > 0 { PacketsAt(rs[1..], i - 1); }
  }

  /**
   The normalising identity: over a network that loses nothing and reorders within the window, the
   callback gets exactly the expected units, each once and in order, repeats notwithstanding.
   */
  lemma LosslessDelivery(units: seq<Unit>, sn0: u16, ts0: u32, ks: seq<nat>)
    requires forall i :: 0 <= i < |ks| ==> ks[i] < |SendAll(units, 0, sn0, ts0)|
    requires var sent := SendAll(units, 0, sn0, ts0);
             var net := Network(sent, sn0, ks);
             WithinReach(net) && KeptWithinWindow(net, |sent|, sn0)
    ensures var net := Network(SendAll(units, 0, sn0, ts0), sn0, ks);
            DecodeRun(Packets(net)).units == Expected(units, 0, true)
  {
    var sent, slots := SendAll(units, 0, sn0, ts0), Stream(units, 0);
    var net := Network(sent, sn0, ks);
    SendAllIsStream(units, 0, sn0, ts0);
    StreamLinked(units, 0);
    NetworkIsSent(sent, sn0, ks);
    NetworkArrives(net, slots, sent, sn0);
    hide Stream, Linked, Arrives, FromNetwork, AllWires, KeptWithinWindow, WithinReach, Network, SendAll;
    RunRefines(net);
    ReleasesAllSent(net, sent, sn0);
    DecodeRunIsWindowThenDepay(Packets(net));
    ReceiveStream(D.Initial, units, 0, sn0, ts0);
  }

  /** Before all has arrived, what was delivered is the first of it: what the packets released so far hold. */
  lemma DeliversSoFar(units: seq<Unit>, sn0: u16, ts0: u32, ks: seq<nat>)
    requires forall i :: 0 <= i < |ks| ==> ks[i] < |SendAll(units, 0, sn0, ts0)|
    requires var net := Network(SendAll(units, 0, sn0, ts0), sn0, ks); WithinReach(net) && InOrderEnough(net, sn0)
    ensures var sent := SendAll(units, 0, sn0, ts0);
            var net := Network(sent, sn0, ks);
            var c := |IdealRun(net).released|;
            && c <= |sent| && DecodeRun(Packets(net)).units == DepayAll(D.Initial, sent[..c]).units
            && DecodeRun(Packets(net)).units <= Expected(units, 0, true)
  {
    var sent, slots := SendAll(units, 0, sn0, ts0), Stream(units, 0);
    var net := Network(sent, sn0, ks);
    SendAllIsStream(units, 0, sn0, ts0);
    StreamLinked(units, 0);
    NetworkIsSent(sent, sn0, ks);
    NetworkArrives(net, slots, sent, sn0);
    hide Stream, Linked, Arrives, FromNetwork, AllWires, InOrderEnough, WithinReach, Network, SendAll;
    hide DepayAll, DecodeRun, IdealRun, Packets, Expected;
    RunRefines(net);
    ReleasesSent(net, sent, sn0);
    DecodeRunIsWindowThenDepay(Packets(net));
    ReceiveStream(D.Initial, units, 0, sn0, ts0);
    DepayPrefix(D.Initial, sent, |IdealRun(net).released|);
  }

  lemma DepayPrefix(s: D.State, pkts: seq<seq<byte>>, c: nat)
    requires c <= |pkts|
    ensures DepayAll(s, pkts[..c]).units <= DepayAll(s, pkts).units
  {
    hide DepayAll;
    DepayAppend(s, pkts[..c], pkts[c..]);
    assert pkts[..c] + pkts[c..] == pkts;
  }

  /** The normal forms of all accepted units. */
  function AllNormal(units: seq<Unit>, k: nat): seq<seq<byte>>
    decreases |units| - k
  {
    if k >= |units| then []
    else if Accepted(units[k]) then [NormalOf(units[k])] + AllNormal(units, k + 1)
    else AllNormal(units, k + 1)
  }

  /** With a sequence header up front and units that fit, the expectation is every unit exactly once. */
  lemma {:induction false} ExpectedAll(units: seq<Unit>, k: nat, dropping: bool)
    requires forall j :: k <= j < |units| && Accepted(units[j]) ==> |NormalOf(units[j])| <= D.CAPACITY
    requires dropping && k < |units| ==> Accepted(units[k]) && ParseUnit(units[k]).newSequence
    ensures Expected(units, k, dropping) == AllNormal(units, k)
    decreases |units| - k
  {
    hide NormalOf, ParseUnit, Accepted;
    if k < |units| { ExpectedAll(units, k + 1, false); }
  }
}
