/**
 The reorder window in front of the AV1 depacketizer: four slots indexed by the low bits of the
 16-bit sequence number, releasing in order, giving a hole up once a packet is four ahead of it.
 `Ideal` is the same window over unwrapped sequence numbers, and the refinement between the two
 is what makes the 16-bit arithmetic safe.
 */
module Av1Reorder {
  import opened Bytes
  import opened Rtp

  const DEPTH: nat := 4
  const SLOT_SIZE: nat := 2048

  /** An empty slot holds no bytes; a packet is never empty. */
  datatype Window = Window(slots: seq<seq<byte>>, awaited: u16, started: bool) {
    ghost predicate Valid() { |slots| == DEPTH }
  }

  const EmptyWindow := Window([[], [], [], []], 0, false)

  datatype Received = Received(window: Window, released: seq<seq<byte>>, ret: int)

  function Occupied(slots: seq<seq<byte>>): nat {
    if slots == [] then 0 else (if slots[0] != [] then 1 else 0) + Occupied(slots[1..])
  }

  lemma {:induction false} OccupiedClear(slots: seq<seq<byte>>, i: nat)
    requires i < |slots| && slots[i] != []
    ensures Occupied(slots[i := []]) == Occupied(slots) - 1
  {
    if i > 0 {
      OccupiedClear(slots[1..], i - 1);
      assert slots[i := []][1..] == slots[1..][i - 1 := []];
    } else {
      assert slots[i := []][1..] == slots[1..];
    }
  }

  /** Release what continues from `awaited`. */
  function Drain(w: Window): (r: Received)
    requires w.Valid()
    ensures r.window.Valid()
    decreases Occupied(w.slots)
  {
    var at := w.awaited % DEPTH;
    if w.slots[at] == [] then Received(w, [], 0)
    else
      OccupiedClear(w.slots, at);
      var r := Drain(w.(slots := w.slots[at := []], awaited := NextSeq(w.awaited)));
      r.(released := [w.slots[at]] + r.released)
  }

  /** The slot of the number `i` after `awaited`, in 16-bit arithmetic. */
  function SlotAfter(awaited: u16, i: nat): (at: nat)
    ensures at < DEPTH
  {
    (awaited + i) % 0x1_0000 % DEPTH
  }

  /** Give the hole up: release what is held at `awaited + i` onwards, in order. */
  function Flush(w: Window, i: nat): (r: Received)
    requires w.Valid() && i <= DEPTH
    ensures r.window.Valid()
    decreases DEPTH - i
  {
    if i == DEPTH then Received(w, [], 0)
    else
      var at := SlotAfter(w.awaited, i);
      var r := Flush(w.(slots := w.slots[at := []]), i + 1);
      r.(released := (if w.slots[at] == [] then [] else [w.slots[at]]) + r.released)
  }

  /** `sn - awaited` as the 16-bit subtraction leaves it; 0x8000 and more reads as negative. */
  function Ahead(sn: u16, awaited: u16): u16 {
    (sn - awaited) % 0x1_0000
  }

  function Insert(w: Window, sn: u16, pkt: seq<byte>): Received
    requires w.Valid()
  {
    Drain(w.(slots := w.slots[sn % DEPTH := pkt]))
  }

  /** One datagram. */
  function Accept(w0: Window, pkt: seq<byte>): (r: Received)
    requires w0.Valid()
    ensures r.window.Valid()
  {
    if |pkt| < HEADER_SIZE || |pkt| > SLOT_SIZE then Received(w0, [], -1)
    else
      var sn := Seq(pkt);
      var w := if w0.started then w0 else w0.(started := true, awaited := sn);
      var ahead := Ahead(sn, w.awaited);
      if ahead >= 0x8000 then Received(w, [], |pkt|)
      else if ahead >= DEPTH then
        var f := Flush(w, 0);
        var r := Insert(f.window.(awaited := sn), sn, pkt);
        Received(r.window, f.released + r.released, |pkt|)
      else
        Insert(w, sn, pkt).(ret := |pkt|)
  }

  /** What is no RTP packet, or too long for a slot, is refused and changes nothing; any other is counted in whole, released or not. */
  lemma AnswersExactly(w: Window, pkt: seq<byte>)
    requires w.Valid()
    ensures Accept(w, pkt).ret == if 12 <= |pkt| <= 2048 then |pkt| else -1
    ensures Accept(w, pkt).ret == -1 ==> Accept(w, pkt).window == w && Accept(w, pkt).released == []
  {
    hide Drain, Flush, Ahead;
  }

  // ---- The same window over unwrapped sequence numbers ----

  datatype Arrival = Arrival(u: nat, pkt: seq<byte>)

  predicate Carries(a: Arrival) {
    HEADER_SIZE <= |a.pkt| <= SLOT_SIZE && Seq(a.pkt) == a.u % 0x1_0000
  }

  /** Next number to release, and the packets held ahead of it. */
  datatype Ideal = Idle | Live(awaited: nat, held: map<nat, seq<byte>>)

  datatype Step = Step(ideal: Ideal, released: seq<Arrival>)

  function IdealDrain(e: nat, held: map<nat, seq<byte>>): Step
    decreases |held|
  {
    if e !in held then Step(Live(e, held), [])
    else
      var rest := held - {e};
      assert rest.Keys == held.Keys - {e};
      var r := IdealDrain(e + 1, rest);
      r.(released := [Arrival(e, held[e])] + r.released)
  }

  /** What a flush releases: everything held below `e + DEPTH`, ascending from `e + i`. */
  function IdealFlush(e: nat, held: map<nat, seq<byte>>, i: nat): seq<Arrival>
    requires i <= DEPTH
    decreases DEPTH - i
  {
    if i == DEPTH then []
    else (if e + i in held then [Arrival(e + i, held[e + i])] else []) + IdealFlush(e, held, i + 1)
  }

  function IdealAccept(g: Ideal, a: Arrival): Step {
    if g.Idle? then IdealDrain(a.u, map[a.u := a.pkt])
    else if a.u < g.awaited then Step(g, [])
    else if a.u >= g.awaited + DEPTH then
      var r := IdealDrain(a.u, map[a.u := a.pkt]);
      r.(released := IdealFlush(g.awaited, g.held, 0) + r.released)
    else IdealDrain(g.awaited, g.held[a.u := a.pkt])
  }

  /** Held packets lie less than DEPTH ahead and are never empty. */
  predicate Bounded(e: nat, held: map<nat, seq<byte>>) {
    forall k :: k in held ==> e <= k < e + DEPTH && held[k] != []
  }

  function Slot(w: Window, u: nat): seq<byte>
    requires w.Valid()
  {
    w.slots[u % DEPTH]
  }

  function SetSlot(w: Window, u: nat, pkt: seq<byte>): (r: Window)
    requires w.Valid()
    ensures r.Valid() && r.awaited == w.awaited && r.started == w.started
  {
    w.(slots := w.slots[u % DEPTH := pkt])
  }

  /** Fewer than DEPTH apart means different slots; DEPTH apart means the same one. */
  lemma SetSlotReads(w: Window, u: nat, pkt: seq<byte>)
    requires w.Valid()
    ensures forall k: nat :: u - DEPTH < k < u + DEPTH ==> Slot(SetSlot(w, u, pkt), k) == if k == u then pkt else Slot(w, k)
    ensures Slot(SetSlot(w, u, pkt), u + DEPTH) == pkt
  {
  }

  /** Slot by slot, the 16-bit window holds what the unwrapped one holds. */
  ghost predicate Mirrors(w: Window, e: nat, held: map<nat, seq<byte>>) {
    && w.Valid() && w.started && w.awaited == e % 0x1_0000
    && Bounded(e, held)
    && forall k :: e <= k < e + DEPTH ==> Slot(w, k) == if k in held then held[k] else []
  }

  ghost predicate Refines(w: Window, g: Ideal) {
    match g
    case Idle => w == EmptyWindow
    case Live(e, held) => Mirrors(w, e, held) && e !in held
  }

  function Packets(rs: seq<Arrival>): seq<seq<byte>> {
    if rs == [] then [] else [rs[0].pkt] + Packets(rs[1..])
  }

  lemma {:induction false} PacketsAppend(a: seq<Arrival>, b: seq<Arrival>)
    ensures Packets(a + b) == Packets(a) + Packets(b)
  {
    if a == [] {
      assert a + b == b;
    } else {
      PacketsAppend(a[1..], b);
      assert (a + b)[1..] == a[1..] + b;
    }
  }

  lemma SlotOf(u: nat)
    ensures u % 0x1_0000 % DEPTH == u % DEPTH
    ensures NextSeq(u % 0x1_0000) == (u + 1) % 0x1_0000
  {
  }

  lemma DrainOne(w: Window, e: nat, held: map<nat, seq<byte>>)
    requires Mirrors(w, e, held)
    ensures Slot(w, e) == if e in held then held[e] else []
    ensures e in held ==> held[e] != []
    ensures e in held ==> Mirrors(SetSlot(w, e, []).(awaited := NextSeq(w.awaited)), e + 1, held - {e})
    ensures e !in held ==> Refines(w, Live(e, held))
  {
    SlotOf(e);
    if e in held {
      SetSlotReads(w, e, []);
      var w1 := SetSlot(w, e, []).(awaited := NextSeq(w.awaited));
      SameSlots(SetSlot(w, e, []), w1);
      hide Slot, SetSlot;
    }
  }

  lemma SameSlots(w: Window, w1: Window)
    requires w.Valid() && w1.slots == w.slots
    ensures forall k: nat :: Slot(w1, k) == Slot(w, k)
  {
  }

  lemma {:induction false} DrainRefines(w: Window, e: nat, held: map<nat, seq<byte>>)
    requires Mirrors(w, e, held)
    ensures w.Valid()
    ensures var r, s := Drain(w), IdealDrain(e, held);
            r.released == Packets(s.released) && Refines(r.window, s.ideal)
    decreases |held|
  {
    DrainOne(w, e, held);
    SlotOf(e);
    assert w.Valid() && w.awaited % DEPTH == e % DEPTH;
    hide Mirrors, Refines, Occupied;
    if e in held {
      var rest := held - {e};
      assert rest.Keys == held.Keys - {e};
      var w1 := SetSlot(w, e, []).(awaited := NextSeq(w.awaited));
      DrainRefines(w1, e + 1, rest);
      PacketsAppend([Arrival(e, held[e])], IdealDrain(e + 1, rest).released);
    }
  }

  ghost predicate HoldsFrom(w: Window, e: nat, held: map<nat, seq<byte>>, i: nat) {
    && w.Valid() && w.awaited == e % 0x1_0000 && i <= DEPTH
    && (forall k :: e <= k < e + i ==> Slot(w, k) == [])
    && forall k :: e + i <= k < e + DEPTH ==> Slot(w, k) == if k in held then held[k] else []
  }

  lemma FlushedAll(w: Window, e: nat, held: map<nat, seq<byte>>)
    requires HoldsFrom(w, e, held, DEPTH)
    ensures w.slots == [[], [], [], []]
  {
    assert Slot(w, e) == [] && Slot(w, e + 1) == [] && Slot(w, e + 2) == [] && Slot(w, e + 3) == [];
    forall j | 0 <= j < DEPTH
      ensures w.slots[j] == []
    {
      assert j == e % DEPTH || j == (e + 1) % DEPTH || j == (e + 2) % DEPTH || j == (e + 3) % DEPTH;
    }
  }

  lemma HoldsMeans(w: Window, e: nat, held: map<nat, seq<byte>>, i: nat)
    requires HoldsFrom(w, e, held, i)
    ensures w.Valid() && w.awaited == e % 0x1_0000 && i <= DEPTH
  {
  }

  lemma FlushedNone(w: Window, e: nat, held: map<nat, seq<byte>>)
    requires HoldsFrom(w, e, held, DEPTH)
    ensures w.Valid() && Flush(w, DEPTH).released == Packets(IdealFlush(e, held, DEPTH))
    ensures Flush(w, DEPTH).window == Window([[], [], [], []], w.awaited, w.started)
  {
    FlushedAll(w, e, held);
    hide HoldsFrom, Slot;
  }

  lemma FlushOne(w: Window, e: nat, held: map<nat, seq<byte>>, i: nat)
    requires i < DEPTH && HoldsFrom(w, e, held, i) && Bounded(e, held)
    ensures Slot(w, e + i) == (if e + i in held then held[e + i] else [])
    ensures Slot(w, e + i) == [] <==> e + i !in held
    ensures HoldsFrom(SetSlot(w, e + i, []), e, held, i + 1)
  {
    SetSlotReads(w, e + i, []);
    hide Slot, SetSlot;
  }

  /** One turn of the flush loop, in unwrapped numbers. */
  lemma FlushTurn(w: Window, e: nat, i: nat)
    requires i < DEPTH && w.Valid() && w.awaited == e % 0x1_0000
    ensures var r := Flush(SetSlot(w, e + i, []), i + 1);
            && Flush(w, i).window == r.window
            && Flush(w, i).released == (if Slot(w, e + i) == [] then [] else [Slot(w, e + i)]) + r.released
  {
    SlotOf(e + i);
    assert (w.awaited + i) % 0x1_0000 == (e + i) % 0x1_0000;
  }

  lemma IdealFlushTurn(e: nat, held: map<nat, seq<byte>>, i: nat)
    requires i < DEPTH
    ensures Packets(IdealFlush(e, held, i)) ==
            (if e + i in held then [held[e + i]] else []) + Packets(IdealFlush(e, held, i + 1))
  {
    PacketsAppend(if e + i in held then [Arrival(e + i, held[e + i])] else [], IdealFlush(e, held, i + 1));
  }

  lemma {:induction false} FlushRefines(w: Window, e: nat, held: map<nat, seq<byte>>, i: nat)
    requires HoldsFrom(w, e, held, i) && Bounded(e, held)
    ensures w.Valid() && i <= DEPTH
    ensures var r := Flush(w, i);
            && r.released == Packets(IdealFlush(e, held, i))
            && r.window == Window([[], [], [], []], w.awaited, w.started)
    decreases DEPTH - i
  {
    hide Flush, HoldsFrom, SetSlot, Slot, Bounded, Packets, IdealFlush;
    HoldsMeans(w, e, held, i);
    if i == DEPTH {
      FlushedNone(w, e, held);
    } else {
      FlushOne(w, e, held, i);
      FlushTurn(w, e, i);
      IdealFlushTurn(e, held, i);
      FlushRefines(SetSlot(w, e + i, []), e, held, i + 1);
    }
  }

  /** The window can tell how far ahead an arrival is: it lies within half the sequence space. */
  predicate Near(g: Ideal, u: nat) {
    g.Live? ==> g.awaited - 0x8000 <= u < g.awaited + 0x8000
  }

  lemma AheadOf(u: nat, e: nat)
    requires e - 0x8000 <= u < e + 0x8000
    ensures Ahead(u % 0x1_0000, e % 0x1_0000) == if u >= e then u - e else u - e + 0x1_0000
  {
  }

  lemma InsertRefines(w: Window, e: nat, held: map<nat, seq<byte>>, a: Arrival)
    requires Mirrors(w, e, held) && Carries(a) && e <= a.u < e + DEPTH
    ensures var r, s := Insert(w, a.u % 0x1_0000, a.pkt), IdealDrain(e, held[a.u := a.pkt]);
            r.released == Packets(s.released) && Refines(r.window, s.ideal)
  {
    SlotOf(a.u);
    SetSlotReads(w, a.u, a.pkt);
    var w1 := SetSlot(w, a.u, a.pkt);
    assert Mirrors(w1, e, held[a.u := a.pkt]) by { hide Slot, SetSlot; }
    DrainRefines(w1, e, held[a.u := a.pkt]);
    hide Drain, Mirrors, Refines;
  }

  lemma JumpRefines(w: Window, a: Arrival)
    requires w == Window([[], [], [], []], a.u % 0x1_0000, true) && Carries(a)
    ensures var r, s := Insert(w, a.u % 0x1_0000, a.pkt), IdealDrain(a.u, map[a.u := a.pkt]);
            r.released == Packets(s.released) && Refines(r.window, s.ideal)
  {
    assert Mirrors(w, a.u, map[]);
    InsertRefines(w, a.u, map[], a);
    assert map[][a.u := a.pkt] == map[a.u := a.pkt];
  }

  /** One datagram does to the 16-bit window what it does to the unwrapped one. */
  lemma AcceptRefines(w: Window, g: Ideal, a: Arrival)
    requires Refines(w, g) && Carries(a) && Near(g, a.u)
    ensures var r, s := Accept(w, a.pkt), IdealAccept(g, a);
            r.released == Packets(s.released) && Refines(r.window, s.ideal) && r.ret == |a.pkt|
  {
    hide Drain, Flush, IdealDrain, IdealFlush, Insert;
    match g
    case Idle =>
      var w1 := w.(started := true, awaited := a.u % 0x1_0000);
      AheadOf(a.u, a.u);
      JumpRefines(w1, a);
    case Live(e, held) =>
      AheadOf(a.u, e);
      if a.u >= e + DEPTH {
        assert HoldsFrom(w, e, held, 0);
        FlushRefines(w, e, held, 0);
        JumpRefines(Window([[], [], [], []], a.u % 0x1_0000, true), a);
        PacketsAppend(IdealFlush(e, held, 0), IdealDrain(a.u, map[a.u := a.pkt]).released);
      } else if a.u >= e {
        InsertRefines(w, e, held, a);
      }
  }

  // ---- Whole runs ----

  /** The window over a run of arrivals, from the first packet ever. */
  function IdealRun(arrivals: seq<Arrival>): Step
    decreases |arrivals|
  {
    if arrivals == [] then Step(Idle, [])
    else
      var p := IdealRun(arrivals[..|arrivals| - 1]);
      var s := IdealAccept(p.ideal, arrivals[|arrivals| - 1]);
      Step(s.ideal, p.released + s.released)
  }

  function WindowRun(pkts: seq<seq<byte>>): (r: Received)
    ensures r.window.Valid()
    decreases |pkts|
  {
    if pkts == [] then Received(EmptyWindow, [], 0)
    else
      var p := WindowRun(pkts[..|pkts| - 1]);
      var r := Accept(p.window, pkts[|pkts| - 1]);
      r.(released := p.released + r.released)
  }

  /** Real packets, each within half the sequence space of what is awaited when it arrives. */
  ghost predicate Arrives(arrivals: seq<Arrival>) {
    forall i :: 0 <= i < |arrivals| ==>
      Carries(arrivals[i]) && Near(IdealRun(arrivals[..i]).ideal, arrivals[i].u)
  }

  lemma ArrivesPrefix(arrivals: seq<Arrival>)
    requires Arrives(arrivals) && arrivals != []
    ensures Arrives(arrivals[..|arrivals| - 1])
    ensures var n := |arrivals| - 1;
            Carries(arrivals[n]) && Near(IdealRun(arrivals[..n]).ideal, arrivals[n].u)
  {
    hide IdealRun, Carries, Near;
    var p := arrivals[..|arrivals| - 1];
    forall i | 0 <= i < |p|
      ensures Carries(p[i]) && Near(IdealRun(p[..i]).ideal, p[i].u)
    {
      assert p[..i] == arrivals[..i] && p[i] == arrivals[i];
    }
  }

  lemma IdealRunStep(before: seq<Arrival>, a: Arrival)
    ensures var p := IdealRun(before);
            var s := IdealAccept(p.ideal, a);
            IdealRun(before + [a]) == Step(s.ideal, p.released + s.released)
  {
    assert (before + [a])[..|before|] == before;
  }

  lemma WindowRunStep(before: seq<seq<byte>>, pkt: seq<byte>)
    ensures var p := WindowRun(before);
            var r := Accept(p.window, pkt);
            WindowRun(before + [pkt]) == r.(released := p.released + r.released)
  {
    assert (before + [pkt])[..|before|] == before;
  }

  lemma LastOf(arrivals: seq<Arrival>)
    requires arrivals != []
    ensures arrivals == arrivals[..|arrivals| - 1] + [arrivals[|arrivals| - 1]]
    ensures Packets(arrivals) == Packets(arrivals[..|arrivals| - 1]) + [arrivals[|arrivals| - 1].pkt]
  {
    var n := |arrivals| - 1;
    PacketsOne(arrivals[n]);
    hide *;
    assert arrivals == arrivals[..n] + [arrivals[n]];
    PacketsAppend(arrivals[..n], [arrivals[n]]);
  }

  lemma PacketsOne(a: Arrival)
    ensures Packets([a]) == [a.pkt]
  {
  }

  /** Over a whole run the 16-bit window releases what the unwrapped one does. */
  lemma {:induction false} RunRefines(arrivals: seq<Arrival>)
    requires Arrives(arrivals)
    ensures WindowRun(Packets(arrivals)).released == Packets(IdealRun(arrivals).released)
    ensures Refines(WindowRun(Packets(arrivals)).window, IdealRun(arrivals).ideal)
    decreases |arrivals|
  {
    if arrivals != [] {
      hide Refines, Arrives, Accept, IdealAccept, Carries, Near, IdealRun, WindowRun, Packets;
      var before, a := arrivals[..|arrivals| - 1], arrivals[|arrivals| - 1];
      ArrivesPrefix(arrivals);
      LastOf(arrivals);
      RunRefines(before);
      IdealRunStep(before, a);
      WindowRunStep(Packets(before), a.pkt);
      var g := IdealRun(before);
      AcceptRefines(WindowRun(Packets(before)).window, g.ideal, a);
      PacketsAppend(g.released, IdealAccept(g.ideal, a).released);
    }
  }

  /** Releases after number `prev`: each later than the one before, by at most half the sequence space. */
  predicate Chain(prev: int, rs: seq<Arrival>)
    decreases |rs|
  {
    rs == [] || (prev < rs[0].u <= prev + 0x8000 && Chain(rs[0].u, rs[1..]))
  }

  function End(prev: int, rs: seq<Arrival>): int {
    if rs == [] then prev else rs[|rs| - 1].u
  }

  lemma {:induction false} ChainAppend(prev: int, a: seq<Arrival>, b: seq<Arrival>)
    requires Chain(prev, a) && Chain(End(prev, a), b)
    ensures Chain(prev, a + b) && End(prev, a + b) == End(End(prev, a), b)
    decreases |a|
  {
    if a == [] {
      assert a + b == b;
    } else {
      ChainAppend(a[0].u, a[1..], b);
      assert (a + b)[1..] == a[1..] + b;
    }
  }

  lemma {:induction false} ChainOrders(prev: int, rs: seq<Arrival>, i: nat, j: nat)
    requires Chain(prev, rs) && i <= j < |rs|
    ensures prev < rs[i].u <= rs[j].u <= End(prev, rs)
    ensures i < j ==> rs[i].u < rs[j].u
    decreases |rs|
  {
    if i > 0 {
      ChainOrders(rs[0].u, rs[1..], i - 1, j - 1);
    } else if j > 0 {
      ChainOrders(rs[0].u, rs[1..], 0, j - 1);
    } else if |rs| > 1 {
      ChainOrders(rs[0].u, rs[1..], |rs| - 2, |rs| - 2);
    }
  }

  /** Between arrivals: nothing held is due, nothing held is DEPTH or more ahead. */
  ghost predicate Settled(g: Ideal) {
    g.Live? ==> forall k :: k in g.held ==> g.awaited < k < g.awaited + DEPTH
  }

  lemma SettledMeans(g: Ideal)
    requires Settled(g) && g.Live?
    ensures forall k :: k in g.held ==> g.awaited < k < g.awaited + DEPTH
  {
  }

  predicate Covers(held: map<nat, seq<byte>>, from: nat, n: nat) {
    forall k: nat :: from <= k < from + n ==> k in held
  }

  /** The `n` numbers from `from` on, with the packets `held` has for them. */
  function Span(from: nat, n: nat, held: map<nat, seq<byte>>): (rs: seq<Arrival>)
    requires Covers(held, from, n)
    ensures |rs| == n
    decreases n
  {
    if n == 0 then [] else [Arrival(from, held[from])] + Span(from + 1, n - 1, held)
  }

  lemma {:induction false} SpanAt(from: nat, n: nat, held: map<nat, seq<byte>>, i: nat)
    requires Covers(held, from, n) && i < n
    ensures Span(from, n, held)[i] == Arrival(from + i, held[from + i])
    decreases i
  {
    if i > 0 { SpanAt(from + 1, n - 1, held, i - 1); }
  }

  lemma {:induction false} SpanSame(from: nat, n: nat, a: map<nat, seq<byte>>, b: map<nat, seq<byte>>)
    requires Covers(a, from, n) && Covers(b, from, n)
    requires forall k: nat :: from <= k < from + n ==> a[k] == b[k]
    ensures Span(from, n, a) == Span(from, n, b)
    decreases n
  {
    if n > 0 { SpanSame(from + 1, n - 1, a, b); }
  }

  lemma {:induction false} SpanChain(from: nat, n: nat, held: map<nat, seq<byte>>)
    requires Covers(held, from, n)
    ensures Chain(from - 1, Span(from, n, held))
    ensures End(from - 1, Span(from, n, held)) == from + n - 1
    decreases n
  {
    if n > 0 {
      SpanChain(from + 1, n - 1, held);
      assert Span(from, n, held)[1..] == Span(from + 1, n - 1, held);
    }
  }

  function From(held: map<nat, seq<byte>>, e: nat): map<nat, seq<byte>> {
    map k | k in held && k >= e :: held[k]
  }

  /** What a drain leaves behind and what it covers, once `e` itself is out. */
  lemma WithoutFirst(e: nat, n: nat, held: map<nat, seq<byte>>)
    requires e in held && Covers(held - {e}, e + 1, n)
    requires forall k :: k in held ==> e <= k
    ensures Covers(held, e + 1, n) && Covers(held, e, n + 1)
    ensures Span(e + 1, n, held - {e}) == Span(e + 1, n, held)
    ensures From(held - {e}, e + 1 + n) == From(held, e + 1 + n)
    ensures e + 1 + n in held - {e} <==> e + 1 + n in held
  {
    var rest := held - {e};
    assert forall k :: k in rest <==> k in held && k != e;
    SpanSame(e + 1, n, rest, held);
  }

  lemma WithoutOne(e: nat, held: map<nat, seq<byte>>)
    requires e in held && forall k :: k in held ==> e <= k
    ensures |held - {e}| < |held| && forall k :: k in held - {e} ==> e + 1 <= k
  {
    assert (held - {e}).Keys == held.Keys - {e};
  }

  lemma FromAll(e: nat, held: map<nat, seq<byte>>)
    requires forall k :: k in held ==> e <= k
    ensures From(held, e) == held && Covers(held, e, 0)
  {
  }

  /** How many numbers from `e` on are held without a break. */
  function Unbroken(e: nat, held: map<nat, seq<byte>>): nat
    decreases |held|
  {
    if e in held then 1 + Unbroken(e + 1, held - {e}) else 0
  }

  /** A drain releases the unbroken run from `e` and keeps the rest. */
  lemma {:induction false} DrainSpan(e: nat, held: map<nat, seq<byte>>, n: nat)
    requires (forall k :: k in held ==> e <= k) && n == Unbroken(e, held)
    ensures Covers(held, e, n) && e + n !in held
    ensures IdealDrain(e, held) == Step(Live(e + n, From(held, e + n)), Span(e, n, held))
    decreases |held|
  {
    hide Covers, From;
    if e in held {
      WithoutOne(e, held);
      var m := n - 1;
      DrainSpan(e + 1, held - {e}, m);
      WithoutFirst(e, m, held);
      assert Span(e, n, held) == [Arrival(e, held[e])] + Span(e + 1, m, held);
    } else {
      FromAll(e, held);
    }
  }

  lemma ChainCons(prev: int, a: Arrival, tail: seq<Arrival>)
    requires prev < a.u <= prev + 0x8000 && Chain(a.u, tail)
    ensures Chain(prev, [a] + tail) && End(prev, [a] + tail) == End(a.u, tail)
  {
    assert ([a] + tail)[1..] == tail;
  }

  lemma ChainNone(prev: int)
    ensures Chain(prev, []) && End(prev, []) == prev
  {
  }

  /** A flush goes up from any number the window has just let go of, and stays below `e + DEPTH`. */
  lemma {:induction false} FlushChain(e: nat, held: map<nat, seq<byte>>, i: nat, prev: int)
    requires i <= DEPTH && e - 1 <= prev < e + i
    ensures Chain(prev, IdealFlush(e, held, i)) && prev <= End(prev, IdealFlush(e, held, i)) < e + DEPTH
    decreases DEPTH - i
  {
    hide Chain, End;
    if i == DEPTH {
      ChainNone(prev);
    } else {
      var tail := IdealFlush(e, held, i + 1);
      if e + i in held {
        FlushChain(e, held, i + 1, e + i);
        ChainCons(prev, Arrival(e + i, held[e + i]), tail);
      } else {
        FlushChain(e, held, i + 1, prev);
        assert [] + tail == tail;
      }
    }
  }

  /** A flush releases exactly what is held from `e + i` on. */
  lemma {:induction false} FlushMembers(e: nat, held: map<nat, seq<byte>>, i: nat, r: Arrival)
    requires i <= DEPTH
    ensures r in IdealFlush(e, held, i) <==> e + i <= r.u < e + DEPTH && r.u in held && held[r.u] == r.pkt
    decreases DEPTH - i
  {
    if i < DEPTH { FlushMembers(e, held, i + 1, r); }
  }

  /** The packets an arrival leaves in play: what was held, and the arrival itself unless it is late. */
  function Pool(g: Ideal, a: Arrival): map<nat, seq<byte>> {
    if g.Idle? then map[a.u := a.pkt]
    else if a.u < g.awaited then g.held
    else g.held[a.u := a.pkt]
  }

  /** Every packet of the pool is released or still held, and nothing else is. */
  ghost predicate Accounts(pool: map<nat, seq<byte>>, released: seq<Arrival>, held: map<nat, seq<byte>>) {
    && (forall k :: k in pool ==> Arrival(k, pool[k]) in released || (k in held && held[k] == pool[k]))
    && (forall r :: r in released ==> r.u in pool && pool[r.u] == r.pkt)
    && (forall k :: k in held ==> k in pool && pool[k] == held[k])
  }

  lemma SpanMembers(e: nat, n: nat, held: map<nat, seq<byte>>, r: Arrival)
    requires Covers(held, e, n)
    ensures r in Span(e, n, held) <==> e <= r.u < e + n && r.pkt == held[r.u]
  {
    if r in Span(e, n, held) {
      var i :| 0 <= i < n && Span(e, n, held)[i] == r;
      SpanAt(e, n, held, i);
    } else if e <= r.u < e + n {
      SpanAt(e, n, held, r.u - e);
    }
  }

  lemma DrainAccounts(e: nat, held: map<nat, seq<byte>>)
    requires forall k :: k in held ==> e <= k < e + DEPTH
    ensures var s := IdealDrain(e, held);
            && s.ideal.Live? && Settled(s.ideal) && Accounts(held, s.released, s.ideal.held)
            && Chain(e - 1, s.released) && s.ideal.awaited == End(e - 1, s.released) + 1
  {
    hide IdealDrain, Span, Chain, End, Accounts, Settled, Covers, From, Unbroken;
    var n := Unbroken(e, held);
    DrainSpan(e, held, n);
    SpanChain(e, n, held);
    SpanAccounts(e, n, held);
    SettledFrom(e, n, held);
  }

  lemma SettledFrom(e: nat, n: nat, held: map<nat, seq<byte>>)
    requires (forall k :: k in held ==> e <= k < e + DEPTH) && e + n !in held
    ensures Settled(Live(e + n, From(held, e + n)))
  {
  }

  lemma SpanAccounts(e: nat, n: nat, held: map<nat, seq<byte>>)
    requires (forall k :: k in held ==> e <= k) && Covers(held, e, n)
    ensures Accounts(held, Span(e, n, held), From(held, e + n))
  {
    var rs := Span(e, n, held);
    hide Span;
    forall k | k in held && k < e + n
      ensures Arrival(k, held[k]) in rs
    {
      SpanMembers(e, n, held, Arrival(k, held[k]));
    }
    forall r | r in rs
      ensures r.u in held && held[r.u] == r.pkt
    {
      SpanMembers(e, n, held, r);
    }
  }

  function Last(g: Ideal, a: Arrival): int {
    if g.Live? then g.awaited - 1 else a.u - 1
  }

  /** One arrival: order, settledness and the packets in play. */
  lemma AcceptAccounts(g: Ideal, a: Arrival)
    requires Settled(g) && Near(g, a.u)
    ensures var s := IdealAccept(g, a);
            && s.ideal.Live? && Settled(s.ideal)
            && Accounts(Pool(g, a), s.released, s.ideal.held)
            && Chain(Last(g, a), s.released) && s.ideal.awaited == End(Last(g, a), s.released) + 1
  {
    hide IdealDrain, IdealFlush, Chain, End;
    ChainNone(Last(g, a));
    if g.Live? && a.u >= g.awaited + DEPTH {
      JumpOrder(g, a);
      JumpAccounts(g, a);
    } else if g.Idle? {
      DrainAccounts(a.u, map[a.u := a.pkt]);
    } else if a.u >= g.awaited {
      DrainAccounts(g.awaited, g.held[a.u := a.pkt]);
    }
  }

  lemma JumpOrder(g: Ideal, a: Arrival)
    requires g.Live? && Near(g, a.u) && a.u >= g.awaited + DEPTH
    ensures var s := IdealAccept(g, a);
            && s.ideal.Live? && Settled(s.ideal)
            && Chain(g.awaited - 1, s.released) && s.ideal.awaited == End(g.awaited - 1, s.released) + 1
  {
    var e: int := g.awaited;
    var flushed, d := IdealFlush(g.awaited, g.held, 0), IdealDrain(a.u, map[a.u := a.pkt]);
    DrainAccounts(a.u, map[a.u := a.pkt]);
    FlushChain(g.awaited, g.held, 0, e - 1);
    DrainFirst(a.u, map[a.u := a.pkt]);
    var mid: int := a.u;
    ChainWiden(End(e - 1, flushed), mid - 1, d.released);
    ChainAppend(e - 1, flushed, d.released);
    hide IdealDrain, IdealFlush, Chain, End;
  }

  lemma JumpAccounts(g: Ideal, a: Arrival)
    requires g.Live? && Settled(g) && a.u >= g.awaited + DEPTH
    ensures var s := IdealAccept(g, a);
            s.ideal.Live? && Accounts(Pool(g, a), s.released, s.ideal.held)
  {
    hide IdealDrain, IdealFlush, Chain, End, Settled;
    var flushed := IdealFlush(g.awaited, g.held, 0);
    assert forall k :: k in g.held ==> g.awaited < k < g.awaited + DEPTH by { SettledMeans(g); }
    DrainAccounts(a.u, map[a.u := a.pkt]);
    forall r
      ensures r in flushed <==> r.u in g.held && g.held[r.u] == r.pkt
    {
      FlushMembers(g.awaited, g.held, 0, r);
    }
  }

  lemma ChainWiden(p: int, q: int, rs: seq<Arrival>)
    requires p <= q && Chain(q, rs) && rs != [] && rs[0].u <= p + 0x8000
    ensures Chain(p, rs) && End(p, rs) == End(q, rs)
  {
  }

  lemma DrainFirst(e: nat, held: map<nat, seq<byte>>)
    requires e in held
    ensures IdealDrain(e, held).released != [] && IdealDrain(e, held).released[0] == Arrival(e, held[e])
  {
  }

  /** A run that began with number `first`: in order, settled, awaiting the number after the last release. */
  ghost predicate Ordered(first: nat, s: Step) {
    && s.ideal.Live? && Settled(s.ideal)
    && Chain(first - 1, s.released) && s.ideal.awaited == End(first - 1, s.released) + 1
  }

  lemma FirstOrder(a: Arrival)
    ensures var s := IdealAccept(Idle, a); Ordered(a.u, Step(s.ideal, [] + s.released))
  {
    AcceptAccounts(Idle, a);
    var s := IdealAccept(Idle, a);
    hide IdealAccept, Chain, End, Settled;
    assert [] + s.released == s.released;
  }

  lemma NextOrder(first: nat, p: Step, a: Arrival)
    requires Ordered(first, p) && Near(p.ideal, a.u)
    ensures var s := IdealAccept(p.ideal, a); Ordered(first, Step(s.ideal, p.released + s.released))
  {
    AcceptAccounts(p.ideal, a);
    var s := IdealAccept(p.ideal, a);
    hide IdealAccept, Chain, Settled, Accounts;
    ChainAppend(first - 1, p.released, s.released);
  }

  lemma {:induction false} RunOrdered(arrivals: seq<Arrival>)
    requires Arrives(arrivals)
    ensures arrivals != [] ==> Ordered(arrivals[0].u, IdealRun(arrivals))
    ensures Settled(IdealRun(arrivals).ideal)
    decreases |arrivals|
  {
    if arrivals == [] {
      IdealRunNone();
    } else {
      var before, a := arrivals[..|arrivals| - 1], arrivals[|arrivals| - 1];
      ArrivesPrefix(arrivals);
      LastOf(arrivals);
      RunOrdered(before);
      hide Arrives, IdealRun, IdealAccept, Chain, End, Packets, Near;
      IdealRunStep(before, a);
      if before == [] {
        IdealRunNone();
        FirstOrder(a);
      } else {
        NextOrder(before[0].u, IdealRun(before), a);
      }
    }
  }

  /**
   Order over a whole run: from the first packet on, releases strictly increase, never skip half the
   sequence space, and stay below what is awaited; what is held lies strictly ahead of it by less than DEPTH.
   */
  lemma RunOrder(arrivals: seq<Arrival>)
    requires Arrives(arrivals)
    ensures arrivals != [] ==> Ordered(arrivals[0].u, IdealRun(arrivals))
    ensures Settled(IdealRun(arrivals).ideal)
    ensures var rs := IdealRun(arrivals).released; forall i, j :: 0 <= i < j < |rs| ==> rs[i].u < rs[j].u
  {
    hide IdealRun, Arrives, Settled;
    RunOrdered(arrivals);
    var rs := IdealRun(arrivals).released;
    if arrivals == [] {
      IdealRunNone();
    } else {
      forall i, j | 0 <= i < j < |rs| ensures rs[i].u < rs[j].u {
        ChainOrders(arrivals[0].u - 1, rs, i, j);
      }
    }
  }

  lemma IdealRunNone()
    ensures IdealRun([]) == Step(Idle, [])
  {
  }

  ghost predicate Late(g: Ideal, u: nat) {
    g.Live? && u < g.awaited
  }

  /** Number `u` has been released, or is still held. */
  ghost predicate Placed(s: Step, u: nat) {
    (exists r :: r in s.released && r.u == u) || (s.ideal.Live? && u in s.ideal.held)
  }

  /** Releases and held packets are packets that arrived. */
  ghost predicate Genuine(s: Step, arrivals: seq<Arrival>) {
    && (forall r :: r in s.released ==> r in arrivals)
    && (s.ideal.Live? ==> forall k :: k in s.ideal.held ==> Arrival(k, s.ideal.held[k]) in arrivals)
  }

  /** Whatever was not late when it arrived has been released or is still held. */
  ghost predicate NothingLost(arrivals: seq<Arrival>) {
    forall i :: 0 <= i < |arrivals| && !Late(IdealRun(arrivals[..i]).ideal, arrivals[i].u) ==>
      Placed(IdealRun(arrivals), arrivals[i].u)
  }

  /** Nothing accepted is lost and nothing is made up, whatever the network does. */
  lemma {:induction false} RunConserves(arrivals: seq<Arrival>)
    requires Arrives(arrivals)
    ensures Genuine(IdealRun(arrivals), arrivals) && NothingLost(arrivals)
    decreases |arrivals|
  {
    hide IdealRun, Arrives, Placed, Genuine, Late;
    if arrivals == [] {
      IdealRunNone();
      NothingYet();
    } else {
      hide NothingLost;
      ArrivesPrefix(arrivals);
      RunConserves(arrivals[..|arrivals| - 1]);
      LastConserves(arrivals);
      StillNothingLost(arrivals);
    }
  }

  lemma NothingYet()
    ensures Genuine(Step(Idle, []), [])
  {
  }

  lemma StillNothingLost(arrivals: seq<Arrival>)
    requires arrivals != [] && NothingLost(arrivals[..|arrivals| - 1])
    requires var before, a := arrivals[..|arrivals| - 1], arrivals[|arrivals| - 1];
             && (forall u :: Placed(IdealRun(before), u) ==> Placed(IdealRun(arrivals), u))
             && (!Late(IdealRun(before).ideal, a.u) ==> Placed(IdealRun(arrivals), a.u))
    ensures NothingLost(arrivals)
  {
    hide IdealRun, Placed, Late;
    var before := arrivals[..|arrivals| - 1];
    forall i | 0 <= i < |arrivals| && !Late(IdealRun(arrivals[..i]).ideal, arrivals[i].u)
      ensures Placed(IdealRun(arrivals), arrivals[i].u)
    {
      if i < |before| {
        assert arrivals[..i] == before[..i] && before[i] == arrivals[i];
        assert Placed(IdealRun(before), before[i].u);
      }
    }
  }

  lemma LastConserves(arrivals: seq<Arrival>)
    requires Arrives(arrivals) && arrivals != []
    requires var before := arrivals[..|arrivals| - 1]; Genuine(IdealRun(before), before)
    ensures var before, a := arrivals[..|arrivals| - 1], arrivals[|arrivals| - 1];
            && Genuine(IdealRun(arrivals), arrivals)
            && (forall u :: Placed(IdealRun(before), u) ==> Placed(IdealRun(arrivals), u))
            && (!Late(IdealRun(before).ideal, a.u) ==> Placed(IdealRun(arrivals), a.u))
  {
    hide Settled, Near, Carries, IdealRun, IdealAccept, Arrives, Packets, Placed, Genuine, Accounts, Pool, Late, Ordered;
    var before, a := arrivals[..|arrivals| - 1], arrivals[|arrivals| - 1];
    ArrivesPrefix(arrivals);
    LastOf(arrivals);
    RunOrdered(before);
    IdealRunStep(before, a);
    var p := IdealRun(before);
    AcceptAccounts(p.ideal, a);
    StepConserves(p, a, IdealAccept(p.ideal, a), before);
  }

  lemma StepConserves(p: Step, a: Arrival, s: Step, before: seq<Arrival>)
    requires s.ideal.Live? && Accounts(Pool(p.ideal, a), s.released, s.ideal.held)
    requires Genuine(p, before)
    ensures var t := Step(s.ideal, p.released + s.released);
            && Genuine(t, before + [a])
            && (forall u :: Placed(p, u) ==> Placed(t, u))
            && (!Late(p.ideal, a.u) ==> Placed(t, a.u))
  {
    var t := Step(s.ideal, p.released + s.released);
    var pool := Pool(p.ideal, a);
    assert forall r :: r in s.released ==> r in t.released;
    assert forall r :: r in p.released ==> r in t.released;
    forall k | k in pool
      ensures Placed(t, k) && Arrival(k, pool[k]) in before + [a]
    {
      assert Arrival(k, pool[k]).u == k;
    }
  }

  /** At most DEPTH - 1 packets are ever held between arrivals. */
  lemma HeldBound(g: Ideal)
    requires Settled(g) && g.Live?
    ensures |g.held| <= DEPTH - 1
  {
    var room := {g.awaited + 1, g.awaited + 2, g.awaited + 3};
    assert g.held.Keys <= room;
    SubsetSize(g.held.Keys, room);
    assert |g.held| == |g.held.Keys|;
  }

  lemma {:induction false} SubsetSize(a: set<nat>, b: set<nat>)
    requires a <= b
    ensures |a| <= |b|
  {
    if a != {} {
      var x :| x in a;
      SubsetSize(a - {x}, b - {x});
    }
  }

  /** The awaited packet is released at once, and with nothing held it is the whole release. */
  lemma InOrderAtOnce(g: Ideal, a: Arrival)
    requires g.Live? && Settled(g) && a.u == g.awaited
    ensures var s := IdealAccept(g, a);
            && s.released != [] && s.released[0] == a
            && (g.held == map[] ==> s == Step(Live(a.u + 1, map[]), [a]))
  {
    DrainFirst(a.u, g.held[a.u := a.pkt]);
    if g.held == map[] {
      assert map[a.u := a.pkt] - {a.u} == map[];
    }
  }

  // ---- A network that never lets a packet fall four behind ----

  ghost predicate Arrived(arrivals: seq<Arrival>, v: nat) {
    exists i :: 0 <= i < |arrivals| && arrivals[i].u == v
  }

  /** When a packet arrives, every packet four or more before it, back to the first, has arrived. */
  ghost predicate Timely(arrivals: seq<Arrival>) {
    forall j, v: nat :: 0 <= j < |arrivals| && arrivals[0].u <= v && v + DEPTH <= arrivals[j].u ==>
      Arrived(arrivals[..j], v)
  }

  predicate Contiguous(first: nat, rs: seq<Arrival>) {
    forall i :: 0 <= i < |rs| ==> rs[i].u == first + i
  }

  /** Everything from `first` up to what is awaited is out, and what else arrived is held. */
  ghost predicate Complete(first: nat, s: Step, arrivals: seq<Arrival>) {
    && s.ideal.Live? && Settled(s.ideal)
    && s.ideal.awaited == first + |s.released| && Contiguous(first, s.released)
    && forall v: nat :: v >= first ==> (Arrived(arrivals, v) <==> v < s.ideal.awaited || v in s.ideal.held)
  }

  lemma ArrivedAppend(before: seq<Arrival>, a: Arrival, v: nat)
    ensures Arrived(before + [a], v) <==> Arrived(before, v) || a.u == v
  {
    var all := before + [a];
    if Arrived(before, v) {
      var i :| 0 <= i < |before| && before[i].u == v;
      assert all[i].u == v;
    }
    if a.u == v { assert all[|before|].u == v; }
  }

  /** A drain of contiguous numbers keeps the record complete. */
  lemma DrainCompletes(first: nat, e: nat, out: seq<Arrival>, held: map<nat, seq<byte>>, arrivals: seq<Arrival>)
    requires first <= e && e == first + |out| && Contiguous(first, out)
    requires forall k :: k in held ==> e <= k < e + DEPTH
    requires forall v: nat :: v >= first ==> (Arrived(arrivals, v) <==> v < e || v in held)
    ensures var s := IdealDrain(e, held); Complete(first, Step(s.ideal, out + s.released), arrivals)
  {
    var n := Unbroken(e, held);
    DrainSpan(e, held, n);
    hide IdealDrain, Arrived;
    forall i | 0 <= i < n
      ensures Span(e, n, held)[i].u == e + i
    {
      SpanAt(e, n, held, i);
    }
    hide Span;
  }

  lemma {:induction false} TimelyStep(p: Step, before: seq<Arrival>, a: Arrival, first: nat)
    requires Complete(first, p, before)
    requires first <= p.ideal.awaited && p.ideal.awaited + DEPTH <= a.u ==> Arrived(before, p.ideal.awaited)
    ensures var s := IdealAccept(p.ideal, a);
            Complete(first, Step(s.ideal, p.released + s.released), before + [a])
  {
    var e, held := p.ideal.awaited, p.ideal.held;
    forall v: nat
      ensures Arrived(before + [a], v) <==> Arrived(before, v) || a.u == v
    {
      ArrivedAppend(before, a, v);
    }
    hide Arrived;
    assert !Arrived(before, e);
    if a.u < e {
      assert p.released + [] == p.released;
    } else {
      DrainCompletes(first, e, p.released, held[a.u := a.pkt], before + [a]);
    }
  }

  lemma TimelyPrefix(arrivals: seq<Arrival>)
    requires Timely(arrivals) && |arrivals| > 1
    ensures Timely(arrivals[..|arrivals| - 1])
  {
    var before := arrivals[..|arrivals| - 1];
    forall j, v: nat | 0 <= j < |before| && before[0].u <= v && v + DEPTH <= before[j].u
      ensures Arrived(before[..j], v)
    {
      assert before[..j] == arrivals[..j];
    }
  }

  lemma TimelyFirst(a: Arrival)
    ensures var s := IdealAccept(Idle, a); Complete(a.u, Step(s.ideal, [] + s.released), [a])
  {
    assert forall v: nat :: Arrived([a], v) <==> v == a.u by {
      assert [a][0] == a;
    }
    DrainCompletes(a.u, a.u, [], map[a.u := a.pkt], [a]);
  }

  /** Then the window releases the sent packets in order without a hole, up to the first not yet arrived. */
  lemma {:induction false} RunTimely(arrivals: seq<Arrival>)
    requires Timely(arrivals) && arrivals != []
    ensures Complete(arrivals[0].u, IdealRun(arrivals), arrivals)
    decreases |arrivals|
  {
    var before, a := arrivals[..|arrivals| - 1], arrivals[|arrivals| - 1];
    var first := arrivals[0].u;
    LastOf(arrivals);
    IdealRunStep(before, a);
    if before == [] {
      IdealRunNone();
      TimelyFirst(a);
    } else {
      TimelyPrefix(arrivals);
      RunTimely(before);
      var p := IdealRun(before);
      assert p.ideal.Live?;
      hide IdealRun, Complete, Timely, Arrived;
      if first <= p.ideal.awaited && p.ideal.awaited + DEPTH <= a.u {
        TimelyLast(arrivals, p.ideal.awaited);
      }
      TimelyStep(p, before, a, first);
    }
  }

  lemma TimelyLast(arrivals: seq<Arrival>, v: nat)
    requires Timely(arrivals) && arrivals != []
    requires arrivals[0].u <= v && v + DEPTH <= arrivals[|arrivals| - 1].u
    ensures Arrived(arrivals[..|arrivals| - 1], v)
  {
  }
}
