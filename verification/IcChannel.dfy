/**
 One direction of the bus as each core runs it: whole calls on the ring's memory and counters, tied
 to the step machine whose interleavings `IcRing` is about.
 */
module IcChannel {
  import opened Bytes
  import opened IcRing

  /** `src` laid into the ring from offset `off` on, wrapping at the end. */
  function Written(buf: seq<byte>, off: nat, src: seq<byte>): (r: seq<byte>)
    requires |buf| == SIZE
    ensures |r| == SIZE
    decreases |src|
  {
    if src == [] then buf
    else Written(buf, off, src[..|src| - 1])[Slot(off + |src| - 1) := src[|src| - 1]]
  }

  /** Where the bytes land and what stays, for anything that fits the ring. */
  lemma {:induction false} WrittenAt(buf: seq<byte>, off: nat, src: seq<byte>, j: nat)
    requires |buf| == SIZE && off < SIZE && |src| <= SIZE && j < SIZE
    ensures Written(buf, off, src)[j] ==
            if off <= j < off + |src| then src[j - off]
            else if j + SIZE < off + |src| then src[j + SIZE - off]
            else buf[j]
    decreases |src|
  {
    if src != [] {
      WrittenAt(buf, off, src[..|src| - 1], j);
    }
  }

  /** Two memcpys when the range wraps, one when it does not. */
  method RingWrite(buf: array<byte>, off: nat, src: seq<byte>)
    requires buf.Length == SIZE && off < SIZE && |src| <= SIZE
    modifies buf
    ensures buf[..] == Written(old(buf[..]), off, src)
  {
    ghost var s := buf[..];
    if off + |src| <= SIZE {
      Memcpy(buf, off, src);
    } else {
      var first := SIZE - off;
      Memcpy(buf, off, src[..first]);
      Memcpy(buf, 0, src[first..]);
    }
    forall j | 0 <= j < SIZE
      ensures buf[..][j] == Written(s, off, src)[j]
    {
      WrittenAt(s, off, src, j);
    }
  }

  method RingRead(buf: array<byte>, off: nat, n: nat) returns (dst: seq<byte>)
    requires buf.Length == SIZE && off < SIZE && n <= SIZE
    ensures |dst| == n && forall i :: 0 <= i < n ==> dst[i] == buf[Slot(off + i)]
  {
    if off + n <= SIZE {
      dst := buf[off..off + n];
    } else {
      var first := SIZE - off;
      dst := buf[off..] + buf[..n - first];
    }
  }

  // ---- Whole calls, and the steps they stand for ----

  /** ic_send once its waits are over. */
  function SendWhole(l: Link, m: Msg): Link
    requires |l.buf| == SIZE && Sendable(m)
  {
    l.(buf := Written(l.buf, Slot(l.head), Frame(m)), head := AddU32(l.head, Need(m)),
       fifo := l.fifo + [Entry(m.typ, Slot(l.head))], sent := l.sent + [m])
  }

  function Repeat(s: Step, n: nat): (r: seq<Step>)
    ensures |r| == n
  {
    if n == 0 then [] else Repeat(s, n - 1) + [s]
  }

  function SendSteps(m: Msg): seq<Step>
    requires Sendable(m)
  {
    [Send(m), Check] + Repeat(Write, |Frame(m)| + 1) + [Notify]
  }

  lemma {:induction false} RunAppend(l: Link, a: seq<Step>, b: seq<Step>)
    requires |l.buf| == SIZE
    ensures Run(l, a + b) == Run(Run(l, a), b)
    decreases |b|
  {
    hide Next;
    if b == [] {
      assert a + b == a;
    } else {
      assert (a + b)[..|a + b| - 1] == a + b[..|b| - 1];
      RunAppend(l, a, b[..|b| - 1]);
    }
  }

  lemma RunOne(l: Link, s: Step)
    requires |l.buf| == SIZE
    ensures Run(l, [s]) == Next(l, s)
  {
    hide Next;
    assert [s][..0] == [];
    assert Run(l, [s][..0]) == l;
  }

  lemma {:induction false} WritesWrite(l: Link, m: Msg, n: nat)
    requires |l.buf| == SIZE && l.prod == Writing(m, 0) && Sendable(m) && n <= |Frame(m)|
    ensures Run(l, Repeat(Write, n)) == l.(buf := Written(l.buf, Slot(l.head), Frame(m)[..n]), prod := Writing(m, n))
    decreases n
  {
    hide Frame, Slot, Run, Next, Written, Repeat;
    WritesNone(l, m);
    if n > 0 {
      WritesWrite(l, m, n - 1);
      WritesOneMore(l, n - 1);
      WriteStep(l, m, Written(l.buf, Slot(l.head), Frame(m)[..n - 1]), n - 1);
      WrittenGrows(l.buf, Slot(l.head), Frame(m), n - 1);
    }
  }

  lemma WritesNone(l: Link, m: Msg)
    requires |l.buf| == SIZE && l.prod == Writing(m, 0) && Sendable(m)
    ensures Run(l, Repeat(Write, 0)) == l.(buf := Written(l.buf, Slot(l.head), Frame(m)[..0]), prod := Writing(m, 0))
  {
    hide Frame, Slot;
  }

  lemma WritesOneMore(l: Link, n: nat)
    requires |l.buf| == SIZE
    ensures Run(l, Repeat(Write, n + 1)) == Next(Run(l, Repeat(Write, n)), Write)
  {
    hide Next, Run;
    RunAppend(l, Repeat(Write, n), [Write]);
    RunOne(Run(l, Repeat(Write, n)), Write);
  }

  lemma WriteStep(l: Link, m: Msg, buf: seq<byte>, k: nat)
    requires |buf| == SIZE && Sendable(m) && k < |Frame(m)|
    ensures Next(l.(buf := buf, prod := Writing(m, k)), Write) ==
            l.(buf := buf[Slot(Slot(l.head) + k) := Frame(m)[k]], prod := Writing(m, k + 1))
  {
    hide Slot;
  }

  lemma WrittenGrows(buf: seq<byte>, off: nat, src: seq<byte>, k: nat)
    requires |buf| == SIZE && k < |src|
    ensures Written(buf, off, src[..k + 1]) == Written(buf, off, src[..k])[Slot(off + k) := src[k]]
  {
    hide Slot;
    assert src[..k + 1][..k] == src[..k];
  }

  lemma SendBegins(l: Link, m: Msg)
    requires |l.buf| == SIZE && l.prod.Idle? && Sendable(m) && Free(l) >= Need(m)
    ensures Run(l, [Send(m), Check]) == l.(sent := l.sent + [m], prod := Writing(m, 0))
  {
    RunOne(l, Send(m));
    RunOne(Next(l, Send(m)), Check);
    RunAppend(l, [Send(m)], [Check]);
    assert [Send(m)] + [Check] == [Send(m), Check];
    hide Run, Need;
  }

  lemma SendEnds(l: Link, m: Msg)
    requires |l.buf| == SIZE && Sendable(m) && l.prod == Writing(m, |Frame(m)|) && |l.fifo| < FIFO_SLOTS
    ensures Run(l, [Write, Notify]) ==
            l.(head := AddU32(l.head, Need(m)), fifo := l.fifo + [Entry(m.typ, Slot(l.head))], prod := Idle)
  {
    RunOne(l, Write);
    RunOne(Next(l, Write), Notify);
    RunAppend(l, [Write], [Notify]);
    assert [Write] + [Notify] == [Write, Notify];
    hide Run, Need, AddU32, Slot;
  }

  /** A whole send is the producer's steps run without interruption. */
  lemma SendIsSteps(l: Link, m: Msg)
    requires |l.buf| == SIZE && l.prod.Idle? && Sendable(m) && Free(l) >= Need(m) && |l.fifo| < FIFO_SLOTS
    ensures Run(l, SendSteps(m)) == SendWhole(l, m)
  {
    var f := |Frame(m)|;
    SendBegins(l, m);
    var b := Run(l, [Send(m), Check]);
    WritesWrite(b, m, f);
    assert Frame(m)[..f] == Frame(m);
    SendEnds(Run(b, Repeat(Write, f)), m);
    RunAppend(b, Repeat(Write, f), [Write, Notify]);
    RunAppend(l, [Send(m), Check], Repeat(Write, f) + [Write, Notify]);
    assert SendSteps(m) == [Send(m), Check] + (Repeat(Write, f) + [Write, Notify]);
    hide Run, Frame, Slot, Need, Free, Written, Next, Repeat;
  }

  /** `n` ring bytes from `off` on, wrapping at the end. */
  function Around(buf: seq<byte>, off: nat, n: nat): (r: seq<byte>)
    requires |buf| == SIZE
    ensures |r| == n
  {
    seq(n, i requires 0 <= i < n => buf[Slot(off + i)])
  }

  datatype Recv = Nothing | Mismatch | Got(receipt: Receipt)

  /** What a receive with room for `max` bytes makes of entry `e`. */
  function ReceiptOf(buf: seq<byte>, e: Entry, max: nat): Recv
    requires |buf| == SIZE
  {
    var h := Around(buf, e.off, HEADER);
    if UnHalf(h[0], h[1]) != e.typ then Mismatch
    else
      var len := UnHalf(h[2], h[3]);
      Got(Receipt(e.typ, len, max, Around(buf, e.off + HEADER, Min(len, max))))
  }

  /** ic_try_recv, whole. */
  function RecvWhole(l: Link, max: nat): (Link, Recv)
    requires |l.buf| == SIZE
  {
    match TakeEntry(l)
    case None => (l, Nothing)
    case Some((e, l1)) =>
      match ReceiptOf(l.buf, e, max)
      case Got(r) =>
        (l1.(tail := AddU32(l.tail, HEADER + Align(r.length)), got := l.got + [r]), Got(r))
      case _ => (l1.(mismatches := l.mismatches + 1), Mismatch)
  }

  lemma AroundGrows(buf: seq<byte>, off: nat, n: nat)
    requires |buf| == SIZE
    ensures Around(buf, off, n + 1) == Around(buf, off, n) + [buf[Slot(off + n)]]
    ensures Around(buf, off, 0) == []
  {
  }

  lemma ReadsNone(l: Link)
    requires |l.buf| == SIZE
    ensures Run(l, Repeat(Read, 0)) == l
  {
  }

  lemma ReadsOne(l: Link, n: nat)
    requires |l.buf| == SIZE
    ensures Run(l, Repeat(Read, n + 1)) == Next(Run(l, Repeat(Read, n)), Read)
  {
    hide Next, Run;
    RunAppend(l, Repeat(Read, n), [Read]);
    RunOne(Run(l, Repeat(Read, n)), Read);
  }

  lemma HeaderStep(l: Link, e: Entry, max: nat, h: seq<byte>)
    requires |l.buf| == SIZE && l.cons == ReadingHeader(e, max, h) && |h| < HEADER
    ensures Next(l, Read) == l.(cons := ReadingHeader(e, max, h + [l.buf[Slot(e.off + |h|)]]))
  {
    hide Slot, UnHalf;
  }

  lemma CopyStep(l: Link, e: Entry, t: u16, len: nat, max: nat, bs: seq<byte>)
    requires |l.buf| == SIZE && l.cons == Copying(e, t, len, max, bs) && |bs| < Min(len, max)
    ensures Next(l, Read) == l.(cons := Copying(e, t, len, max, bs + [l.buf[Slot(e.off + HEADER + |bs|)]]))
  {
    hide Slot, UnHalf;
  }

  lemma {:induction false} HeaderReads(l: Link, n: nat)
    requires |l.buf| == SIZE && l.cons.ReadingHeader? && l.cons.header == [] && n <= HEADER
    ensures Run(l, Repeat(Read, n)) == l.(cons := l.cons.(header := Around(l.buf, l.cons.entry.off, n)))
    decreases n
  {
    hide Around, Slot, Run, Repeat, Next;
    var off := l.cons.entry.off;
    if n == 0 {
      ReadsNone(l);
      AroundGrows(l.buf, off, 0);
    } else {
      HeaderReads(l, n - 1);
      ReadsOne(l, n - 1);
      AroundGrows(l.buf, off, n - 1);
      var h := Around(l.buf, off, n - 1);
      HeaderStep(l.(cons := l.cons.(header := h)), l.cons.entry, l.cons.max, h);
    }
  }

  lemma {:induction false} PayloadReads(l: Link, n: nat)
    requires |l.buf| == SIZE && l.cons.Copying? && l.cons.bytes == [] && n <= Min(l.cons.length, l.cons.max)
    ensures Run(l, Repeat(Read, n)) == l.(cons := l.cons.(bytes := Around(l.buf, l.cons.entry.off + HEADER, n)))
    decreases n
  {
    hide Around, Slot, Run, Repeat, Next;
    var off := l.cons.entry.off + HEADER;
    if n == 0 {
      ReadsNone(l);
      AroundGrows(l.buf, off, 0);
    } else {
      PayloadReads(l, n - 1);
      ReadsOne(l, n - 1);
      AroundGrows(l.buf, off, n - 1);
      var bs := Around(l.buf, off, n - 1);
      CopyStep(l.(cons := l.cons.(bytes := bs)), l.cons.entry, l.cons.typ, l.cons.length, l.cons.max, bs);
    }
  }

  /** Reads a receive makes: the header, then what is copied, each with a step to go on. */
  function ReadsFor(l: Link, max: nat): nat
    requires |l.buf| == SIZE
  {
    match TakeEntry(l)
    case None => 0
    case Some((e, _)) =>
      match ReceiptOf(l.buf, e, max)
      case Got(r) => HEADER + 1 + (Min(r.length, max) + 1)
      case _ => HEADER + 1
  }

  /** A whole receive is the consumer's steps run without interruption, whatever comes of it. */
  lemma RecvIsSteps(l: Link, max: nat)
    requires |l.buf| == SIZE && l.cons.Waiting?
    ensures Run(l, [Receive(max)] + Repeat(Read, ReadsFor(l, max))) == RecvWhole(l, max).0
  {
    hide Run, Next, RecvWhole, ReceiptOf, Repeat, Min;
    if TakeEntry(l).None? {
      NothingTaken(l, max);
    } else {
      RunOne(l, Receive(max));
      HeaderTaken(l, max);
      if ReceiptOf(l.buf, TakeEntry(l).value.0, max).Got? {
        var c := Taking(l, max);
        TakingIs(l, max);
        LengthIs(l, max);
        FinishSteps(l, c, max);
        ReadsAdd(l, Receive(max), HEADER + 1, Min(c.cons.length, max) + 1);
      } else {
        NotNothing(l.buf, TakeEntry(l).value.0, max);
        RunAppend(l, [Receive(max)], Repeat(Read, HEADER + 1));
      }
    }
  }

  lemma NotNothing(buf: seq<byte>, e: Entry, max: nat)
    requires |buf| == SIZE
    ensures !ReceiptOf(buf, e, max).Nothing?
  {
    hide Around, UnHalf;
  }

  lemma LengthIs(l: Link, max: nat)
    requires |l.buf| == SIZE && TakeEntry(l).Some? && ReceiptOf(l.buf, TakeEntry(l).value.0, max).Got?
    ensures ReadsFor(l, max) == HEADER + 1 + (Min(Taking(l, max).cons.length, max) + 1)
  {
    hide Around, UnHalf, Min, TakeEntry, ReceiptOf;
  }

  lemma NothingTaken(l: Link, max: nat)
    requires |l.buf| == SIZE && l.cons.Waiting? && TakeEntry(l).None?
    ensures Run(l, [Receive(max)] + Repeat(Read, 0)) == RecvWhole(l, max).0
  {
    RunOne(l, Receive(max));
    hide Run, TakeEntry;
    assert [Receive(max)] + Repeat(Read, 0) == [Receive(max)];
  }

  lemma ReceiveTakes(l: Link, max: nat)
    requires |l.buf| == SIZE && l.cons.Waiting? && TakeEntry(l).Some?
    ensures TakeEntry(l).value.1.buf == l.buf
    ensures Next(l, Receive(max)) == TakeEntry(l).value.1.(cons := ReadingHeader(TakeEntry(l).value.0, max, []))
  {
  }

  /** The read that finds the header whole: a mismatch ends the receive, otherwise copying begins. */
  lemma HeaderTurn(l: Link, max: nat)
    requires |l.buf| == SIZE && l.cons.Waiting? && TakeEntry(l).Some? && TakeEntry(l).value.1.buf == l.buf
    ensures var (e, l1) := TakeEntry(l).value;
            Next(l1.(cons := ReadingHeader(e, max, Around(l.buf, e.off, HEADER))), Read) ==
            if ReceiptOf(l.buf, e, max).Got? then Taking(l, max) else RecvWhole(l, max).0
  {
    hide Around, UnHalf, AddU32, Align;
  }

  lemma HeaderTaken(l: Link, max: nat)
    requires |l.buf| == SIZE && l.cons.Waiting? && TakeEntry(l).Some?
    ensures Run(Next(l, Receive(max)), Repeat(Read, HEADER + 1)) ==
            if ReceiptOf(l.buf, TakeEntry(l).value.0, max).Got? then Taking(l, max) else RecvWhole(l, max).0
  {
    hide Run, Next, RecvWhole, TakeEntry, ReceiptOf, Repeat, Around, Min, Taking;
    ReceiveTakes(l, max);
    var a := Next(l, Receive(max));
    HeaderReads(a, HEADER);
    ReadsOne(a, HEADER);
    HeaderTurn(l, max);
  }

  /** The consumer once the header has been read: what it will copy. */
  function Taking(l: Link, max: nat): (c: Link)
    requires |l.buf| == SIZE && TakeEntry(l).Some? && ReceiptOf(l.buf, TakeEntry(l).value.0, max).Got?
    ensures c.buf == l.buf
  {
    var (e, l1) := TakeEntry(l).value;
    var r := ReceiptOf(l.buf, e, max).receipt;
    l1.(cons := Copying(e, r.typ, r.length, max, []))
  }

  lemma LastRead(l: Link, max: nat)
    requires |l.buf| == SIZE && l.cons.Waiting? && TakeEntry(l).Some?
    requires ReceiptOf(l.buf, TakeEntry(l).value.0, max).Got?
    ensures var c := Taking(l, max); var k := Min(c.cons.length, max);
            Next(c.(cons := c.cons.(bytes := Around(l.buf, c.cons.entry.off + HEADER, k))), Read) == RecvWhole(l, max).0
  {
    hide Around, UnHalf, AddU32, Align;
  }

  lemma ReadsAdd(l: Link, s: Step, a: nat, b: nat)
    requires |l.buf| == SIZE
    ensures Run(l, [s] + Repeat(Read, a + b)) == Run(Run(Run(l, [s]), Repeat(Read, a)), Repeat(Read, b))
  {
    hide Run, Repeat;
    RepeatSum(Read, a, b);
    RunAppend(Run(l, [s]), Repeat(Read, a), Repeat(Read, b));
    RunAppend(l, [s], Repeat(Read, a + b));
  }

  lemma TakingIs(l: Link, max: nat)
    requires |l.buf| == SIZE && TakeEntry(l).Some? && ReceiptOf(l.buf, TakeEntry(l).value.0, max).Got?
    ensures var c := Taking(l, max); |c.buf| == SIZE && c.cons.Copying? && c.cons.bytes == [] && c.cons.max == max
  {
    hide ReceiptOf;
  }

  lemma FinishSteps(l: Link, c: Link, max: nat)
    requires |l.buf| == SIZE && l.cons.Waiting? && TakeEntry(l).Some?
    requires ReceiptOf(l.buf, TakeEntry(l).value.0, max).Got? && c == Taking(l, max)
    ensures Run(c, Repeat(Read, Min(c.cons.length, max) + 1)) == RecvWhole(l, max).0
  {
    hide Run, Next, RecvWhole, TakeEntry, ReceiptOf, Repeat, Around, Min, Taking;
    TakingIs(l, max);
    var k := Min(c.cons.length, max);
    LastRead(l, max);
    ReadsOne(c, k);
    PayloadReads(c, k);
  }

  lemma {:induction false} RepeatSum(s: Step, a: nat, b: nat)
    ensures Repeat(s, a + b) == Repeat(s, a) + Repeat(s, b)
    decreases b
  {
    if b > 0 { RepeatSum(s, a, b - 1); }
  }

  lemma {:induction false} RunKeepsFrom(l: Link, steps: seq<Step>)
    requires Inv(l)
    ensures Inv(Run(l, steps))
    decreases |steps|
  {
    assert |l.buf| == SIZE;
    hide Inv, Next;
    if steps != [] {
      RunKeepsFrom(l, steps[..|steps| - 1]);
      NextKeeps(Run(l, steps[..|steps| - 1]), steps[|steps| - 1]);
    }
  }

  lemma SendWholeKeeps(l: Link, m: Msg)
    requires Inv(l) && l.prod.Idle? && Sendable(m) && Avail(l) >= Need(m)
    ensures Inv(SendWhole(l, m))
  {
    SendIsSteps(l, m);
    RunKeepsFrom(l, SendSteps(m));
  }

  lemma RecvWholeKeeps(l: Link, max: nat)
    requires Inv(l) && l.cons.Waiting?
    ensures Inv(RecvWhole(l, max).0)
  {
    assert |l.buf| == SIZE;
    hide Inv, RecvWhole;
    RecvIsSteps(l, max);
    RunKeepsFrom(l, [Receive(max)] + Repeat(Read, ReadsFor(l, max)));
  }

  /** A receive with something under way gets exactly the oldest message, cut to the caller's room. */
  lemma RecvGetsOldest(l: Link, max: nat)
    requires Inv(l) && l.cons.Waiting?
    ensures TakeEntry(l).Some? ==>
              var (e, l1) := TakeEntry(l).value;
              && |l.got| < |l.sent| && e.off < SIZE
              && ReceiptOf(l.buf, e, max).Got? && Delivered(ReceiptOf(l.buf, e, max).receipt, l.sent[|l.got|])
              && ReceiptOf(l.buf, e, max).receipt.length <= SIZE - HEADER
  {
    if TakeEntry(l).Some? {
      var a := Next(l, Receive(max));
      NextKeeps(l, Receive(max));
      InHand(a);
      var m, e, at := l.sent[|l.got|], TakeEntry(l).value.0, Pos(l.sent, |l.got|);
      assert Sendable(m);
      FrameReads(m);
      hide Inv, Next, Need, Frame, Pos, Sendable;
      AroundFrame(l.buf, at, m, max);
    }
  }

  lemma HoldsFrom(buf: seq<byte>, at: nat, f: seq<byte>, k: nat, n: nat)
    requires |buf| == SIZE && Holds(buf, at, f) && k + n <= |f|
    ensures Around(buf, Slot(at) + k, n) == f[k..k + n]
  {
    var a, b := Around(buf, Slot(at) + k, n), f[k..k + n];
    forall i | 0 <= i < n
      ensures a[i] == b[i]
    {
      SlotAdds(at, k + i);
      assert buf[Slot(at + (k + i))] == f[k + i];
    }
  }

  lemma AroundFrame(buf: seq<byte>, at: nat, m: Msg, max: nat)
    requires |buf| == SIZE && |m.payload| < 0x1_0000 && Holds(buf, at, Frame(m))
    ensures var r := ReceiptOf(buf, Entry(m.typ, Slot(at)), max); r.Got? && Delivered(r.receipt, m)
  {
    var f, n := Frame(m), Min(|m.payload|, max);
    HoldsFrom(buf, at, f, 0, HEADER);
    HoldsFrom(buf, at, f, HEADER, n);
    FrameReads(m);
    assert f[HEADER..HEADER + n] == m.payload[..n];
    hide Frame, Holds, Slot, Around, UnHalf;
  }

  lemma {:induction false} WrittenTwice(buf: seq<byte>, off: nat, a: seq<byte>, b: seq<byte>)
    requires |buf| == SIZE
    ensures Written(Written(buf, off, a), Slot(off + |a|), b) == Written(buf, off, a + b)
    decreases |b|
  {
    if b == [] {
      assert a + b == a;
    } else {
      var ab := a + b;
      assert ab[..|ab| - 1] == a + b[..|b| - 1];
      WrittenTwice(buf, off, a, b[..|b| - 1]);
      SlotAdds(off + |a|, |b| - 1);
      hide Slot;
    }
  }

  /** The ring of one direction, with the producer's and the consumer's calls run whole. */
  class Channel {
    const buf: array<byte>
    var head: u32
    var tail: u32
    var fifo: seq<Entry>
    var cache: Option<Entry>
    ghost var sent: seq<Msg>
    ghost var got: seq<Receipt>

    ghost predicate Valid()
      reads this, buf
    {
      buf.Length == SIZE && Inv(View())
    }

    ghost function View(): Link
      reads this, buf
    {
      Link(buf[..], head, tail, fifo, cache, Idle, Waiting, sent, got, 0)
    }

    constructor ()
      ensures Valid() && fresh(buf) && View() == Start(buf[..])
    {
      buf := new byte[SIZE](_ => 0);
      head, tail, fifo, cache := 0, 0, [], None;
      sent, got := [], [];
      new;
      StartOk(buf[..]);
    }

    /** ic_send_avail */
    method SendAvail() returns (n: nat)
      requires Valid()
      ensures n == Avail(View())
    {
      hide Inv;
      if |fifo| >= FIFO_SLOTS { return 0; }
      n := (SIZE - (head - tail) % 0x1_0000_0000) % 0x1_0000_0000;
    }

    /** ic_send, called where neither of its two spins would spin. */
    method SendMsg(m: Msg) returns (ret: int)
      requires Valid() && |m.payload| < 0x1_0000
      requires Sendable(m) ==> Avail(View()) >= Need(m)
      modifies this, buf
      ensures Valid()
      ensures if Sendable(m) then ret == 0 && View() == SendWhole(old(View()), m)
              else ret == -1 && View() == old(View())
    {
      hide Inv, Written, Half;
      var need := HEADER + Align(|m.payload|);
      if need > SIZE { return -1; }
      SendWholeKeeps(View(), m);
      var off := head % SIZE;
      WrittenTwice(buf[..], off, Half(m.typ) + Half(|m.payload|), m.payload);
      RingWrite(buf, off, Half(m.typ) + Half(|m.payload|));
      RingWrite(buf, (off + HEADER) % SIZE, m.payload);
      head := AddU32(head, need);
      fifo := fifo + [Entry(m.typ, off)];
      sent := sent + [m];
      ret := 0;
    }

    /** ic_peek_type */
    method PeekType() returns (typ: Option<u16>)
      requires Valid()
      modifies this`fifo, this`cache
      ensures Valid() && View() == Next(old(View()), Peek)
      ensures typ == if cache.Some? then Some(cache.value.typ) else None
    {
      PeekKeeps(View());
      hide Inv;
      if cache.None? {
        if fifo == [] { return None; }
        cache := Some(fifo[0]);
        fifo := fifo[1..];
      }
      typ := Some(cache.value.typ);
    }

    /** Takes the oldest notification: the peeked one if there is one. */
    method TakeFirst() returns (entry: Option<Entry>)
      requires buf.Length == SIZE
      modifies this`fifo, this`cache
      ensures match TakeEntry(old(View()))
              case None => entry.None? && View() == old(View())
              case Some((e, l)) => entry == Some(e) && View() == l
    {
      if cache.Some? {
        entry := cache;
        cache := None;
      } else if fifo == [] {
        entry := None;
      } else {
        entry := Some(fifo[0]);
        fifo := fifo[1..];
      }
    }

    /** The header at `entry` and what of its payload fits `max` bytes. */
    method ReadOut(entry: Entry, max: nat) returns (r: Recv)
      requires buf.Length == SIZE && entry.off < SIZE
      requires var r := ReceiptOf(buf[..], entry, max); r.Got? ==> r.receipt.length <= SIZE
      ensures r == ReceiptOf(buf[..], entry, max)
    {
      var h := RingRead(buf, entry.off, HEADER);
      AroundSlot(buf[..], entry.off, h);
      if UnHalf(h[0], h[1]) != entry.typ { return Mismatch; }
      var length := UnHalf(h[2], h[3]);
      var copied := if length < max then length else max;
      var bytes := RingRead(buf, (entry.off + HEADER) % SIZE, copied);
      AroundSlot(buf[..], entry.off + HEADER, bytes);
      r := Got(Receipt(entry.typ, length, max, bytes));
    }

    /** ic_try_recv: nothing, or the oldest message; never the mismatch return. */
    method TryRecv(max: nat) returns (r: Recv)
      requires Valid()
      modifies this
      ensures Valid() && (View(), r) == RecvWhole(old(View()), max) && r != Mismatch
      ensures r.Got? ==> got == old(got) + [r.receipt] && |old(got)| < |sent| && Delivered(r.receipt, sent[|old(got)|])
    {
      RecvGetsOldest(View(), max);
      RecvWholeKeeps(View(), max);
      hide Inv, Delivered, ReceiptOf, Align;
      r := TakeOldest(max);
    }

    /** The body of ic_try_recv, for a ring whose oldest notification is sound. */
    method TakeOldest(max: nat) returns (r: Recv)
      requires buf.Length == SIZE
      requires match TakeEntry(View())
               case None => true
               case Some((e, l)) =>
                 var q := ReceiptOf(buf[..], e, max); e.off < SIZE && q.Got? && q.receipt.length <= SIZE
      modifies this
      ensures (View(), r) == RecvWhole(old(View()), max) && r != Mismatch && sent == old(sent)
    {
      hide ReceiptOf, Align;
      var entry := TakeFirst();
      if entry.None? { return Nothing; }
      r := ReadOut(entry.value, max);
      if r.Mismatch? { return; }
      tail := AddU32(tail, HEADER + Align(r.receipt.length));
      got := got + [r.receipt];
    }
  }

  lemma AroundSlot(buf: seq<byte>, off: nat, bytes: seq<byte>)
    requires |buf| == SIZE && forall i :: 0 <= i < |bytes| ==> bytes[i] == buf[Slot(Slot(off) + i)]
    ensures bytes == Around(buf, off, |bytes|)
  {
    forall i | 0 <= i < |bytes|
      ensures bytes[i] == Around(buf, off, |bytes|)[i]
    {
      SlotAdds(off, i);
    }
  }
}
