/**
 The audio ring the DMA engine reads without end, and the program that fills it, one access to the
 shared memory at a time: 32-bit counters on the program's side, the true counts beside them.
 */
module AudioRing {
  import opened Bytes

  const WORDS: nat := 8192
  const SILENCE: nat := 1024
  const M32: nat := 0x1_0000_0000

  /**
   What the program is doing between two of its accesses: nothing; about to check for an underrun,
   alone or for a write; silencing after one; about to measure the room; storing words; wiping.
   */
  datatype Program =
    | Idle
    | Check(next: Option<seq<u32>>)
    | Silence(done: nat, next: Option<seq<u32>>)
    | Measure(samples: seq<u32>)
    | Store(words: seq<u32>, done: nat)
    | Wipe(done: nat)

  /**
   The ring, the program's counters and what it is doing; then the truth: words the engine has read,
   the position the writer stores to next, the read count at the last poll, the queued words read so
   far, all words ever queued, and whether a poll came a lap late.
   */
  datatype Ring = Ring(buf: seq<u32>, write: u32, last: nat, consumed: u32, prog: Program,
                       t: nat, w: nat, polled: nat, out: seq<u32>, queued: seq<u32>, late: bool)

  function Slot(p: nat): nat { p % WORDS }

  /** The value of a 32-bit word read as signed. */
  function Signed(x: u32): int { if x < 0x8000_0000 then x else x - M32 }

  function Minus(a: int, b: int): u32 { (a - b) % M32 }

  /** The engine reads one word. */
  function Tick(s: Ring): Ring
    requires |s.buf| == WORDS
  {
    s.(t := s.t + 1, out := if s.t < s.w then s.out + [s.buf[Slot(s.t)]] else s.out)
  }

  /** dma_consumed_abs; the ring position is all the hardware shows. */
  function Poll(s: Ring): Ring {
    var now := Slot(s.t);
    s.(consumed := (s.consumed + (now - s.last) % WORDS) % M32, last := now, polled := s.t,
       late := s.late || s.t - s.polled >= WORDS)
  }

  function Lead(s: Ring): int { Signed(Minus(s.write, s.consumed)) }

  /** Down to a whole stereo frame. */
  function Even(x: nat): nat { x - x % 2 }

  /** Each word twice, left and right. */
  function Doubled(words: seq<u32>): (r: seq<u32>)
    ensures |r| == 2 * |words|
  {
    if words == [] then [] else Doubled(words[..|words| - 1]) + [words[|words| - 1], words[|words| - 1]]
  }

  /** Frames there is room for. */
  function Room(s: Ring): nat { Minus(WORDS - 1, Lead(s) % M32) / 2 }

  function Taken(s: Ring, n: nat): nat { if n > Room(s) then Room(s) else n }

  /** After the underrun check: back, or on to the write it was made for. */
  function Checked(samples: Option<seq<u32>>): Program {
    match samples case None => Idle case Some(x) => Measure(x)
  }

  /** A word stored where the writer stands; it will be played if the engine has not passed that place. */
  function StoreWord(s: Ring, at: nat, x: u32): Ring
    requires |s.buf| == WORDS
  {
    s.(buf := s.buf[Slot(at) := x], w := s.w + 1, queued := if s.t <= s.w then s.queued + [x] else s.queued)
  }

  /** The program's next access. */
  function Go(s: Ring): (r: Ring)
    requires |s.buf| == WORDS
    ensures |r.buf| == WORDS && r.t == s.t
  {
    match s.prog
    case Idle => s
    case Check(k) => s.(prog := if Lead(s) >= 0 then Checked(k) else Silence(0, k))
    case Silence(i, k) =>
      if i < SILENCE then s.(buf := s.buf[Slot(Slot(s.consumed) + i) := 0], prog := Silence(i + 1, k))
      else s.(write := Even(s.consumed), w := Even(s.polled), prog := Checked(k))
    case Measure(x) => s.(prog := Store(Doubled(x[..Taken(s, |x|)]), 0))
    case Store(ws, i) =>
      if i < |ws| then StoreWord(s, s.write + i, ws[i]).(prog := Store(ws, i + 1))
      else s.(write := (s.write + |ws|) % M32, prog := Idle)
    case Wipe(i) =>
      if i < WORDS then s.(buf := s.buf[i := 0], prog := Wipe(i + 1))
      else
        var p := Poll(s);
        p.(write := Even(p.consumed), w := Even(p.t), prog := Idle)
  }

  /** The engine reads, or the program starts one of its calls, or goes on with it. */
  datatype Step = Dma | Query | Recover | Feed(samples: seq<u32>) | Restart | Continue

  /** A wipe gives up what is queued; an empty write does nothing at all. */
  function Next(s: Ring, step: Step): (r: Ring)
    requires |s.buf| == WORDS
    ensures |r.buf| == WORDS
  {
    match step
    case Dma => Tick(s)
    case Query => if s.prog.Idle? then Poll(s) else s
    case Recover => if s.prog.Idle? then Poll(s).(prog := Check(None)) else s
    case Feed(x) => if s.prog.Idle? && x != [] then Poll(s).(prog := Check(Some(x))) else s
    case Restart => if s.prog.Idle? then s.(prog := Wipe(0), w := 0, queued := s.out) else s
    case Continue => Go(s)
  }

  function Silent(n: nat): seq<u32> { seq(n, i => 0) }

  function Start(): Ring { Ring(Silent(WORDS), 0, 0, 0, Idle, 0, 0, 0, [], [], false) }

  function Run(s: Ring, steps: seq<Step>): (r: Ring)
    requires |s.buf| == WORDS
    ensures |r.buf| == WORDS
    decreases |steps|
  {
    if steps == [] then s else Next(Run(s, steps[..|steps| - 1]), steps[|steps| - 1])
  }

  // ---- What holds ----

  /** Queued words not read yet. */
  function Waiting(s: Ring): nat { if s.w > s.t then s.w - s.t else 0 }

  function At(buf: seq<u32>, p: nat): u32
    requires |buf| == WORDS
  {
    buf[Slot(p)]
  }

  /** Words stored since the published counter was last set. */
  function Stored(s: Ring): nat { if s.prog.Store? then s.prog.done else 0 }

  ghost predicate Counters(s: Ring) {
    && |s.buf| == WORDS && s.consumed == s.polled % M32 && s.last == Slot(s.polled) && s.polled <= s.t
    && s.w <= s.polled + WORDS - 1
    && (!s.prog.Wipe? ==> Stored(s) <= s.w && s.write == (s.w - Stored(s)) % M32)
    && match s.prog
       case Silence(i, _) => i <= SILENCE && s.w <= s.t
       case Store(ws, i) => i <= |ws| && s.w - i + |ws| <= s.polled + WORDS - 1
       case Wipe(i) => i <= WORDS && s.w <= s.t
       case _ => true
  }

  /** What was read, and what waits in the ring, are the words queued, in order. */
  ghost predicate Contents(s: Ring)
    requires |s.buf| == WORDS
  {
    && |s.queued| == |s.out| + Waiting(s) && s.out <= s.queued
    && forall p :: s.t <= p < s.t + Waiting(s) ==> At(s.buf, p) == s.queued[|s.out| + p - s.t]
  }

  ghost predicate Inv(s: Ring) { |s.buf| == WORDS && (!s.late ==> Counters(s) && Contents(s)) }

  lemma SlotOfWrapped(p: nat)
    ensures Slot(p % M32) == Slot(p)
  {
    var q := p / M32;
    assert p == p % M32 + WORDS * (524288 * q);
    RingPeriod(p % M32, 524288 * q, WORDS);
    hide Slot;
  }

  lemma EvenWrapped(p: nat)
    ensures Even(p % M32) == Even(p) % M32
  {
    var q := p / M32;
    assert p == p % M32 + 2 * (2147483648 * q);
    TwoPeriod(p % M32, 2147483648 * q);
    assert Even(p) == Even(p % M32) + M32 * q;
    RingPeriod(Even(p % M32), q, M32);
  }

  lemma {:induction false} TwoPeriod(a: nat, k: nat)
    ensures (a + 2 * k) % 2 == a % 2
  {
    if k > 0 {
      TwoPeriod(a, k - 1);
      assert a + 2 * k == a + 2 * (k - 1) + 2;
    }
  }

  lemma SlotAdds(p: nat, i: nat)
    ensures Slot(Slot(p) + i) == Slot(p + i)
  {
    RingAdds(p, i, WORDS);
  }

  lemma SlotsDiffer(p: nat, q: nat)
    requires p < q < p + WORDS
    ensures Slot(p) != Slot(q)
  {
  }

  /** Less than a lap on, the two ring positions tell the exact distance. */
  lemma Distance(from: nat, to: nat)
    requires from <= to < from + WORDS
    ensures (Slot(to) - Slot(from)) % WORDS == to - from
  {
  }

  lemma WrapAdd(p: nat, d: nat)
    ensures (p % M32 + d) % M32 == (p + d) % M32
  {
    var q := p / M32;
    assert p + d == p % M32 + d + M32 * q;
    RingPeriod(p % M32 + d, q, M32);
  }

  lemma PolledExactly(polled: nat, t: nat)
    requires polled <= t < polled + WORDS
    ensures (polled % M32 + (Slot(t) - Slot(polled)) % WORDS) % M32 == t % M32
  {
    Distance(polled, t);
    WrapAdd(polled, t - polled);
    hide Slot;
  }

  lemma SignedDifference(a: nat, b: nat)
    requires -0x8000_0000 <= a - b < 0x8000_0000
    ensures Signed(Minus(a % M32, b % M32)) == a - b
  {
    var p, q := a / M32, b / M32;
    assert a % M32 - b % M32 == a - b - M32 * (p - q);
    MinusWrapped(a, b);
  }

  lemma MinusWrapped(a: nat, b: nat)
    ensures Minus(a % M32, b % M32) == Minus(a, b)
  {
    var p, q := a / M32, b / M32;
    assert a - b == a % M32 - b % M32 + M32 * (p - q);
    ModShift(a % M32 - b % M32, p - q);
  }

  lemma ModShift(x: int, k: int)
    ensures (x + M32 * k) % M32 == x % M32
  {
    if k >= 0 { ModShiftUp(x, k); } else { ModShiftUp(x + M32 * k, -k); }
  }

  lemma {:induction false} ModShiftUp(x: int, k: nat)
    ensures (x + M32 * k) % M32 == x % M32
  {
    if k > 0 {
      ModShiftUp(x, k - 1);
      assert x + M32 * k == x + M32 * (k - 1) + M32;
    }
  }

  /** Polled in time, the program's count of words read is the true one, to 32 bits. */
  lemma PollKeeps(s: Ring)
    requires Inv(s) && (s.prog.Idle? || s.prog.Wipe?)
    ensures var r := Poll(s); Inv(r) && r.polled == r.t && (!r.late ==> r.consumed == r.t % M32)
  {
    hide Slot;
    if !Poll(s).late { PolledExactly(s.polled, s.t); }
  }

  lemma TickKeeps(s: Ring)
    requires Inv(s)
    ensures Inv(Tick(s))
  {
    hide Slot;
    var r := Tick(s);
    if !s.late {
      if s.t < s.w { assert At(s.buf, s.t) == s.queued[|s.out|]; }
      forall p | r.t <= p < r.t + Waiting(r) ensures At(r.buf, p) == r.queued[|r.out| + p - r.t] { }
    }
  }

  /** The two counters tell the true lead, as long as the writer is not 2^31 words behind. */
  lemma LeadIsTrue(s: Ring)
    requires Sound(s) && !s.prog.Store? && !s.prog.Wipe? && s.polled - s.w <= 0x8000_0000
    ensures Lead(s) == s.w - s.polled
  {
    SignedDifference(s.w, s.polled);
    hide Signed, Minus, Slot;
  }

  // ---- Every step keeps it ----

  ghost predicate Sound(s: Ring) { |s.buf| == WORDS && Counters(s) && Contents(s) }

  /** Before a recovery nothing waits: with words waiting the lead is positive. */
  lemma CheckKeeps(s: Ring)
    requires Sound(s) && s.prog.Check?
    ensures Sound(Go(s))
  {
    if s.w > s.t { LeadIsTrue(s); }
    hide Slot, Lead;
  }

  lemma SilenceKeeps(s: Ring)
    requires Sound(s) && s.prog.Silence?
    ensures Sound(Go(s))
  {
    EvenWrapped(s.polled);
    hide Slot;
  }

  /** The room is at most what the ring has, however far behind the writer is. */
  lemma RoomFits(s: Ring)
    requires Sound(s) && s.prog.Measure?
    ensures s.w + 2 * Room(s) <= s.polled + WORDS - 1
  {
    MinusWrapped(s.w, s.polled);
    var lead := s.w - s.polled;
    assert Minus(s.write, s.consumed) == lead % M32;
    SignedBack(Minus(s.write, s.consumed));
    var q := lead / M32;
    assert WORDS - 1 - lead % M32 == WORDS - 1 - lead + M32 * q;
    ModShift(WORDS - 1 - lead, q);
    ModAtMost(WORDS - 1 - lead);
    hide Signed, Slot;
  }

  lemma SignedBack(x: u32)
    ensures Signed(x) % M32 == x
  {
  }

  lemma ModAtMost(x: nat)
    ensures x % M32 <= x
  {
  }

  lemma MeasureKeeps(s: Ring)
    requires Sound(s) && s.prog.Measure?
    ensures Sound(Go(s))
  {
    RoomFits(s);
    hide Slot, Room, Doubled;
  }

  /** The word goes where the true position says. */
  lemma StoreSlot(s: Ring)
    requires Sound(s) && s.prog.Store?
    ensures Slot(s.write + s.prog.done) == Slot(s.w)
  {
    var p := s.w - s.prog.done;
    SlotOfWrapped(p);
    SlotAdds(s.write, s.prog.done);
    SlotAdds(p, s.prog.done);
    hide Slot;
  }

  /** No word that waits is stored over. */
  lemma StoreKeeps(s: Ring)
    requires Sound(s) && s.prog.Store? && s.prog.done < |s.prog.words|
    ensures Sound(Go(s))
  {
    var r := Go(s);
    StoreSlot(s);
    hide Slot;
    forall p | r.t <= p < r.t + Waiting(r) ensures At(r.buf, p) == r.queued[|r.out| + p - r.t] {
      if p < s.w {
        SlotsDiffer(p, s.w);
        assert At(r.buf, p) == At(s.buf, p);
      }
    }
  }

  lemma PublishKeeps(s: Ring)
    requires Sound(s) && s.prog.Store? && s.prog.done >= |s.prog.words|
    ensures Sound(Go(s))
  {
    WrapAdd(s.w - s.prog.done, s.prog.done);
    hide Slot;
  }

  lemma WipeKeeps(s: Ring)
    requires Inv(s) && s.prog.Wipe?
    ensures Inv(Go(s))
  {
    PollKeeps(s);
    EvenWrapped(s.t);
    hide Slot;
  }

  lemma GoKeeps(s: Ring)
    requires Inv(s)
    ensures Inv(Go(s))
  {
    hide Counters, Contents, Slot, Poll, Lead, Room, Even;
    if s.prog.Wipe? { WipeKeeps(s); }
    else if !s.late {
      match s.prog
      case Check(_) => CheckKeeps(s);
      case Silence(_, _) => SilenceKeeps(s);
      case Measure(_) => MeasureKeeps(s);
      case Store(ws, i) => if i < |ws| { StoreKeeps(s); } else { PublishKeeps(s); }
      case _ =>
    }
  }

  lemma StartKeeps()
    ensures Inv(Start())
  {
  }

  lemma NextKeeps(s: Ring, step: Step)
    requires Inv(s)
    ensures Inv(Next(s, step))
  {
    match step
    case Dma => TickKeeps(s);
    case Continue => GoKeeps(s);
    case Restart => hide Slot;
    case _ => if s.prog.Idle? { PollKeeps(s); } hide Slot;
  }

  lemma {:induction false} RunKeeps(s: Ring, steps: seq<Step>)
    requires Inv(s)
    ensures Inv(Run(s, steps))
    decreases |steps|
  {
    hide Counters, Contents, Next;
    if steps != [] {
      RunKeeps(s, steps[..|steps| - 1]);
      NextKeeps(Run(s, steps[..|steps| - 1]), steps[|steps| - 1]);
    }
  }

  /**
   However the engine and the program interleave, and as long as a poll comes in every lap: what was
   read of the words queued is the first of them, in order, and the others wait unharmed in the
   ring; the writer is never a whole lap ahead of the reader.
   */
  lemma QueuedWordsArePlayed(steps: seq<Step>)
    ensures var r := Run(Start(), steps);
            !r.late ==>
              && r.out <= r.queued && |r.queued| == |r.out| + Waiting(r) && r.w <= r.t + WORDS - 1
              && forall p :: r.t <= p < r.t + Waiting(r) ==> At(r.buf, p) == r.queued[|r.out| + p - r.t]
  {
    StartKeeps();
    RunKeeps(Start(), steps);
    hide Run, Start, At, Go, Next, Tick, Slot, Silent;
  }

  /** Words are queued at the end only, and none is given up but by a wipe. */
  lemma QueueGrows(s: Ring, step: Step)
    requires |s.buf| == WORDS
    ensures !step.Restart? ==> s.queued <= Next(s, step).queued
    ensures s.out <= Next(s, step).out
  {
    hide Lead, Room, Even, Slot;
  }

  // ---- What a write queues ----

  /** Steps of a call under way: the program's own, with the engine reading between them. */
  predicate Busy(steps: seq<Step>) { forall i :: 0 <= i < |steps| ==> steps[i].Dma? || steps[i].Continue? }

  function Reads(steps: seq<Step>): nat {
    if steps == [] then 0 else Reads(steps[..|steps| - 1]) + if steps[|steps| - 1].Dma? then 1 else 0
  }

  function Turns(steps: seq<Step>): (n: nat)
    ensures n <= |steps|
  {
    if steps == [] then 0 else Turns(steps[..|steps| - 1]) + if steps[|steps| - 1].Continue? then 1 else 0
  }

  /** Words the engine reads before the program's turn `i`. */
  function ReadsBefore(steps: seq<Step>, i: nat): nat
    requires i < Turns(steps)
    decreases |steps|
  {
    var before := steps[..|steps| - 1];
    if i < Turns(before) then ReadsBefore(before, i) else Reads(before)
  }

  /** Word `i` of the write is stored before the engine has passed its place. */
  predicate InTime(s: Ring, steps: seq<Step>, i: nat)
    requires i < Turns(steps)
  {
    s.t + ReadsBefore(steps, i) <= s.w + i
  }

  /** The first `n` words of the write, those too late left out. */
  function Caught(s: Ring, words: seq<u32>, steps: seq<Step>, n: nat): (r: seq<u32>)
    requires n <= |words| && n <= Turns(steps)
    ensures |r| <= n
  {
    if n == 0 then []
    else Caught(s, words, steps, n - 1) + if InTime(s, steps, n - 1) then [words[n - 1]] else []
  }

  /** Words of a write of `total` words stored in `steps`. */
  function Progress(steps: seq<Step>, total: nat): (n: nat)
    ensures n <= total && n <= Turns(steps)
  {
    if Turns(steps) < total then Turns(steps) else total
  }

  lemma {:induction false} CaughtBefore(s: Ring, words: seq<u32>, steps: seq<Step>, n: nat)
    requires steps != [] && n <= |words| && n <= Turns(steps[..|steps| - 1])
    ensures Caught(s, words, steps, n) == Caught(s, words, steps[..|steps| - 1], n)
  {
    if n > 0 { CaughtBefore(s, words, steps, n - 1); }
  }

  /** The ring after `steps` of a write begun at `s`: each word stored in time has been queued, and no other. */
  ghost predicate WroteCaught(s: Ring, steps: seq<Step>, r: Ring)
    requires s.prog.Store?
  {
    var words, n := s.prog.words, Progress(steps, |s.prog.words|);
    && r.prog == (if Turns(steps) <= |words| then Store(words, n) else Idle)
    && r.t == s.t + Reads(steps) && r.w == s.w + n
    && r.queued == s.queued + Caught(s, words, steps, n)
  }

  lemma OneStep(s: Ring, steps: seq<Step>, r: Ring)
    requires s.prog.Store? && Busy(steps) && steps != [] && |r.buf| == WORDS
    requires WroteCaught(s, steps[..|steps| - 1], r)
    ensures WroteCaught(s, steps, Next(r, steps[|steps| - 1]))
  {
    hide Slot, Caught;
    var before, words := steps[..|steps| - 1], s.prog.words;
    var n := Progress(before, |words|);
    CaughtBefore(s, words, steps, n);
    if steps[|steps| - 1].Continue? && n < |words| { CaughtNext(s, words, steps, n); }
  }

  lemma CaughtNext(s: Ring, words: seq<u32>, steps: seq<Step>, n: nat)
    requires steps != [] && n < |words| && n == Turns(steps[..|steps| - 1]) < Turns(steps)
    ensures Caught(s, words, steps, n + 1) == Caught(s, words, steps, n) +
            if s.t + Reads(steps[..|steps| - 1]) <= s.w + n then [words[n]] else []
  {
    hide Reads;
  }

  /** What a write queues, however the engine reads meanwhile: word by word, those stored in time. */
  lemma {:induction false} WriteQueuesCaught(s: Ring, steps: seq<Step>)
    requires |s.buf| == WORDS && s.prog.Store? && s.prog.done == 0 && Busy(steps)
    ensures WroteCaught(s, steps, Run(s, steps))
    decreases |steps|
  {
    hide Next, WroteCaught;
    if steps == [] {
      NothingWritten(s);
    } else {
      var before := steps[..|steps| - 1];
      WriteQueuesCaught(s, before);
      OneStep(s, steps, Run(s, before));
    }
  }

  lemma NothingWritten(s: Ring)
    requires s.prog.Store? && s.prog.done == 0
    ensures WroteCaught(s, [], s)
  {
  }

  lemma {:induction false} CaughtAll(s: Ring, words: seq<u32>, steps: seq<Step>, n: nat)
    requires n <= |words| && n <= Turns(steps)
    ensures |Caught(s, words, steps, n)| == n <==> forall i :: 0 <= i < n ==> InTime(s, steps, i)
    ensures |Caught(s, words, steps, n)| == n ==> Caught(s, words, steps, n) == words[..n]
  {
    hide InTime;
    if n > 0 { CaughtAll(s, words, steps, n - 1); }
  }

  /** Every word stored is queued, in order, exactly if the engine overtakes none of them. */
  lemma WriteQueues(s: Ring, steps: seq<Step>)
    requires |s.buf| == WORDS && s.prog.Store? && s.prog.done == 0 && Busy(steps)
    ensures var n := Progress(steps, |s.prog.words|);
            Run(s, steps).queued == s.queued + s.prog.words[..n] <==> forall i :: 0 <= i < n ==> InTime(s, steps, i)
  {
    hide InTime, Run, Caught;
    WriteQueuesCaught(s, steps);
    var n := Progress(steps, |s.prog.words|);
    CaughtAll(s, s.prog.words, steps, n);
    var c, w := Caught(s, s.prog.words, steps, n), s.prog.words[..n];
    if s.queued + c == s.queued + w { assert |c| == |w|; }
  }

  lemma {:induction false} CaughtFrom(s: Ring, words: seq<u32>, steps: seq<Step>, m: nat, n: nat)
    requires m <= n <= |words| && n <= Turns(steps)
    requires forall i :: 0 <= i < n ==> (InTime(s, steps, i) <==> i >= m)
    ensures Caught(s, words, steps, n) == words[m..n]
    decreases n
  {
    hide InTime;
    if n > m {
      CaughtFrom(s, words, steps, m, n - 1);
    } else if n > 0 {
      CaughtFrom(s, words, steps, n - 1, n - 1);
    }
  }

  /** One word behind the reader, as an odd snap leaves it, a write the engine does not overtake further loses its first word. */
  lemma OddWriteLosesOne(s: Ring, steps: seq<Step>)
    requires |s.buf| == WORDS && s.prog.Store? && s.prog.done == 0 && Busy(steps) && s.t == s.w + 1
    requires var n := Progress(steps, |s.prog.words|); n > 0 && forall i :: 1 <= i < n ==> InTime(s, steps, i)
    ensures Run(s, steps).queued == s.queued + s.prog.words[1..Progress(steps, |s.prog.words|)]
  {
    hide Run, Caught;
    WriteQueuesCaught(s, steps);
    CaughtFrom(s, s.prog.words, steps, 1, Progress(steps, |s.prog.words|));
  }

  /** Words stored behind the reader are not queued: the engine has passed their place. */
  lemma WriteBehind(s: Ring, steps: seq<Step>)
    requires |s.buf| == WORDS && s.prog.Store? && s.prog.done == 0 && Busy(steps) && s.w + |s.prog.words| <= s.t
    ensures Run(s, steps).queued == s.queued
  {
    hide Run, Caught;
    WriteQueuesCaught(s, steps);
    var n := Progress(steps, |s.prog.words|);
    CaughtFrom(s, s.prog.words, steps, n, n);
  }

  // ---- The underrun check ----

  /** The snap leaves the lead negative exactly where the count read is odd. */
  lemma OddSnap(s: Ring)
    requires Sound(s) && s.prog.Silence? && s.prog.done == SILENCE
    ensures Lead(Go(s)) == -(s.polled % 2) && (Lead(Go(s)) < 0 <==> s.polled % 2 == 1)
  {
    EvenWrapped(s.polled);
    SignedDifference(Even(s.polled), s.polled);
    hide Slot, Signed, Minus;
  }

  /** The check recovers exactly from a gap that shows, to 32 bits, as at most 2^31 words. */
  lemma IdleTooLong(s: Ring)
    requires Sound(s) && s.prog.Check?
    ensures Go(s).prog.Silence? <==> 0 < (s.polled - s.w) % M32 <= 0x8000_0000
  {
    MinusWrapped(s.w, s.polled);
    Opposite(s.polled - s.w);
    hide Slot;
  }

  lemma Opposite(gap: int)
    ensures -gap % M32 == if gap % M32 == 0 then 0 else M32 - gap % M32
  {
    var g, q := gap % M32, gap / M32;
    assert -gap == -g + M32 * -q;
    ModShift(-g, -q);
  }

  /** The write then goes where the engine has been, and nothing of it is heard. */
  lemma IdleTooLongIsLost(s: Ring, steps: seq<Step>)
    requires Sound(s) && s.prog.Check? && s.prog.next.Some?
    requires !(0 < (s.polled - s.w) % M32 <= 0x8000_0000) && 2 * |s.prog.next.value| <= s.polled - s.w && Busy(steps)
    ensures Run(Go(Go(s)), steps).queued == s.queued
  {
    IdleTooLong(s);
    CheckKeeps(s);
    MeasureKeeps(Go(s));
    WriteBehind(Go(Go(s)), steps);
    hide Slot, Lead, Room, Run;
  }

  // ---- A call from its start to its end ----

  function LeftOf(next: Option<seq<u32>>): nat { if next.Some? then 2 + 2 * |next.value| else 0 }

  /** A bound on the accesses a call still has ahead of it. */
  function Left(p: Program): nat {
    match p
    case Idle => 0
    case Check(k) => SILENCE + 2 + LeftOf(k)
    case Silence(i, k) => (if i < SILENCE then SILENCE - i else 0) + 1 + LeftOf(k)
    case Measure(x) => LeftOf(Some(x))
    case Store(ws, i) => 1 + if i < |ws| then |ws| - i else 0
    case Wipe(i) => 1 + if i < WORDS then WORDS - i else 0
  }

  function Ticks(s: Ring, n: nat): (r: Ring)
    requires |s.buf| == WORDS
    ensures |r.buf| == WORDS && r.prog == s.prog
  {
    if n == 0 then s else Tick(Ticks(s, n - 1))
  }

  lemma GoShortens(s: Ring)
    requires |s.buf| == WORDS && !s.prog.Idle?
    ensures Left(Go(s).prog) < Left(s.prog)
  {
    hide Slot, Lead, Room, Doubled, Even, Poll;
  }

  /** The call under way to its end, while the engine reads pace(k) words after its access `k`. */
  function Play(s: Ring, pace: nat -> nat, k: nat): (r: Ring)
    requires |s.buf| == WORDS
    ensures |r.buf| == WORDS && r.prog.Idle?
    decreases Left(s.prog)
  {
    if s.prog.Idle? then s
    else
      GoShortens(s);
      Play(Ticks(Go(s), pace(k)), pace, k + 1)
  }

  lemma {:induction false} RunAppend(s: Ring, a: seq<Step>, b: seq<Step>)
    requires |s.buf| == WORDS
    ensures Run(s, a + b) == Run(Run(s, a), b)
    decreases |b|
  {
    hide Next;
    if b == [] { assert a + b == a; }
    else {
      assert (a + b)[..|a + b| - 1] == a + b[..|b| - 1];
      RunAppend(s, a, b[..|b| - 1]);
    }
  }

  lemma {:induction false} TicksRun(s: Ring, n: nat)
    requires |s.buf| == WORDS
    ensures Run(s, seq(n, _ => Dma)) == Ticks(s, n)
  {
    hide Tick;
    if n > 0 {
      TicksRun(s, n - 1);
      assert seq(n, _ => Dma)[..n - 1] == seq(n - 1, _ => Dma);
    }
  }

  /** So a call is a run of the machine, and what holds of runs holds of it. */
  lemma {:induction false} PlayIsRun(s: Ring, pace: nat -> nat, k: nat) returns (steps: seq<Step>)
    requires |s.buf| == WORDS
    ensures Play(s, pace, k) == Run(s, steps) && Busy(steps)
    decreases Left(s.prog)
  {
    hide Go, Tick;
    if s.prog.Idle? { return []; }
    GoShortens(s);
    var g := Go(s);
    var rest := PlayIsRun(Ticks(g, pace(k)), pace, k + 1);
    var dmas := seq(pace(k), _ => Dma);
    TicksRun(g, pace(k));
    RunAppend(s, [Continue], dmas);
    RunAppend(s, [Continue] + dmas, rest);
    assert Run(s, [Continue]) == g by { assert Run(s, []) == s; }
    return [Continue] + dmas + rest;
  }

  lemma PlayKeeps(s: Ring, pace: nat -> nat, k: nat)
    requires Inv(s)
    ensures Inv(Play(s, pace, k))
  {
    var steps := PlayIsRun(s, pace, k);
    RunKeeps(s, steps);
    hide Counters, Contents, Play, Run;
  }

  /** Samples a write will report: fixed by the poll, however the engine reads meanwhile. */
  function Reports(s: Ring, samples: seq<u32>): nat {
    Taken(if Lead(s) < 0 then s.(write := Even(s.consumed)) else s, |samples|)
  }

  // ---- A run on which the snap leaves the lead negative ----

  function Still(k: nat): nat { 0 }

  lemma {:induction false} SilenceEnds(s: Ring, n: nat, k: nat)
    requires |s.buf| == WORDS && n <= SILENCE && s.prog == Silence(SILENCE - n, None)
    ensures var r := Play(s, Still, k);
            r == s.(buf := r.buf, write := Even(s.consumed), w := Even(s.polled), prog := Idle)
    decreases n
  {
    hide Slot, Even;
    if n > 0 { SilenceEnds(Go(s), n - 1, k + 1); }
  }

  /** One word read, then a recovery asked for. */
  function OddCheck(): Ring { Ring(Silent(WORDS), 0, 1, 1, Check(None), 1, 0, 1, [], [], false) }

  lemma OddCheckReached()
    ensures Run(Start(), [Dma, Recover]) == OddCheck()
  {
    var a := Start().(t := 1);
    assert Next(Start(), Dma) == a;
    assert Next(a, Recover) == OddCheck();
    hide Next, Start, Silent, OddCheck;
    assert [Dma, Recover][..1] == [Dma] && [Dma][..0] == [];
    assert Run(Start(), []) == Start();
    assert Run(Start(), [Dma]) == a;
  }

  lemma OddCheckEnds()
    ensures var r := Play(OddCheck(), Still, 0); !r.late && r.t == 1 && Lead(r) == -1
  {
    var g := OddCheck().(prog := Silence(0, None));
    assert Go(OddCheck()) == g by { hide Silent; }
    hide Go, Silent;
    SilenceEnds(g, SILENCE, 1);
    var r := Play(g, Still, 1);
    assert r.write == 0 && r.consumed == 1;
    assert Play(OddCheck(), Still, 0) == r;
  }

  lemma OddSnapReached() returns (steps: seq<Step>)
    ensures var r := Run(Start(), steps); !r.late && r.prog.Idle? && r.t == 1 && Lead(r) == -1
  {
    OddCheckReached();
    OddCheckEnds();
    hide Run, Play, Silent, Go, Next, Lead;
    var rest := PlayIsRun(OddCheck(), Still, 0);
    RunAppend(Start(), [Dma, Recover], rest);
    return [Dma, Recover] + rest;
  }
}
