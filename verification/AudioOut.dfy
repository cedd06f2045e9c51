/**
 The ring buffer and the program's three counters, updated in place one access at a time, while the
 engine reads `pace(k)` words after the access numbered `k` of a call.
 */
module AudioOut {
  import opened Bytes
  import opened AudioRing

  class Stream {
    const buf: array<u32>
    var writeAbs: u32
    var lastRingPos: nat
    var consumedAbs: u32
    ghost var prog: Program
    ghost var t: nat
    ghost var w: nat
    ghost var polled: nat
    ghost var out: seq<u32>
    ghost var queued: seq<u32>
    ghost var late: bool

    ghost predicate Valid()
      reads this, buf
    {
      buf.Length == WORDS && Inv(View()) && prog.Idle?
    }

    ghost function View(): Ring
      reads this, buf
    {
      Ring(buf[..], writeAbs, lastRingPos, consumedAbs, prog, t, w, polled, out, queued, late)
    }

    constructor ()
      ensures Valid() && fresh(buf) && View() == Start()
    {
      buf := new u32[WORDS](_ => 0);
      writeAbs, lastRingPos, consumedAbs, prog := 0, 0, 0, Idle;
      t, w, polled, out, queued, late := 0, 0, 0, [], [], false;
      new;
      assert buf[..] == Silent(WORDS);
      StartKeeps();
    }

    /** The engine reads `n` words; the program has no part in it. */
    ghost method Dma(n: nat)
      requires buf.Length == WORDS
      modifies this`t, this`out
      ensures View() == Ticks(old(View()), n) && t == old(t) + n
    {
      if n > 0 {
        Dma(n - 1);
        if t < w { out := out + [buf[..][Slot(t)]]; }
        t := t + 1;
      }
    }

    /** dma_consumed_abs; `pos` is the ring word the hardware says it reads. */
    method ConsumedAbs(pos: nat) returns (r: u32)
      requires buf.Length == WORDS && pos == Slot(t)
      modifies this`consumedAbs, this`lastRingPos, this`polled, this`late
      ensures View() == Poll(old(View())) && r == consumedAbs
    {
      var delta := (pos - lastRingPos) % WORDS;
      consumedAbs := (consumedAbs + delta) % M32;
      lastRingPos := pos;
      late := late || t - polled >= WORDS;
      polled := t;
      r := consumedAbs;
    }

    /** audio_check_underrun, for the count just read. */
    method CheckUnderrun(ghost pace: nat -> nat) returns (under: bool, ghost k: nat)
      requires buf.Length == WORDS && prog.Check?
      modifies this`writeAbs, this`prog, this`t, this`w, this`out, buf
      ensures prog == Checked(old(prog).next) && under == (Lead(old(View())) < 0)
      ensures Play(View(), pace, k) == Play(old(View()), pace, 0)
      ensures consumedAbs == old(consumedAbs) && writeAbs == if under then Even(consumedAbs) else old(writeAbs)
    {
      hide Slot, Even, Play, Ticks;
      ghost var next := prog.next;
      PlayStep(View(), pace, 0);
      var diff := Signed(Minus(writeAbs, consumedAbs));
      under := diff < 0;
      prog := if under then Silence(0, next) else Checked(next);
      assert View() == Go(old(View()));
      Dma(pace(0));
      k := 1;
      if under {
        hide Lead, Signed, Minus, Go;
        k := SilenceAhead(pace, 1);
      }
    }

    /** Silent where the engine reads next, then the writer down to the reader. */
    method SilenceAhead(ghost pace: nat -> nat, ghost first: nat) returns (ghost k: nat)
      requires buf.Length == WORDS && prog.Silence? && prog.done == 0
      modifies this`writeAbs, this`prog, this`t, this`w, this`out, buf
      ensures prog == Checked(old(prog).next) && writeAbs == Even(consumedAbs)
      ensures Play(View(), pace, k) == Play(old(View()), pace, first)
    {
      hide Slot, Play, Ticks;
      k := first;
      for i := 0 to SILENCE
        invariant prog == Silence(i, old(prog).next) && Play(View(), pace, k) == Play(old(View()), pace, first)
      {
        k := ZeroWord(i, pace, k);
      }
      ghost var was := View();
      PlayStep(was, pace, k);
      writeAbs := consumedAbs - consumedAbs % 2;
      w := Even(polled);
      prog := Checked(prog.next);
      assert View() == Go(was);
      Dma(pace(k));
      k := k + 1;
    }

    method ZeroWord(i: nat, ghost pace: nat -> nat, ghost first: nat) returns (ghost k: nat)
      requires buf.Length == WORDS && prog.Silence? && prog.done == i < SILENCE
      modifies this`prog, this`t, this`out, buf
      ensures prog == Silence(i + 1, old(prog).next) && Play(View(), pace, k) == Play(old(View()), pace, first)
    {
      hide Play, Ticks;
      PlayStep(View(), pace, first);
      buf[(consumedAbs % WORDS + i) % WORDS] := 0;
      prog := Silence(i + 1, prog.next);
      assert View() == Go(old(View()));
      Dma(pace(first));
      k := first + 1;
    }

    /** audio_stream_underrun_recover */
    method UnderrunRecover(pos: nat, ghost pace: nat -> nat) returns (under: bool)
      requires Valid() && pos == Slot(t)
      modifies this, buf
      ensures Valid() && View() == Play(Next(old(View()), Recover), pace, 0)
      ensures under == (Lead(Poll(old(View()))) < 0)
    {
      hide Play, Go, Counters, Contents;
      CallKeeps(View(), Recover, pace);
      var r := ConsumedAbs(pos);
      prog := Check(None);
      assert View() == Next(old(View()), Recover);
      ghost var k;
      under, k := CheckUnderrun(pace);
      PlayIdle(View(), pace, k);
    }

    /** audio_stream_write_mono16 on packed samples; reports how many it took. */
    method WriteMono16(pos: nat, samples: seq<u32>, ghost pace: nat -> nat) returns (n: nat)
      requires Valid() && pos == Slot(t)
      modifies this, buf
      ensures Valid() && View() == Play(Next(old(View()), Feed(samples)), pace, 0)
      ensures n == if samples == [] then 0 else Reports(Poll(old(View())), samples)
    {
      hide Play, Go, Counters, Contents, Room, Doubled, Ticks, Slot;
      CallKeeps(View(), Feed(samples), pace);
      if samples == [] {
        PlayIdle(View(), pace, 0);
        return 0;
      }
      var r := ConsumedAbs(pos);
      prog := Check(Some(samples));
      assert View() == Next(old(View()), Feed(samples));
      var under, k := CheckUnderrun(pace);
      n := FreeFrames();
      if n > |samples| { n := |samples|; }
      SameReport(Poll(old(View())), View(), samples);
      StoreFrames(samples, n, pace, k);
    }

    method FreeFrames() returns (n: nat)
      ensures n == Room(View())
    {
      var used := Signed(Minus(writeAbs, consumedAbs)) % M32;
      n := Minus(WORDS - 1, used) / 2;
    }

    /** The loop: each sample into two words; then the counter. */
    method StoreFrames(samples: seq<u32>, n: nat, ghost pace: nat -> nat, ghost first: nat)
      requires buf.Length == WORDS && prog == Measure(samples) && n == Taken(View(), |samples|)
      modifies this`writeAbs, this`prog, this`t, this`w, this`out, this`queued, buf
      ensures View() == Play(old(View()), pace, first)
    {
      hide Play, Doubled, Room;
      ghost var all := Doubled(samples[..n]);
      ghost var k := BeginStore(samples[..n], pace, first);
      var at: nat := writeAbs;
      for i := 0 to n
        invariant writeAbs == old(writeAbs) && at == writeAbs + 2 * i && prog == Store(all, 2 * i)
        invariant Play(View(), pace, k) == Play(old(View()), pace, first)
      {
        DoubledAt(samples[..n], i);
        k := PutFrame(at, samples[i], pace, k);
        at := at + 2;
      }
      Publish(at, pace, k);
    }

    ghost method BeginStore(taken: seq<u32>, pace: nat -> nat, first: nat) returns (k: nat)
      requires buf.Length == WORDS && prog.Measure?
      requires |taken| == Taken(View(), |prog.samples|) && taken == prog.samples[..|taken|]
      modifies this`prog, this`t, this`out
      ensures prog == Store(Doubled(taken), 0)
      ensures Play(View(), pace, k) == Play(old(View()), pace, first)
    {
      hide Play, Ticks, Slot, Room, Doubled;
      PlayStep(View(), pace, first);
      prog := Store(Doubled(taken), 0);
      assert View() == Go(old(View()));
      Dma(pace(first));
      k := first + 1;
    }

    /** The counter goes behind the words stored. */
    method Publish(at: nat, ghost pace: nat -> nat, ghost k: nat)
      requires buf.Length == WORDS && prog.Store? && prog.done == |prog.words| && at == writeAbs + |prog.words|
      modifies this`writeAbs, this`prog, this`t, this`out
      ensures View() == Play(old(View()), pace, k)
    {
      hide Play, Ticks;
      PlayStep(View(), pace, k);
      writeAbs := at % M32;
      prog := Idle;
      assert View() == Go(old(View()));
      Dma(pace(k));
      PlayIdle(View(), pace, k + 1);
    }

    method PutFrame(at: nat, x: u32, ghost pace: nat -> nat, ghost first: nat) returns (ghost k: nat)
      requires buf.Length == WORDS && prog.Store? && prog.done + 1 < |prog.words|
      requires at == writeAbs + prog.done && prog.words[prog.done] == prog.words[prog.done + 1] == x
      modifies this`prog, this`t, this`w, this`out, this`queued, buf
      ensures prog == Store(old(prog).words, old(prog).done + 2)
      ensures Play(View(), pace, k) == Play(old(View()), pace, first)
    {
      hide Play;
      k := PutWord(at, x, pace, first);
      k := PutWord(at + 1, x, pace, k);
    }

    method PutWord(at: nat, x: u32, ghost pace: nat -> nat, ghost first: nat) returns (ghost k: nat)
      requires buf.Length == WORDS && prog.Store? && prog.done < |prog.words|
      requires at == writeAbs + prog.done && x == prog.words[prog.done]
      modifies this`prog, this`t, this`w, this`out, this`queued, buf
      ensures prog == Store(old(prog).words, old(prog).done + 1)
      ensures Play(View(), pace, k) == Play(old(View()), pace, first)
    {
      hide Play, Ticks;
      PlayStep(View(), pace, first);
      buf[at % WORDS] := x;
      prog := Store(prog.words, prog.done + 1);
      queued := if t <= w then queued + [x] else queued;
      w := w + 1;
      assert View() == Go(old(View()));
      Dma(pace(first));
      k := first + 1;
    }

    /** audio_stream_buffered, in stereo frames. */
    method Buffered(pos: nat) returns (frames: nat)
      requires Valid() && pos == Slot(t)
      modifies this`consumedAbs, this`lastRingPos, this`polled, this`late
      ensures Valid() && View() == Poll(old(View()))
      ensures !late && t - w <= 0x8000_0000 ==> frames == (if w > t then (w - t) / 2 else 0)
    {
      PollKeeps(View());
      hide Counters, Contents, Poll;
      var r := ConsumedAbs(pos);
      if !late && t - w <= 0x8000_0000 { LeadIsTrue(View()); }
      var diff := Signed(Minus(writeAbs, r));
      frames := if diff > 0 then diff / 2 else 0;
    }

    method WipeWord(i: nat, ghost pace: nat -> nat)
      requires buf.Length == WORDS && prog == Wipe(i) && i < WORDS
      modifies this`prog, this`t, this`out, buf
      ensures prog == Wipe(i + 1) && t == old(t) + pace(i)
      ensures Play(View(), pace, i + 1) == Play(old(View()), pace, i)
    {
      hide Play;
      PlayStep(View(), pace, i);
      buf[i] := 0;
      prog := Wipe(i + 1);
      assert View() == Go(old(View()));
      Dma(pace(i));
    }

    /** audio_stream_reset; `pos` is where the engine reads once the ring is wiped. */
    method ResetStream(pos: nat, ghost pace: nat -> nat)
      requires Valid() && pos == Slot(t + Total(pace, WORDS))
      modifies this, buf
      ensures Valid() && View() == Play(Next(old(View()), Restart), pace, 0)
    {
      hide Play, Next, Counters, Contents, Slot, Total;
      CallKeeps(View(), Restart, pace);
      BeginWipe();
      WipeAll(pace);
      SnapToReader(pos, pace);
    }

    ghost method BeginWipe()
      requires buf.Length == WORDS && prog.Idle?
      modifies this`w, this`queued, this`prog
      ensures View() == Next(old(View()), Restart) && prog == Wipe(0)
    {
      w, queued, prog := 0, out, Wipe(0);
    }

    method WipeAll(ghost pace: nat -> nat)
      requires buf.Length == WORDS && prog == Wipe(0)
      modifies this`prog, this`t, this`out, buf
      ensures prog == Wipe(WORDS) && t == old(t) + Total(pace, WORDS)
      ensures Play(View(), pace, WORDS) == Play(old(View()), pace, 0)
    {
      hide Play;
      for i := 0 to WORDS
        invariant prog == Wipe(i) && t == old(t) + Total(pace, i)
        invariant Play(View(), pace, i) == Play(old(View()), pace, 0)
      {
        WipeWord(i, pace);
      }
    }

    method SnapToReader(pos: nat, ghost pace: nat -> nat)
      requires buf.Length == WORDS && prog == Wipe(WORDS) && pos == Slot(t)
      modifies this
      ensures View() == Play(old(View()), pace, WORDS)
    {
      hide Play, Ticks, Poll, Slot;
      PlayStep(View(), pace, WORDS);
      var r := ConsumedAbs(pos);
      writeAbs := r - r % 2;
      w := Even(t);
      prog := Idle;
      PolledAt(old(View()));
      assert View() == Go(old(View()));
      Dma(pace(WORDS));
      PlayIdle(View(), pace, WORDS + 1);
    }
  }

  /** Words read over the first `n` accesses. */
  ghost function Total(pace: nat -> nat, n: nat): nat { if n == 0 then 0 else Total(pace, n - 1) + pace(n - 1) }

  lemma PlayStep(s: Ring, pace: nat -> nat, k: nat)
    requires |s.buf| == WORDS && !s.prog.Idle?
    ensures Play(s, pace, k) == Play(Ticks(Go(s), pace(k)), pace, k + 1)
  {
    hide Go, Ticks;
  }

  lemma PolledAt(s: Ring)
    ensures Poll(s).t == s.t && Poll(s).buf == s.buf && Poll(s).prog == s.prog && Poll(s).out == s.out
    ensures Poll(s).queued == s.queued
  {
  }

  lemma CallKeeps(s: Ring, step: Step, pace: nat -> nat)
    requires Inv(s)
    ensures Inv(Play(Next(s, step), pace, 0))
  {
    NextKeeps(s, step);
    PlayKeeps(Next(s, step), pace, 0);
    hide Inv, Play, Next;
  }

  lemma SameReport(s: Ring, r: Ring, samples: seq<u32>)
    requires r.consumed == s.consumed && r.write == if Lead(s) < 0 then Even(s.consumed) else s.write
    ensures Taken(r, |samples|) == Reports(s, samples)
  {
  }

  lemma PlayIdle(s: Ring, pace: nat -> nat, k: nat)
    requires |s.buf| == WORDS && s.prog.Idle?
    ensures Play(s, pace, k) == s
  {
  }

  lemma {:induction false} DoubledAt(xs: seq<u32>, i: nat)
    requires i < |xs|
    ensures Doubled(xs)[2 * i] == Doubled(xs)[2 * i + 1] == xs[i]
    decreases |xs|
  {
    if i < |xs| - 1 {
      DoubledAt(xs[..|xs| - 1], i);
    }
  }
}
