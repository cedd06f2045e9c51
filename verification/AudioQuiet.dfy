/** What the underrun recovery and the reset leave in the ring, and how much of a write is taken. */
module AudioQuiet {
  import opened Bytes
  import opened AudioRing

  /** What is zeroed so far: from the last poll on while silencing, from the start of the ring while wiping. */
  ghost predicate Zeroed(s: Ring) {
    && |s.buf| == WORDS
    && match s.prog
       case Silence(i, _) => forall p :: s.polled <= p < s.polled + i ==> At(s.buf, p) == 0
       case Wipe(i) => i <= 8192 && forall p :: 0 <= p < i ==> s.buf[p] == 0
       case _ => true
  }

  lemma SilenceSlot(s: Ring, i: nat)
    requires s.consumed == s.polled % M32
    ensures Slot(Slot(s.consumed) + i) == Slot(s.polled + i)
  {
    SlotOfWrapped(s.polled);
    SlotAdds(s.consumed, i);
    SlotAdds(s.polled, i);
    hide Slot;
  }

  lemma SilenceZeroes(s: Ring)
    requires Inv(s) && !s.late && Zeroed(s) && s.prog.Silence? && s.prog.done < 1024
    ensures Zeroed(Go(s)) && Go(s).prog == Silence(s.prog.done + 1, s.prog.next)
  {
    SilenceSlot(s, s.prog.done);
    hide Slot, Contents;
    var r := Go(s);
    forall p | s.polled <= p < s.polled + s.prog.done + 1 ensures At(r.buf, p) == 0 {
      if Slot(p) != Slot(s.polled + s.prog.done) { assert At(r.buf, p) == At(s.buf, p); }
    }
  }

  lemma WipeZeroes(s: Ring)
    requires Zeroed(s) && s.prog.Wipe? && s.prog.done < 8192
    ensures Zeroed(Go(s)) && Go(s).prog == Wipe(s.prog.done + 1)
  {
  }

  /** A recovery that ends has silenced the 1024 words ahead of the reader's last place, and put the writer there. */
  lemma SilenceEnds(s: Ring)
    requires Inv(s) && !s.late && Zeroed(s) && s.prog.Silence? && s.prog.done >= 1024
    ensures var r := Go(s);
            && (forall p :: s.polled <= p < s.polled + 1024 ==> At(r.buf, p) == 0)
            && r.w == s.polled - s.polled % 2 && r.out == s.out
            && r.prog == (match s.prog.next case None => Idle case Some(x) => Measure(x))
  {
    hide Slot, Contents;
  }

  /** A reset that ends has silenced the whole ring, and put the writer at the reader. */
  lemma WipeEnds(s: Ring)
    requires Zeroed(s) && s.prog.Wipe? && s.prog.done >= 8192
    ensures var r := Go(s); r.buf == Silent(8192) && r.w == s.t - s.t % 2 && r.prog.Idle? && r.polled == s.t
  {
  }

  /** Every step keeps it, the engine reading or not. */
  lemma NextZeroed(s: Ring, step: Step)
    requires Inv(s) && !s.late && Zeroed(s)
    ensures Zeroed(Next(s, step))
  {
    hide Slot, Contents, Poll, Lead, Room;
    if step.Continue? {
      if s.prog.Silence? && s.prog.done < 1024 { SilenceZeroes(s); }
      else if s.prog.Wipe? && s.prog.done < 8192 { WipeZeroes(s); }
      else { PollBuf(s); }
    } else {
      PollBuf(s);
    }
  }

  lemma PollBuf(s: Ring)
    ensures Poll(s).buf == s.buf && Poll(s).prog == s.prog
  {
  }

  lemma LateStays(s: Ring, step: Step)
    requires |s.buf| == WORDS && s.late
    ensures Next(s, step).late
  {
    hide Lead, Room, Doubled;
  }

  /** So every run polled in time has zeroed what it is said to have. */
  lemma {:induction false} RunZeroed(steps: seq<Step>)
    ensures var s := Run(Start(), steps); Inv(s) && (!s.late ==> Zeroed(s))
    decreases |steps|
  {
    StartKeeps();
    StartZeroed();
    StillWords(Start());
    hide Inv, Next, Zeroed, Start;
    if steps != [] {
      var front := steps[..|steps| - 1];
      RunZeroed(front);
      NextKeeps(Run(Start(), front), steps[|steps| - 1]);
      if Run(Start(), front).late {
        StillWords(Run(Start(), front));
        LateStays(Run(Start(), front), steps[|steps| - 1]);
      } else {
        NextZeroed(Run(Start(), front), steps[|steps| - 1]);
      }
    }
  }

  lemma StillWords(s: Ring)
    requires Inv(s)
    ensures |s.buf| == WORDS
  {
    hide Counters, Contents;
  }

  lemma StartZeroed()
    ensures Zeroed(Start())
  {
  }

  // ---- How much of a write is taken ----

  /** A write, or a check of its own, recovers first exactly if the engine has read past the writer, then goes on. */
  lemma RecoversIfBehind(s: Ring, x: seq<u32>)
    requires Inv(s) && !s.late && s.prog.Idle? && s.t - s.polled < 8192 && s.t - s.w <= 0x8000_0000
    ensures x != [] ==> Go(Next(s, Feed(x))).prog == if s.t > s.w then Silence(0, Some(x)) else Measure(x)
    ensures Go(Next(s, Recover)).prog == if s.t > s.w then Silence(0, None) else Idle
  {
    var p := Poll(s);
    PollKeeps(s);
    var c, d := p.(prog := Check(Some(x))), p.(prog := Check(None));
    assert Sound(c) && Sound(d) by { hide Slot; }
    LeadIsTrue(c);
    LeadIsTrue(d);
    hide Slot, Contents, Poll, Lead;
  }

  /** The whole room there is: stereo frames between the writer and one word short of a lap ahead of the reader. */
  lemma RoomIsAll(s: Ring)
    requires Inv(s) && !s.late && s.prog.Measure? && s.polled - s.w <= 0x8000_0000
    ensures Room(s) == (8191 - (s.w - s.polled)) / 2
    ensures var x := s.prog.samples; var n := if |x| > Room(s) then Room(s) else |x|;
            Go(s).prog == Store(Doubled(x[..n]), 0)
  {
    LeadIsTrue(s);
    var lead := s.w - s.polled;
    assert lead <= 8191;
    hide Slot, Contents, Doubled;
    WholeRoom(lead);
  }

  lemma WholeRoom(lead: int)
    requires -0x8000_0000 <= lead <= 8191
    ensures Minus(WORDS - 1, lead % M32) == 8191 - lead
  {
    if lead < 0 { assert lead % M32 == lead + M32; }
  }

  /** What a write reports: all its samples if they fit the room, measured from the reader if it had passed the writer. */
  lemma ReportsRoom(s: Ring, x: seq<u32>)
    requires Inv(s) && !s.late && s.prog.Idle? && s.t - s.polled < 8192 && s.t - s.w <= 0x8000_0000
    ensures var room := if s.w >= s.t then (8191 - (s.w - s.t)) / 2 else (8191 + s.t % 2) / 2;
            Reports(Poll(s), x) == if |x| > room then room else |x|
  {
    var p := Poll(s);
    PollKeeps(s);
    var q := p.(prog := Check(None));
    assert Sound(q) by { hide Slot; }
    LeadIsTrue(q);
    assert Lead(p) == Lead(q);
    if s.w >= s.t {
      WholeRoom(s.w - s.t);
    } else {
      EvenWrapped(s.t);
      SignedDifference(Even(s.t), s.t);
      WholeRoom(Even(s.t) - s.t);
    }
    hide Slot, Contents, Signed, Minus;
  }
}
