/**
 Exactly when the pump can send what was never framed: a chunked body with an over-long length before
 some point at or past the prebuffer, and a packet to be found from that point on.
 */
module TtsExact {
  import opened Bytes
  import opened TtsFrames
  import opened TtsStream
  import opened TtsRun
  import opened TtsPlayback
  import H = HttpChunked
  import I = IcRing

  /** Giving up at `q` bytes skips over an over-long length. */
  ghost predicate SkipPoint(b: seq<byte>, q: nat) {
    PREBUFFER_BYTES <= q <= |b| && Cut(b[..q]).overlong
  }

  ghost predicate Resumable(b: seq<byte>, q: nat) {
    SkipPoint(b, q) && Cut(b[q..]).frames != []
  }

  /** The body holds packets past a point where the pump may have given up. */
  ghost predicate Vulnerable(cfg: Config, b: seq<byte>) {
    cfg.chunked && exists q: nat :: Resumable(b, q)
  }

  // ---- Where the pump can give up ----

  /** Opus plays once enough is decoded, or when nothing more will come; until then all that came is decoded. */
  ghost predicate Armed(s: Stream) {
    && (s.cfg.opus && s.cfg.chunked && !s.active ==> s.dec.mode.Done? || s.read == |s.body|)
    && (s.cfg.opus && s.active ==> Settled(s) || (s.cfg.chunked && |Decoded(s)| >= PREBUFFER_BYTES))
  }

  /** A skip is past the prebuffer of a chunked body, or at the very end of it. */
  ghost predicate SkipOk(s: Stream, q: nat, last: bool) {
    (s.cfg.chunked && q >= PREBUFFER_BYTES) || (last && q == |Decoded(s)| && Settled(s))
  }

  ghost predicate LateSkips(s: Stream) {
    forall i :: 0 <= i < |s.cuts| ==> SkipOk(s, s.cuts[i], i == |s.cuts| - 1)
  }

  lemma LateSkipsKept(s: Stream, r: Stream)
    requires LateSkips(s) && r.cuts == s.cuts && r.cfg == s.cfg
    requires Settled(s) ==> Settled(r) && Decoded(r) == Decoded(s)
    ensures LateSkips(r)
  {
    hide Settled, Decoded;
  }

  lemma ArmedKept(s: Stream, r: Stream)
    requires Armed(s) && s.active && r.active && r.cfg == s.cfg && Decoded(s) <= Decoded(r)
    requires Settled(s) ==> Settled(r)
    ensures Armed(r)
  {
    hide Settled, Decoded;
  }

  lemma ReceiveActive(s: Stream, bytes: seq<byte>)
    requires Placed(s) && s.active
    ensures Receive(s, bytes).active && Receive(s, bytes).cfg == s.cfg
  {
    hide Decode, Fits;
  }

  /** Bytes arriving before playback: decoded at once, and enough of them when playback is armed. */
  lemma ReceiveArms(s: Stream, bytes: seq<byte>)
    requires Layout(s) && Quiet(s) && Armed(s) && !s.active && !s.phase.Idle?
    ensures Armed(Receive(s, bytes))
  {
    if s.cfg.opus {
      var c := if Fits(s, |bytes|) then s else Compact(s);
      CompactQuietly(s);
      assert c.read == s.read && |c.body| == |s.body| && c.dec == s.dec;
      if Fits(c, |bytes|) {
        var b := c.(body := c.body + bytes, raw := c.raw + bytes);
        AppendQuietly(c, bytes);
        hide Fits, Compact, Layout, Decoded;
        ArrivedArms(b);
      }
    }
  }

  lemma ArrivedArms(b: Stream)
    requires Layout(b) && b.cfg.opus && !b.active
    ensures Armed(Arrived(b))
  {
    if b.cfg.chunked {
      DecodeKeeps(b);
      hide Decode, Layout, Decoded;
      Window(Decode(b));
      SameDecoded(Decode(b), Arm(Decode(b)));
    } else {
      assert b.write == 0;
    }
  }

  lemma SameDecoded(s: Stream, r: Stream)
    requires r.cfg == s.cfg && r.raw == s.raw && r.shift == s.shift && r.read == s.read
    ensures Decoded(r) == Decoded(s)
  {
    hide H.Feed;
  }

  lemma HandleArms(s: Stream)
    requires Layout(s) && Armed(s) && !s.phase.Requesting? && !s.phase.Idle?
    ensures Armed(HandleDone(s))
  {
    var r := HandleDone(s);
    SameDecoded(s, r);
    hide Decoded, Layout;
  }

  // ---- The pump's skips ----

  /** Nothing but the pump's own fields moved, and at most one skip, at the end of what is decoded, was added. */
  ghost predicate Still(s: Stream, r: Stream) {
    && r.cfg == s.cfg && r.body == s.body && r.read == s.read && r.write == s.write && r.dec == s.dec
    && r.raw == s.raw && r.shift == s.shift && r.phase == s.phase && r.active == s.active && r.ended == s.ended
    && r.pos >= s.pos && |r.sent| >= |s.sent|
    && (r.cuts == s.cuts || (r.cuts == s.cuts + [s.shift + Have(s)] && s.pos + 2 <= Have(s)))
  }

  lemma LookStill(s: Stream, avail: nat)
    requires Placed(s) && s.pos + 2 <= Have(s)
    ensures var t := Look(s, avail); Still(s, t.after) && (t.more ==> t.after.cuts == s.cuts)
  {
    hide Length, I.Align, Final, Short, H.Sound;
    var n := Length(s);
    if 0 < n <= MAX_PACKET && s.pos + 2 + n <= Have(s) {
      assert Still(s, Ship(s, OPUS_PKT, s.pos + 2, s.pos + 2 + n));
    }
    hide Ship;
  }

  lemma StillTrans(s: Stream, m: Stream, r: Stream)
    requires Still(s, m) && Still(m, r) && m.cuts == s.cuts
    ensures Still(s, r)
  {
  }

  lemma {:induction false} ShipPacketsStill(first: Stream, s: Stream, room: seq<nat>, shipped: nat)
    requires Placed(s) && Still(first, s) && first.cuts == s.cuts
    ensures Still(first, ShipPackets(s, room, shipped).after)
    decreases Have(s) - s.pos
  {
    hide Still, Look, ShipPackets, Answer, After;
    if shipped < FRAMES_PER_PASS && s.pos + 2 <= Have(s) {
      var t := Look(s, Answer(room));
      ShipPacketsNext(s, room, shipped, t);
      LookStill(s, Answer(room));
      StillTrans(first, s, t.after);
      if t.more {
        ShipPacketsStill(first, t.after, After(room, t.shipped), shipped + t.shipped);
      }
    } else {
      ShipPacketsStops(s, room, shipped);
    }
  }

  lemma ShipPacketsStops(s: Stream, room: seq<nat>, shipped: nat)
    requires Placed(s) && (shipped >= FRAMES_PER_PASS || s.pos + 2 > Have(s))
    ensures ShipPackets(s, room, shipped) == Pass(s, shipped)
  {
  }

  /** What a pass leaves: the same decoded bytes, and at most one skip more, at their end. */
  ghost predicate Passed(s: Stream, r: Stream) {
    && r.cfg == s.cfg && r.phase == s.phase && r.active == s.active && r.ended == s.ended && r.raw == s.raw
    && Decoded(r) == Decoded(s) && Settled(r) == Settled(s) && Place(r) >= Place(s) && |r.sent| >= |s.sent|
    && (r.cuts == s.cuts || (r.cuts == s.cuts + [|Decoded(s)|] && Place(s) + 2 <= |Decoded(s)|))
  }

  lemma StillPassed(s: Stream, r: Stream)
    requires Layout(s) && Still(s, r)
    ensures Passed(s, r)
  {
    Window(s);
    hide Layout, Decoded, Placed;
    SameDecoded(s, r);
    assert Settled(r) == Settled(s);
    hide Settled;
  }

  lemma CompactPassed(s: Stream, r: Stream)
    requires Passed(s, r) && Layout(r)
    ensures Passed(s, CompactLate(r))
  {
    CompactKeeps(r);
    CompactSettled(r);
    hide Layout, Decoded, Settled;
  }

  lemma CompactSettled(s: Stream)
    requires Placed(s)
    ensures Settled(Compact(s)) == Settled(s)
  {
  }

  lemma ForwardPassed(s: Stream, room: seq<nat>)
    requires Layout(s) && s.cfg.opus
    requires Layout(ShipPackets(s, room, 0).after)
    ensures Passed(s, Forward(s, room))
  {
    assert Placed(s) && Still(s, s);
    hide Layout, Still, Passed, CompactLate, ShipPackets, Placed;
    ShipPacketsStill(s, s, room, 0);
    var t := ShipPackets(s, room, 0).after;
    StillPassed(s, t);
    CompactPassed(s, t);
  }

  /** A pass of the pump at a stream it can go on from. */
  lemma ReadyPassed(s: Stream, room: seq<nat>)
    requires Ready(s) && s.cfg.opus
    ensures Passed(s, Forward(s, room))
  {
    if s.torn {
      TornStays(s, room);
      StillPassed(s, s);
    } else {
      ShipPacketsKeeps(s, room, 0);
      hide Flow, Messages, ShipPackets;
      ForwardPassed(s, room);
    }
    hide Layout;
  }

  lemma PassedExtra(s: Stream, r: Stream)
    requires Armed(s) && LateSkips(s) && Passed(s, r) && s.active && s.cfg.opus
    requires From(s.cuts) <= Place(s) && Place(s) <= |Decoded(s)|
    ensures Armed(r) && LateSkips(r)
  {
    hide Settled, Decoded, Place;
    if r.cuts != s.cuts {
      forall i | 0 <= i < |r.cuts|
        ensures SkipOk(r, r.cuts[i], i == |r.cuts| - 1)
      {
        if i < |s.cuts| {
          assert r.cuts[i] == s.cuts[i] && SkipOk(s, s.cuts[i], i == |s.cuts| - 1);
        }
      }
    }
  }

  lemma PumpExtra(s: Stream, room: seq<nat>)
    requires Inv(s) && Armed(s) && LateSkips(s) && s.cfg.opus
    ensures Placed(s) && Armed(Pump(s, room)) && LateSkips(Pump(s, room))
  {
    if s.active && !s.ended {
      ArriveAtPump(s);
      var d := if s.cfg.chunked then Decode(s) else s;
      DecodedExtra(s, d);
      ReadyPassed(d, room);
      InvPlace(d);
      PassedExtra(d, Forward(d, room));
      EndExtra(Forward(d, room));
      hide Inv, Ready, Armed, LateSkips, Decode, Forward, Passed;
    }
  }

  lemma InvPlace(s: Stream)
    requires Ready(s) && s.cfg.opus
    ensures From(s.cuts) <= Place(s) <= |Decoded(s)|
  {
    hide Layout, Messages, Decoded;
  }

  lemma DecodedExtra(s: Stream, d: Stream)
    requires Inv(s) && Armed(s) && LateSkips(s) && s.active && d == if s.cfg.chunked then Decode(s) else s
    ensures Armed(d) && LateSkips(d) && d.active
  {
    if s.cfg.chunked {
      DecodeQuietly(s);
      hide Layout, Flow, Messages, Decode, Decoded, Settled;
      assert d.active && d.cuts == s.cuts by { DecodeSame(s); }
      ArmedKept(s, d);
      LateSkipsKept(s, d);
    }
  }

  lemma DecodeSame(s: Stream)
    requires Placed(s) && s.cfg.chunked
    ensures Decode(s).active == s.active && Decode(s).cuts == s.cuts && Decode(s).ended == s.ended
  {
  }

  lemma EndExtra(s: Stream)
    requires Armed(s) && LateSkips(s)
    ensures var r := End(s).(drained := true); Armed(r) && LateSkips(r)
  {
    SameDecoded(s, End(s).(drained := true));
    hide Decoded;
  }

  lemma NextExtra(s: Stream, step: Step)
    requires Inv(s) && Armed(s) && LateSkips(s) && s.cfg.opus
    ensures Placed(s) && Armed(Next(s, step)) && LateSkips(Next(s, step))
  {
    match step
    case Recv(bytes) => if !s.phase.Idle? { ReceiveExtra(s, bytes); }
    case Finish(ok) => if !s.phase.Idle? { PhaseExtra(s, if ok then DoneOk else DoneErr); }
    case Handle => if s.phase.DoneOk? || s.phase.DoneErr? { HandleExtra(s); }
    case Stop => PhaseExtra(s, Idle);
    case Forwarding(room) => PumpExtra(s, room);
  }

  lemma ReceiveExtra(s: Stream, bytes: seq<byte>)
    requires Inv(s) && Armed(s) && LateSkips(s) && s.cfg.opus && !s.phase.Idle?
    ensures Placed(s) && Armed(Receive(s, bytes)) && LateSkips(Receive(s, bytes))
  {
    ReceiveQuietly(s, bytes);
    hide Layout, Flow, Messages, Decoded, Settled;
    LateSkipsKept(s, Receive(s, bytes));
    if s.active {
      ReceiveActive(s, bytes);
      ArmedKept(s, Receive(s, bytes));
    } else {
      ReceiveArms(s, bytes);
    }
    hide Receive;
  }

  lemma PhaseExtra(s: Stream, p: Phase)
    requires Inv(s) && Armed(s) && LateSkips(s) && (s.phase.Idle? ==> p.Idle?)
    ensures Armed(s.(phase := p)) && LateSkips(s.(phase := p))
  {
    var r := s.(phase := p);
    SameDecoded(s, r);
    hide Inv, Decoded;
    LateSkipsKept(s, r);
  }

  lemma HandleExtra(s: Stream)
    requires Inv(s) && Armed(s) && LateSkips(s) && !s.phase.Requesting? && !s.phase.Idle?
    ensures Placed(s) && Armed(HandleDone(s)) && LateSkips(HandleDone(s))
  {
    HandleArms(s);
    var r := HandleDone(s);
    SameDecoded(s, r);
    hide Inv, Decoded, Layout;
    LateSkipsKept(s, r);
  }

  lemma {:induction false} RunExtra(cfg: Config, steps: seq<Step>)
    requires cfg.opus
    ensures var s := Run(TtsStream.Start(cfg), steps); Inv(s) && Armed(s) && LateSkips(s)
    decreases |steps|
  {
    hide Inv, Next, Armed, LateSkips;
    RunKeeps(cfg, steps);
    if steps == [] {
      StartExtra(cfg);
    } else {
      RunExtra(cfg, steps[..|steps| - 1]);
      RunKeeps(cfg, steps[..|steps| - 1]);
      NextExtra(Run(TtsStream.Start(cfg), steps[..|steps| - 1]), steps[|steps| - 1]);
    }
  }

  lemma StartExtra(cfg: Config)
    ensures Armed(TtsStream.Start(cfg)) && LateSkips(TtsStream.Start(cfg))
  {
  }

  // ---- No other body is at risk ----

  /** Each skip passed over an over-long length. */
  lemma {:induction false} SkipAt(d: seq<byte>, cuts: seq<nat>, i: nat)
    requires Skips(d, cuts) && i < |cuts|
    ensures cuts[i] <= |d| && Cut(d[..cuts[i]]).overlong
    decreases |cuts|
  {
    var p, c := cuts[..|cuts| - 1], cuts[|cuts| - 1];
    if i < |p| {
      SkipAt(d, p, i);
    } else if p == [] {
      assert d[0..c] == d[..c];
    } else {
      SkipAt(d, p, |p| - 1);
      assert d[..c][..From(p)] == d[..From(p)];
      CutOfPrefix(d[..From(p)], d[..c]);
      hide Cut;
    }
  }

  lemma SliceOfPrefix(d: seq<byte>, b: seq<byte>, i: nat, j: nat)
    requires d <= b && i <= j <= |d|
    ensures d[i..j] <= b[i..] && d[i..j] == b[i..j] && d[..j] == b[..j]
  {
  }

  /** When nothing is to be found past the skips but the last, what they took is the packets of the body. */
  lemma {:induction false} SkippedIsFirst(d: seq<byte>, b: seq<byte>, cuts: seq<nat>)
    requires Skips(d, cuts) && cuts != [] && d <= b
    requires forall i :: 0 <= i < |cuts| - 1 ==> cuts[i] <= |b| && Cut(b[cuts[i]..]).frames == []
    ensures Skipped(d, cuts) == Cut(b).frames && Cut(b).overlong
    decreases |cuts|
  {
    var p, c := cuts[..|cuts| - 1], cuts[|cuts| - 1];
    SliceOfPrefix(d, b, From(p), c);
    if p == [] {
      assert b[0..] == b;
      CutOfPrefix(d[0..c], b);
      hide Cut;
    } else {
      assert p[|p| - 1] == cuts[|p| - 1] && Cut(b[From(p)..]).frames == [];
      CutOfPrefix(d[From(p)..c], b[From(p)..]);
      hide Cut;
      SkippedIsFirst(d, b, p);
    }
  }

  lemma NothingPast(cfg: Config, b: seq<byte>, q: nat)
    requires !Vulnerable(cfg, b) && cfg.chunked && SkipPoint(b, q)
    ensures Cut(b[q..]).frames == []
  {
    assert !Resumable(b, q);
  }

  /** The skips of a run are skip points of the whole body, the last one excepted when it stands at the end. */
  lemma SkipIsPoint(s: Stream, i: nat)
    requires Inv(s) && LateSkips(s) && s.cfg.opus && i < |s.cuts|
    ensures Decoded(s) <= Body(s) && Skips(Decoded(s), s.cuts) && s.cuts[i] <= |Decoded(s)|
    ensures (s.cfg.chunked && SkipPoint(Body(s), s.cuts[i]))
      || (i == |s.cuts| - 1 && s.cuts[i] == |Decoded(s)|)
  {
    AcrossSkips(s);
    SkipAt(Decoded(s), s.cuts, i);
    SliceOfPrefix(Decoded(s), Body(s), 0, s.cuts[i]);
    assert SkipOk(s, s.cuts[i], i == |s.cuts| - 1);
    hide Inv, Cut, Skips, Skipped, Decoded, Body, Settled, Sent;
  }

  lemma LastFindsNothing(s: Stream)
    requires Inv(s) && LateSkips(s) && s.cfg.opus && s.cuts != [] && !Vulnerable(s.cfg, Body(s))
    ensures var d := Decoded(s);
            From(s.cuts) <= Place(s) <= |d| && Cut(d[From(s.cuts)..Place(s)]).frames == []
  {
    var d, b, q := Decoded(s), Body(s), From(s.cuts);
    AcrossSkips(s);
    SkipIsPoint(s, |s.cuts| - 1);
    hide Inv, Skips, Skipped, Decoded, Body, Sent, LateSkips;
    SliceOfPrefix(d, b, q, Place(s));
    if s.cfg.chunked && SkipPoint(b, q) {
      NothingPast(s.cfg, b, q);
      CutOfPrefix(d[q..Place(s)], b[q..]);
    } else {
      assert d[q..Place(s)] == [] && Cut([]).frames == [];
    }
  }

  lemma SkipsFindNothing(s: Stream)
    requires Inv(s) && LateSkips(s) && s.cfg.opus && s.cuts != [] && !Vulnerable(s.cfg, Body(s))
    ensures Skips(Decoded(s), s.cuts) && Skipped(Decoded(s), s.cuts) == Cut(Body(s)).frames
  {
    var d, b := Decoded(s), Body(s);
    SkipIsPoint(s, 0);
    hide Inv, Skips, Skipped, Decoded, Body, LateSkips, Vulnerable, Cut;
    forall i | 0 <= i < |s.cuts| - 1
      ensures s.cuts[i] <= |b| && Cut(b[s.cuts[i]..]).frames == []
    {
      SkipIsPoint(s, i);
      NothingPast(s.cfg, b, s.cuts[i]);
    }
    SkippedIsFirst(d, b, s.cuts);
  }

  lemma SafePrefix(s: Stream)
    requires Inv(s) && LateSkips(s) && s.cfg.opus && !Vulnerable(s.cfg, Body(s))
    ensures Sent(s) <= Cut(Body(s)).frames && (s.drained ==> Sent(s) == Cut(Body(s)).frames)
  {
    var d, b := Decoded(s), Body(s);
    AcrossSkips(s);
    hide Inv, LateSkips, Vulnerable, Decoded, Body, Sent, Skips;
    if s.cuts == [] {
      assert d[0..Place(s)] == d[..Place(s)] && d[0..] == d;
      SliceOfPrefix(d, b, 0, Place(s));
      CutOfPrefix(d[..Place(s)], b);
      assert Skipped(d, s.cuts) == [];
      hide Cut;
    } else {
      hide Skipped;
      LastFindsNothing(s);
      SkipsFindNothing(s);
      if s.drained { DrainedFindsNothing(s); }
    }
  }

  lemma DrainedFindsNothing(s: Stream)
    requires Inv(s) && LateSkips(s) && s.cfg.opus && s.cuts != [] && !Vulnerable(s.cfg, Body(s)) && s.drained
    ensures From(s.cuts) <= |Decoded(s)| && Cut(Decoded(s)[From(s.cuts)..]).frames == []
  {
    var d, b, q := Decoded(s), Body(s), From(s.cuts);
    AcrossSkips(s);
    SkipIsPoint(s, |s.cuts| - 1);
    hide Inv, Skips, Skipped, Decoded, Body, Sent, LateSkips;
    if s.cfg.chunked && SkipPoint(b, q) {
      NothingPast(s.cfg, b, q);
    } else {
      assert d[q..] == [] && Cut([]).frames == [];
    }
  }

  /**
   Unless the body is vulnerable, the packets sent are a prefix of its packets in every run, whatever
   lengths it holds, and all of them when the pump ended the stream itself.
   */
  lemma PrefixUnlessVulnerable(cfg: Config, steps: seq<Step>)
    requires cfg.opus && !Vulnerable(cfg, Body(Run(TtsStream.Start(cfg), steps)))
    ensures var s := Run(TtsStream.Start(cfg), steps);
            Sent(s) <= Cut(Body(s)).frames && (s.drained ==> Sent(s) == Cut(Body(s)).frames)
  {
    RunExtra(cfg, steps);
    RunKeeps(cfg, steps);
    hide Run, Inv, Armed, LateSkips, Cut, Body, Sent;
    SafePrefix(Run(TtsStream.Start(cfg), steps));
  }

  /** A body without an over-long length is not vulnerable, nor is any that is not chunked. */
  lemma SafeBodies(cfg: Config, b: seq<byte>)
    requires !cfg.chunked || !Cut(b).overlong
    ensures !Vulnerable(cfg, b)
  {
    if cfg.chunked && exists q: nat :: Resumable(b, q) {
      var q: nat :| Resumable(b, q);
      CutOfPrefix(b[..q], b);
      assert false;
    }
  }

  // ---- Through the bus as well ----

  /** The messages of one type, in order. */
  function Only(ms: seq<I.Msg>, typ: u16): seq<I.Msg>
    decreases |ms|
  {
    if ms == [] then []
    else
      var m := ms[|ms| - 1];
      Only(ms[..|ms| - 1], typ) + if m.typ == typ then [m] else []
  }

  lemma {:induction false} OnlyAt(ms: seq<I.Msg>, typ: u16, k: nat)
    requires k < |ms| && ms[k].typ == typ
    ensures var j := |Only(ms[..k], typ)|; j < |Only(ms, typ)| && Only(ms, typ)[j] == ms[k]
    decreases |ms|
  {
    var p := ms[..|ms| - 1];
    if k < |p| {
      OnlyAt(p, typ, k);
      assert p[..k] == ms[..k];
    }
  }

  lemma {:induction false} OnlyOfMessaged(typ: u16, ps: seq<seq<byte>>)
    ensures Only(Messaged(typ, ps), typ) == Messaged(typ, ps)
    decreases |ps|
  {
    if ps != [] {
      var p := ps[..|ps| - 1];
      OnlyOfMessaged(typ, p);
      var m := Messaged(typ, p) + [I.Msg(typ, ps[|ps| - 1])];
      assert m[..|m| - 1] == Messaged(typ, p);
    }
  }

  lemma OnlyPackets(cfg: Config, steps: seq<Step>)
    requires cfg.opus
    ensures var s := Run(TtsStream.Start(cfg), steps); Only(s.sent, OPUS_PKT) == Messaged(OPUS_PKT, Sent(s))
  {
    EndIsLast(cfg, steps);
    var s := Run(TtsStream.Start(cfg), steps);
    hide Run, Sent;
    OnlyOfMessaged(OPUS_PKT, Sent(s));
    if s.ended {
      assert s.sent[..|s.sent| - 1] == Messaged(OPUS_PKT, Sent(s));
    } else {
      assert s.sent == Messaged(OPUS_PKT, Sent(s));
    }
    hide Messaged;
  }

  /**
   Both hops together. Whatever else core 1 sends on the bus, if its packets there are the stream's,
   the j-th packet the other core received whole is the j-th packet of the body.
   */
  lemma HeardIsPrefixOfPackets(cfg: Config, steps: seq<Step>, buf: seq<byte>, bus: seq<I.Step>, k: nat)
    requires cfg.opus && |buf| == I.SIZE
    requires !Vulnerable(cfg, Body(Run(TtsStream.Start(cfg), steps)))
    requires var l := I.Run(I.Start(buf), bus);
             && Only(l.sent, OPUS_PKT) == Only(Run(TtsStream.Start(cfg), steps).sent, OPUS_PKT)
             && k < |l.got| && l.got[k].typ == OPUS_PKT && l.got[k].length <= l.got[k].max
    ensures var s, l := Run(TtsStream.Start(cfg), steps), I.Run(I.Start(buf), bus);
            && k < |l.sent|
            && var j := |Only(l.sent[..k], OPUS_PKT)|;
            j < |Cut(Body(s)).frames| && l.got[k].bytes == Cut(Body(s)).frames[j]
  {
    var s, l := Run(TtsStream.Start(cfg), steps), I.Run(I.Start(buf), bus);
    I.ReceivedIsPrefixOfSent(buf, bus);
    PrefixUnlessVulnerable(cfg, steps);
    OnlyPackets(cfg, steps);
    assert I.Delivered(l.got[k], l.sent[k]);
    hide Run, I.Run, Cut, Body, Sent, Vulnerable;
    var j := |Only(l.sent[..k], OPUS_PKT)|;
    OnlyAt(l.sent, OPUS_PKT, k);
    MessagedAt(OPUS_PKT, Sent(s), j);
    hide Messaged, Only;
  }
}
