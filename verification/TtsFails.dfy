/** A run, for every vulnerable body that fits the buffer, on which a packet is sent that was never framed. */
module TtsFails {
  import opened Bytes
  import opened TtsFrames
  import opened TtsStream
  import opened TtsRun
  import opened TtsPlayback
  import opened TtsExact
  import H = HttpChunked
  import I = IcRing

  // ---- Where to cut the raw bytes ----

  /** How many raw bytes it takes to decode `q` bytes. */
  function Point(raw: seq<byte>, q: nat): (m: nat)
    ensures m <= |raw|
  {
    if raw == [] || |H.Feed(H.Fresh, raw[..|raw| - 1]).out| < q then |raw| else Point(raw[..|raw| - 1], q)
  }

  /** Just then, exactly those bytes are decoded and the decoder is not done. */
  lemma {:induction false} PointReached(raw: seq<byte>, q: nat)
    requires 0 < q <= |H.Feed(H.Fresh, raw).out|
    ensures var f := H.Feed(H.Fresh, raw[..Point(raw, q)]);
            f.out == H.Feed(H.Fresh, raw).out[..q] && !f.dec.mode.Done?
    decreases |raw|
  {
    var p := raw[..|raw| - 1];
    var f, g := H.Feed(H.Fresh, p), H.Feed(H.Fresh, raw);
    if |f.out| >= q {
      PointReached(p, q);
      assert p[..Point(p, q)] == raw[..Point(raw, q)];
      assert f.out <= g.out;
      hide H.Feed;
    } else {
      assert raw[..|raw|] == raw;
      assert g.out[..q] == g.out;
    }
  }

  // ---- Runs, from any state ----

  lemma RunTail(s: Stream, step: Step, steps: seq<Step>)
    requires Placed(s)
    ensures Run(s, [step] + steps) == Run(Next(s, step), steps)
    decreases |steps|
  {
    hide Next;
    var all := [step] + steps;
    if steps == [] {
      assert all[..0] == [] && all == [step];
      assert Run(s, all[..0]) == s;
    } else {
      assert all[..|all| - 1] == [step] + steps[..|steps| - 1];
      RunTail(s, step, steps[..|steps| - 1]);
    }
  }

  lemma RunOn(s: Stream, a: seq<Step>, b: seq<Step>)
    requires Placed(s)
    ensures Run(s, a + b) == Run(Run(s, a), b)
    decreases |b|
  {
    hide Next;
    if b == [] {
      assert a + b == a;
    } else {
      assert (a + b)[..|a + b| - 1] == a + b[..|b| - 1];
      RunOn(s, a, b[..|b| - 1]);
    }
  }

  lemma RunOne(s: Stream, step: Step)
    requires Placed(s)
    ensures Run(s, [step]) == Next(s, step)
  {
    hide Next;
    assert [step][..0] == [];
    assert Run(s, [step][..0]) == s;
  }

  // ---- A pass with room ----

  /** Room for any packet, four times. */
  const Ample: seq<nat> := [2000, 2000, 2000, 2000]

  predicate Roomy(room: seq<nat>, shipped: nat) {
    shipped + |room| >= FRAMES_PER_PASS && forall i :: 0 <= i < |room| ==> room[i] >= 2000
  }

  lemma Enough(n: nat)
    requires n <= MAX_PACKET
    ensures I.HEADER + I.Align(n) <= 2000
  {
  }

  /** At an over-long length or a complete packet, and not at the end: one turn moves on or gives up. */
  lemma LookMoves(s: Stream, avail: nat)
    requires Ready(s) && s.cfg.opus && avail >= 2000
    requires var d := Decoded(s); Place(s) <= |d| && (Cut(d[Place(s)..]).overlong || Cut(d[Place(s)..]).frames != [])
    ensures Placed(s) && s.pos + 2 <= Have(s)
    ensures var t := Look(s, avail);
            && (t.more ==> Place(t.after) > Place(s) && t.after.cuts == s.cuts)
            && (!t.more ==> t.after.cuts == s.cuts + [|Decoded(s)|] && Place(t.after) == |Decoded(s)|)
  {
    var d, c := Decoded(s), Place(s);
    assert Layout(s) && Placed(s);
    Window(s);
    AheadOrLong(d, c);
    hide Layout, Messages, Flow, Decoded, Cut, Short;
    NextLength(s);
    if Length(s) <= MAX_PACKET { Enough(Length(s)); }
    hide Length, I.Align, Ready;
  }

  /** At an over-long length or with a packet ahead: no length but an over-long one is incomplete. */
  lemma AheadOrLong(d: seq<byte>, c: nat)
    requires c <= |d| && (Cut(d[c..]).overlong || Cut(d[c..]).frames != [])
    ensures c + 2 <= |d|
    ensures var n := Short(d[c], d[c + 1]); n > MAX_PACKET || c + 2 + n <= |d|
  {
    var e := d[c..];
    assert |e| >= 2 && e[0] == d[c] && e[1] == d[c + 1];
    hide Short;
  }

  // ---- Up to the skip ----

  /** Playing, with everything that came decoded and more to come. */
  ghost predicate Playing(s: Stream) {
    && Inv(s) && s.cfg.opus && s.cfg.chunked && s.active && !s.ended && s.phase.Requesting?
    && !s.dec.mode.Done? && s.read == |s.body|
  }

  lemma DecodeIdle(s: Stream)
    requires Placed(s) && s.cfg.chunked && s.read == |s.body|
    ensures Decode(s) == s
  {
    assert s.body[s.read..] == [] && H.Feed(s.dec, []) == H.Fed(s.dec, [], 0);
    assert Overwrite(s.body, s.write, []) == s.body;
    hide H.Feed, Overwrite;
  }

  lemma PlayingReady(s: Stream)
    requires Playing(s)
    ensures Ready(s) && Placed(s) && Decode(s) == s && !s.torn && !Final(s) && Layout(s)
    ensures Taken(Decoded(s), Place(s), s.cuts, false, Sent(s))
  {
    DecodeIdle(s);
    ArriveAtPump(s);
    hide Decode, Layout, Messages, Decoded, Taken;
  }

  lemma CompactEnds(s: Stream)
    requires Placed(s) && s.cfg.chunked && s.read == |s.body|
    ensures var r := CompactLate(s); r.dec == s.dec && r.read == |r.body| && Place(r) == Place(s) && r.cuts == s.cuts
  {
  }

  /** One pass with room: it gets further, or gives up on everything there is. */
  lemma ForwardMoves(s: Stream)
    requires Playing(s)
    requires var d := Decoded(s); Place(s) <= |d| && (Cut(d[Place(s)..]).overlong || Cut(d[Place(s)..]).frames != [])
    ensures Placed(s)
    ensures var r := Forward(s, Ample); r.dec == s.dec && r.read == |r.body| && Place(r) > Place(s)
  {
    ShipsOn(s);
    hide Look, ShipPackets, Decoded, Layout, Inv, Ready, CompactLate, Cut, Taken;
    CompactEnds(ShipPackets(s, Ample, 0).after);
  }

  lemma ShipsOn(s: Stream)
    requires Playing(s)
    requires var d := Decoded(s); Place(s) <= |d| && (Cut(d[Place(s)..]).overlong || Cut(d[Place(s)..]).frames != [])
    ensures Placed(s) && s.cfg.opus
    ensures var a := ShipPackets(s, Ample, 0).after;
            && a.shift == s.shift && a.pos > s.pos && a.dec == s.dec && a.cfg == s.cfg && a.read == |a.body|
  {
    PlayingReady(s);
    hide Look, ShipPackets, Decoded, Layout, Inv, Ready, CompactLate, Cut, Taken, After;
    LookMoves(s, 2000);
    var t := Look(s, 2000);
    LookStill(s, 2000);
    ShipPacketsNext(s, Ample, 0, t);
    if t.more { ShipPacketsStill(t.after, t.after, After(Ample, t.shipped), t.shipped); }
  }

  /** Past the packets taken whole, the rest of the body decides whether a length is over-long. */
  lemma OverlongAhead(s: Stream)
    requires Playing(s) && s.cuts == [] && Cut(Decoded(s)).overlong
    ensures Place(s) <= |Decoded(s)| && Cut(Decoded(s)[Place(s)..]).overlong
  {
    PlayingReady(s);
    hide Playing, Layout, Ready, Decoded, Decode;
    Whole(Decoded(s), Place(s), s.cuts, Sent(s));
    assert Decoded(s)[0..] == Decoded(s);
    hide Cut;
  }

  lemma PlayingInv(s: Stream)
    requires Playing(s)
    ensures Inv(s) && s.cfg.opus && s.cfg.chunked && s.active && !s.ended && !s.torn
  {
    PlayingReady(s);
    hide Inv, Ready, Layout, Decode, Decoded, Taken;
  }

  lemma PassSeeks(s: Stream)
    requires Playing(s) && s.cuts == [] && Cut(Decoded(s)).overlong
    ensures Placed(s)
    ensures var r := Next(s, Forwarding(Ample));
            && Playing(r) && Decoded(r) == Decoded(s) && r.raw == s.raw && Place(r) > Place(s)
            && (r.cuts == [] || r.cuts == [|Decoded(s)|])
  {
    hide Layout, Flow, Messages, Decoded, Decode, Forward, Cut, Taken, Inv, Ready, Settled, Final, Quiet;
    PlayingReady(s);
    OverlongAhead(s);
    ForwardMoves(s);
    PlayingInv(s);
    var t := Forward(s, Ample);
    ReadyPassed(s, Ample);
    ForwardKeeps(s, Ample);
    PumpKeeps(s, Ample);
    PumpForwards(s, t);
    assert s.cuts + [|Decoded(s)|] == [|Decoded(s)|];
  }

  /** A pass that does not end the stream. */
  lemma PumpForwards(s: Stream, t: Stream)
    requires Playing(s) && Placed(s) && Decode(s) == s && t == Forward(s, Ample) && t.cfg == s.cfg
    requires t.phase.Requesting? && !t.dec.mode.Done?
    ensures Next(s, Forwarding(Ample)) == t
  {
    hide Inv, Decode, Forward;
  }

  ghost predicate GaveUp(s: Stream, r: Stream) {
    Playing(r) && r.raw == s.raw && Decoded(r) == Decoded(s) && r.cuts == [|Decoded(s)|]
  }

  ghost predicate GivesUp(s: Stream)
    requires Placed(s)
  {
    exists steps :: GaveUp(s, Run(s, steps))
  }

  lemma GivesUpBy(s: Stream, steps: seq<Step>)
    requires Placed(s) && GaveUp(s, Run(s, steps))
    ensures GivesUp(s)
  {
    hide GaveUp, Run;
  }

  lemma GivesUpAfter(s: Stream, step: Step, r: Stream)
    requires Placed(s) && r == Next(s, step) && GivesUp(r) && r.raw == s.raw && Decoded(r) == Decoded(s)
    ensures GivesUp(s)
  {
    hide GaveUp, Run, Next, Decoded, Placed;
    var steps :| GaveUp(r, Run(r, steps));
    RunTail(s, step, steps);
    GaveUpEarlier(s, r, Run(r, steps));
    GivesUpBy(s, [step] + steps);
  }

  lemma {:induction false} SeeksOn(s: Stream)
    requires Playing(s) && Cut(Decoded(s)).overlong && (s.cuts == [] || s.cuts == [|Decoded(s)|])
    ensures Placed(s) && GivesUp(s)
    decreases |Decoded(s)| - Place(s)
  {
    PlayingPlaced(s);
    hide Playing, Decoded, Cut, Next, Run, GivesUp, Placed;
    if s.cuts == [] {
      PassSeeks(s);
      var r := Next(s, Forwarding(Ample));
      PlayingPlaced(r);
      SeeksOn(r);
      GivesUpAfter(s, Forwarding(Ample), r);
    } else {
      RunNone(s);
      GivesUpBy(s, []);
    }
  }

  lemma RunNone(s: Stream)
    requires Placed(s)
    ensures Run(s, []) == s
  {
  }

  lemma GaveUpEarlier(s: Stream, m: Stream, r: Stream)
    requires GaveUp(m, r) && m.raw == s.raw && Decoded(m) == Decoded(s)
    ensures GaveUp(s, r)
  {
    hide Playing, Decoded;
  }

  lemma PlayingPlaced(s: Stream)
    requires Playing(s)
    ensures Placed(s) && Place(s) <= |Decoded(s)|
  {
    PlayingReady(s);
    hide Playing, Inv, Ready, Layout, Decode, Decoded;
  }

  // ---- Before it and after it ----

  /** What arrives first starts playback, decoded up to the skip point and not further. */
  lemma FirstArrival(cfg: Config, bytes: seq<byte>)
    requires cfg.opus && cfg.chunked && cfg.start + |bytes| < RESP_BUF_SIZE
    requires var f := H.Feed(H.Fresh, bytes); |f.out| >= PREBUFFER_BYTES && !f.dec.mode.Done?
    ensures var s := Next(TtsStream.Start(cfg), Recv(bytes));
            Playing(s) && Decoded(s) == H.Feed(H.Fresh, bytes).out && s.cuts == [] && s.raw == bytes && s.cfg == cfg
  {
    hide Inv, Next, H.Feed, Decoded, Placed;
    var s0 := TtsStream.Start(cfg);
    StartKeeps(cfg);
    InvNext(s0, Recv(bytes));
    FirstState(cfg, bytes);
    var b := s0.(body := bytes, raw := bytes);
    StartPlaced(cfg);
    DecodablePlaced(b);
    FirstDecoded(cfg, bytes);
    SameDecoded(Decode(b), Arm(Decode(b)));
    hide Decode;
  }

  lemma DecodablePlaced(b: Stream)
    requires b.write == b.read == b.pos == 0 && b.dec == H.Fresh && b.cfg.chunked
    ensures Placed(b)
  {
  }

  lemma FirstState(cfg: Config, bytes: seq<byte>)
    requires cfg.opus && cfg.chunked && cfg.start + |bytes| < RESP_BUF_SIZE && |H.Feed(H.Fresh, bytes).out| >= PREBUFFER_BYTES
    ensures var s := TtsStream.Start(cfg);
            Next(s, Recv(bytes)) == Arm(Decode(s.(body := bytes, raw := bytes)))
  {
    var s := TtsStream.Start(cfg);
    assert s.body + bytes == bytes && s.raw + bytes == bytes && bytes[0..] == bytes;
    hide H.Feed, Overwrite;
  }

  lemma FirstDecoded(cfg: Config, bytes: seq<byte>)
    requires cfg.opus && cfg.chunked && !H.Feed(H.Fresh, bytes).dec.mode.Done?
    ensures var b := TtsStream.Start(cfg).(body := bytes, raw := bytes);
            var d := Decode(b);
            && Decoded(d) == H.Feed(H.Fresh, bytes).out && d.read == |d.body| && !d.dec.mode.Done?
            && d.phase.Requesting? && d.raw == bytes && d.cfg == cfg && d.cuts == [] && !d.ended
  {
    hide H.Feed, Overwrite;
    H.FeedUsesAll(H.Fresh, bytes);
    assert bytes[0..] == bytes;
    var d := Decode(TtsStream.Start(cfg).(body := bytes, raw := bytes));
    assert d.raw == bytes && d.shift == 0 && d.read == |bytes| && d.cfg.chunked;
    hide Decode;
    ReadThrough(d);
  }

  lemma ReadThrough(d: Stream)
    requires d.cfg.chunked && d.shift == 0 && d.read == |d.raw|
    ensures Decoded(d) == H.Feed(H.Fresh, d.raw).out
  {
    assert d.raw[..|d.raw|] == d.raw;
    hide H.Feed;
  }

  /** More bytes while playing only join what is there. */
  lemma SecondArrival(s: Stream, bytes: seq<byte>)
    requires Playing(s) && s.cfg.start + |s.raw| + |bytes| < RESP_BUF_SIZE
    ensures Placed(s)
    ensures Next(s, Recv(bytes)) == s.(body := s.body + bytes, raw := s.raw + bytes)
  {
    PlayingReady(s);
    assert |s.body| <= |s.raw|;
    hide Playing, Ready, Layout, Decode;
  }

  lemma SentGrows(s: Stream, r: Stream)
    requires Still(s, r)
    ensures |r.sent| >= |s.sent|
  {
  }

  /** With a packet ahead and room, one turn takes a marker and leaves the packet ahead, or sends it. */
  lemma LookShips(s: Stream, avail: nat)
    requires Pumping(s) && s.cfg.opus && avail >= 2000
    requires Place(s) <= |Decoded(s)| && Cut(Decoded(s)[Place(s)..]).frames != []
    ensures Placed(s) && s.pos + 2 <= Have(s)
    ensures var t := Look(s, avail);
            && t.more && Pumping(t.after) && Decoded(t.after) == Decoded(s) && Place(t.after) <= |Decoded(s)|
            && (t.shipped == 0 ==> t.after.sent == s.sent && Cut(Decoded(s)[Place(t.after)..]).frames != [])
            && (t.shipped > 0 ==> |t.after.sent| > |s.sent|)
  {
    hide Decoded, Look, Cut, Pumping;
    PumpingLayout(s);
    LookMoves(s, avail);
    NextLength(s);
    LookKeeps(s, avail);
    Ahead(Decoded(s), Place(s));
    LookTakes(s, avail);
    var t := Look(s, avail);
    SameDecoded(s, t.after);
    hide Layout, Messages, Flow, Length, Forwarded, Short, Still, Ready;
    InvPlaceOf(t.after);
  }

  lemma PumpingLayout(s: Stream)
    requires Pumping(s)
    ensures Placed(s) && Ready(s) && Layout(s)
  {
    ReadyForwarded(s);
    hide Layout, Messages, Flow;
  }

  /** With a packet ahead, a zero length leaves it ahead, and no other length is too long or incomplete. */
  lemma Ahead(d: seq<byte>, c: nat)
    requires c <= |d| && Cut(d[c..]).frames != []
    ensures c + 2 <= |d| && Short(d[c], d[c + 1]) <= MAX_PACKET && c + 2 + Short(d[c], d[c + 1]) <= |d|
    ensures Short(d[c], d[c + 1]) == 0 ==> Cut(d[c + 2..]).frames != []
  {
    var e := d[c..];
    assert |e| >= 2 && e[0] == d[c] && e[1] == d[c + 1] && e[2..] == d[c + 2..];
    hide Short;
  }

  lemma LookTakes(s: Stream, avail: nat)
    requires Placed(s) && s.pos + 2 <= Have(s) && avail >= 2000
    requires var n := Length(s); n <= MAX_PACKET && s.pos + 2 + n <= Have(s)
    ensures var t := Look(s, avail);
            && t.more && (t.shipped == 0 <==> Length(s) == 0)
            && (t.shipped == 0 ==> t.after.sent == s.sent && Place(t.after) == Place(s) + 2)
            && (t.shipped > 0 ==> |t.after.sent| == |s.sent| + 1)
            && t.after.cfg == s.cfg && t.after.raw == s.raw && t.after.shift == s.shift && t.after.read == s.read
  {
    Enough(Length(s));
    hide Length, I.Align;
  }

  lemma InvPlaceOf(s: Stream)
    requires Pumping(s) && s.cfg.opus
    ensures Place(s) <= |Decoded(s)|
  {
    hide Layout, Messages, Decoded;
  }

  /** With a packet ahead and room for it, a pass sends one. */
  lemma {:induction false} ShipsOne(s: Stream, room: seq<nat>)
    requires Pumping(s) && s.cfg.opus && |room| == FRAMES_PER_PASS && Roomy(room, 0)
    requires Place(s) <= |Decoded(s)| && Cut(Decoded(s)[Place(s)..]).frames != []
    ensures Placed(s) && |ShipPackets(s, room, 0).after.sent| > |s.sent|
    decreases Have(s) - s.pos
  {
    hide Pumping, Decoded, Cut, Look, ShipPackets, Placed, Still;
    LookShips(s, room[0]);
    var t := Look(s, room[0]);
    ShipPacketsNext(s, room, 0, t);
    if t.shipped == 0 {
      assert After(room, 0) == room;
      ShipsOne(t.after, room);
    } else {
      StillSelf(t.after);
      ShipPacketsStill(t.after, t.after, After(room, t.shipped), t.shipped);
      SentGrows(t.after, ShipPackets(t.after, After(room, t.shipped), t.shipped).after);
    }
  }

  lemma StillSelf(s: Stream)
    ensures Still(s, s)
  {
  }

  lemma CompactSends(s: Stream)
    requires Placed(s)
    ensures CompactLate(s).sent == s.sent && CompactLate(s).ended == s.ended
  {
  }

  /** The stream once the decoder has run: everything that came is decoded. */
  lemma ArrivesDecoded(s: Stream, d: Stream)
    requires Inv(s) && s.cfg.opus && s.cfg.chunked && s.active && !s.ended && !s.torn
    ensures Placed(s)
    ensures d == Decode(s) ==>
              && Pumping(d) && Decoded(d) == Body(s) && Place(d) == Place(s) && d.sent == s.sent
              && d.raw == s.raw && d.cfg == s.cfg && !d.ended
  {
    ArriveAtPump(s);
    DecodeKeeps(s);
    DecodeQuietly(s);
    DecodeSame(s);
    hide Layout, Flow, Messages, Decoded, H.Feed, Overwrite;
    if d == Decode(s) { AllDecoded(d); }
    hide Body;
  }

  lemma ForwardSends(d: Stream)
    requires Pumping(d) && d.cfg.opus && Place(d) <= |Decoded(d)| && Cut(Decoded(d)[Place(d)..]).frames != []
    ensures Placed(d)
    ensures var t := Forward(d, Ample);
            |t.sent| > |d.sent| && t.ended == d.ended && t.raw == d.raw && t.cfg == d.cfg
  {
    ShipsOne(d, Ample);
    assert Ready(d) && Placed(d);
    hide Pumping, Decoded, Cut, Place, ShipPackets, CompactLate, Placed;
    ReadyPassed(d, Ample);
    ShipPacketsStill(d, d, Ample, 0);
    CompactSends(ShipPackets(d, Ample, 0).after);
    hide Still, Ready;
  }

  /** The pass is decoding, forwarding, and perhaps the end message. */
  lemma PumpIs(s: Stream, t: Stream)
    requires Placed(s) && s.cfg.chunked && s.active && !s.ended && t == Forward(Decode(s), Ample)
    ensures Next(s, Forwarding(Ample)) == t || Next(s, Forwarding(Ample)) == End(t).(drained := true)
  {
    hide Decode, Forward, Final;
  }

  lemma InvPlaced(s: Stream)
    requires Inv(s)
    ensures Placed(s)
  {
  }

  /** The pass after the second arrival sends one packet more. */
  lemma PassSends(s: Stream)
    requires Inv(s) && s.cfg.opus && s.cfg.chunked && s.active && !s.ended && !s.torn
    requires Place(s) <= |Body(s)| && Cut(Body(s)[Place(s)..]).frames != []
    ensures Placed(s)
    ensures var r := Next(s, Forwarding(Ample)); |Sent(r)| > |Sent(s)| && r.raw == s.raw && r.cfg == s.cfg
  {
    hide Inv, Decoded, Cut, Body, Forward, Decode, Pumping, Place, Sent, Next, Placed;
    InvPlaced(s);
    ArrivesDecoded(s, Decode(s));
    ForwardSends(Decode(s));
    var t := Forward(Decode(s), Ample);
    PumpIs(s, t);
    EndedCount(s, t);
  }

  lemma AllDecoded(d: Stream)
    requires Layout(d) && d.cfg.chunked && (d.dec.mode.Done? || d.read == |d.body|)
    ensures Decoded(d) == Body(d)
  {
    hide H.Feed;
    var n := d.shift + d.read;
    assert d.raw[..n] + d.raw[n..] == d.raw;
    if d.dec.mode.Done? {
      H.FeedAppend(H.Fresh, d.raw[..n], d.raw[n..]);
      H.FeedDone(d.dec, d.raw[n..]);
    } else {
      assert d.raw[..n] == d.raw;
    }
  }

  lemma EndedCount(s: Stream, t: Stream)
    requires !s.ended && !t.ended && |t.sent| > |s.sent|
    ensures |Sent(t)| > |Sent(s)| && |Sent(End(t).(drained := true))| > |Sent(s)|
    ensures End(t).(drained := true).raw == t.raw && End(t).(drained := true).cfg == t.cfg
  {
  }

  // ---- The failing run ----

  /** The run sends something that is not a prefix of the packets of the whole response. */
  ghost predicate Fails(cfg: Config, raw: seq<byte>, steps: seq<Step>) {
    var s := Run(TtsStream.Start(cfg), steps);
    s.raw == raw && !(Sent(s) <= Cut(Body(s)).frames)
  }

  /** Having given up at `q`, the pump has sent the packets of the body and stands at `q`. */
  lemma AtTheSkip(s: Stream, b: seq<byte>, q: nat)
    requires Playing(s) && s.cuts == [q] && q <= |b| && Decoded(s) == b[..q] && Cut(b[..q]).overlong
    ensures Sent(s) == Cut(b).frames && Place(s) == q
  {
    PlayingReady(s);
    AcrossSkips(s);
    hide Playing, Inv, Layout, Ready, Decoded, Decode, Body;
    CutOfPrefix(b[..q], b);
    assert b[..q][0..q] == b[..q] && s.cuts[..0] == [] && b[..q][q..q] == [] && Cut([]).frames == [];
    assert Skipped(b[..q], s.cuts) == Cut(b[..q]).frames;
    hide Cut;
  }

  /** From the skip on: the rest arrives, and one more pass sends what was never framed. */
  lemma FailsFrom(raw: seq<byte>, b: seq<byte>, m: nat, q: nat, s: Stream)
    requires Playing(s) && m <= |raw| && s.cfg.start + |raw| < RESP_BUF_SIZE && s.raw == raw[..m]
    requires b == H.Feed(H.Fresh, raw).out && q <= |b| && s.cuts == [q] && Decoded(s) == b[..q]
    requires Cut(b[..q]).overlong && Cut(b[q..]).frames != []
    ensures Placed(s)
    ensures var r := Run(s, [Recv(raw[m..]), Forwarding(Ample)]);
            r.raw == raw && r.cfg == s.cfg && |Sent(r)| > |Cut(b).frames|
  {
    hide Inv, Playing, Decoded, Cut, Next, Sent, H.Feed, Body, Run, Placed, Place;
    var rest := raw[m..];
    assert raw[..m] + rest == raw;
    AtTheSkip(s, b, q);
    PlayingInv(s);
    SecondArrival(s, rest);
    var t := s.(body := s.body + rest, raw := s.raw + rest);
    Joined(s, t, b, rest);
    InvNext(s, Recv(rest));
    PassSends(t);
    TwoSteps(s, Recv(rest), Forwarding(Ample));
  }

  lemma InvNext(s: Stream, step: Step)
    requires Inv(s)
    ensures Placed(s) && Inv(Next(s, step))
  {
    NextKeeps(s, step);
    hide Inv, Next;
  }

  lemma TwoSteps(s: Stream, a: Step, b: Step)
    requires Placed(s)
    ensures Run(s, [a, b]) == Next(Next(s, a), b)
  {
    hide Next, Run;
    RunOne(Next(s, a), b);
    RunTail(s, a, [b]);
    assert [a] + [b] == [a, b];
  }

  lemma Joined(s: Stream, t: Stream, b: seq<byte>, bytes: seq<byte>)
    requires t == s.(body := s.body + bytes, raw := s.raw + bytes) && s.cfg.chunked
    requires b == H.Feed(H.Fresh, s.raw + bytes).out
    ensures Body(t) == b && Place(t) == Place(s) && Sent(t) == Sent(s)
  {
    assert Data(t) == Data(s);
    hide H.Feed;
  }

  /** Some run gives up just at `q`. */
  ghost predicate StandsAt(cfg: Config, first: seq<byte>, d: seq<byte>, steps: seq<Step>) {
    var s := Run(TtsStream.Start(cfg), steps);
    Playing(s) && s.cuts == [|d|] && s.cfg == cfg && s.raw == first && Decoded(s) == d
  }

  ghost predicate CanStandAt(cfg: Config, first: seq<byte>, d: seq<byte>) {
    exists steps :: StandsAt(cfg, first, d, steps)
  }

  lemma StandsBy(cfg: Config, first: seq<byte>, d: seq<byte>, steps: seq<Step>)
    requires StandsAt(cfg, first, d, steps)
    ensures CanStandAt(cfg, first, d)
  {
    hide StandsAt;
  }

  lemma SkipReached(cfg: Config, first: seq<byte>, d: seq<byte>)
    requires cfg.opus && cfg.chunked && cfg.start + |first| < RESP_BUF_SIZE
    requires var f := H.Feed(H.Fresh, first); d == f.out && !f.dec.mode.Done?
    requires |d| >= PREBUFFER_BYTES && Cut(d).overlong
    ensures CanStandAt(cfg, first, d)
  {
    hide Playing, Inv, Decoded, H.Feed, Next, Cut, Run, Placed, CanStandAt;
    FirstArrival(cfg, first);
    var s0 := TtsStream.Start(cfg);
    StartPlaced(cfg);
    var s1 := Next(s0, Recv(first));
    SeeksOn(s1);
    var steps :| GaveUp(s1, Run(s1, steps));
    RunTail(s0, Recv(first), steps);
    StandsBy(cfg, first, d, [Recv(first)] + steps);
  }

  lemma StartPlaced(cfg: Config)
    ensures Placed(TtsStream.Start(cfg))
  {
  }

  ghost predicate CanFail(cfg: Config, raw: seq<byte>) {
    exists steps :: Fails(cfg, raw, steps)
  }

  lemma FailsAt(cfg: Config, raw: seq<byte>, b: seq<byte>, q: nat)
    requires cfg.opus && cfg.chunked && cfg.start + |raw| < RESP_BUF_SIZE && b == H.Feed(H.Fresh, raw).out
    requires PREBUFFER_BYTES <= q <= |b| && Cut(b[..q]).overlong && Cut(b[q..]).frames != []
    ensures CanFail(cfg, raw)
  {
    var m := Point(raw, q);
    PointReached(raw, q);
    hide H.Feed, Cut, Point, CanStandAt, CanFail;
    SkipReached(cfg, raw[..m], b[..q]);
    FailsOnce(cfg, raw, b, m, q);
  }

  lemma FailsOnce(cfg: Config, raw: seq<byte>, b: seq<byte>, m: nat, q: nat)
    requires cfg.chunked && cfg.start + |raw| < RESP_BUF_SIZE && b == H.Feed(H.Fresh, raw).out && m <= |raw| && q <= |b|
    requires CanStandAt(cfg, raw[..m], b[..q]) && Cut(b[..q]).overlong && Cut(b[q..]).frames != []
    ensures CanFail(cfg, raw)
  {
    hide Playing, H.Feed, Cut, Run, Sent, Body, Decoded, Placed, Next, CanFail;
    var steps :| StandsAt(cfg, raw[..m], b[..q], steps);
    StartPlaced(cfg);
    var s := Run(TtsStream.Start(cfg), steps);
    FailsFrom(raw, b, m, q, s);
    var more := [Recv(raw[m..]), Forwarding(Ample)];
    RunOn(TtsStream.Start(cfg), steps, more);
    FailsBy(cfg, raw, b, steps + more);
  }

  lemma FailsBy(cfg: Config, raw: seq<byte>, b: seq<byte>, steps: seq<Step>)
    requires cfg.chunked && b == H.Feed(H.Fresh, raw).out
    requires var r := Run(TtsStream.Start(cfg), steps); r.raw == raw && |Sent(r)| > |Cut(b).frames|
    ensures CanFail(cfg, raw)
  {
    hide Run, Sent, Cut, H.Feed;
    assert Fails(cfg, raw, steps);
  }

  /** Every vulnerable body that fits the buffer has a run on which the prefix property fails. */
  lemma VulnerableFails(cfg: Config, raw: seq<byte>)
    requires cfg.opus && cfg.start + |raw| < RESP_BUF_SIZE
    requires Vulnerable(cfg, H.Feed(H.Fresh, raw).out)
    ensures CanFail(cfg, raw)
  {
    hide H.Feed, Cut, CanFail;
    var b := H.Feed(H.Fresh, raw).out;
    var q: nat :| Resumable(b, q);
    FailsAt(cfg, raw, b, q);
  }

  /**
   Exactly: of a response that fits the buffer, some run sends what is not a prefix of its packets if
   and only if it is chunked and its body is vulnerable.
   */
  lemma FailsExactlyWhenVulnerable(cfg: Config, raw: seq<byte>)
    requires cfg.opus && cfg.start + |raw| < RESP_BUF_SIZE
    ensures (exists steps :: Fails(cfg, raw, steps)) <==>
            Vulnerable(cfg, if cfg.chunked then H.Feed(H.Fresh, raw).out else raw)
  {
    var b := if cfg.chunked then H.Feed(H.Fresh, raw).out else raw;
    hide Vulnerable, H.Feed, Cut, Sent;
    if exists steps :: Fails(cfg, raw, steps) {
      var steps :| Fails(cfg, raw, steps);
      var s := Run(TtsStream.Start(cfg), steps);
      assert Body(s) == b;
      hide Run, Fails;
      if !Vulnerable(cfg, b) {
        PrefixUnlessVulnerable(cfg, steps);
        NotBoth(cfg, raw, steps);
      }
    } else if Vulnerable(cfg, b) {
      hide Run, Fails;
      OnlyChunked(cfg, b);
      VulnerableFails(cfg, raw);
    }
  }

  lemma OnlyChunked(cfg: Config, b: seq<byte>)
    requires Vulnerable(cfg, b)
    ensures cfg.chunked
  {
  }

  lemma NotBoth(cfg: Config, raw: seq<byte>, steps: seq<Step>)
    requires var s := Run(TtsStream.Start(cfg), steps); Sent(s) <= Cut(Body(s)).frames
    ensures !Fails(cfg, raw, steps)
  {
    hide Run, Sent, Cut, Body;
  }

  // ---- Responses of any length ----

  /** What the first bytes of a response decode to. */
  function BodyOf(cfg: Config, raw: seq<byte>): seq<byte> {
    if cfg.chunked then H.Feed(H.Fresh, raw).out else raw
  }

  /** The run takes in a part of the response and sends what is not a prefix of the packets of the whole. */
  ghost predicate FailsWithin(cfg: Config, raw: seq<byte>, steps: seq<Step>) {
    var s := Run(TtsStream.Start(cfg), steps);
    s.raw <= raw && !(Sent(s) <= Cut(BodyOf(cfg, raw)).frames)
  }

  lemma BodyGrows(cfg: Config, a: seq<byte>, raw: seq<byte>)
    requires a <= raw
    ensures BodyOf(cfg, a) <= BodyOf(cfg, raw)
  {
    hide H.Feed;
    H.FeedAppend(H.Fresh, a, raw[|a|..]);
    assert a + raw[|a|..] == raw;
  }

  /** More body only makes it more vulnerable; a vulnerable one has all its packets already. */
  lemma VulnerableGrows(cfg: Config, a: seq<byte>, b: seq<byte>)
    requires Vulnerable(cfg, a) && a <= b
    ensures Vulnerable(cfg, b) && Cut(b) == Cut(a)
  {
    hide Cut;
    var q: nat :| Resumable(a, q);
    assert b[..q] == a[..q] && a[q..] <= b[q..];
    CutOfPrefix(a[q..], b[q..]);
    CutOfPrefix(a[..q], a);
    CutOfPrefix(a, b);
    assert Resumable(b, q);
  }

  /**
   A response of any length can fail if one of its beginnings that fit the buffer is vulnerable, and only
   if it is vulnerable as a whole; of a response that fits, the two are one.
   */
  lemma FailsWhenItsBeginningIsVulnerable(cfg: Config, raw: seq<byte>)
    requires cfg.opus
    ensures (exists n: nat :: n <= |raw| && cfg.start + n < RESP_BUF_SIZE && Vulnerable(cfg, BodyOf(cfg, raw[..n]))) ==>
              exists steps :: FailsWithin(cfg, raw, steps)
    ensures (exists steps :: FailsWithin(cfg, raw, steps)) ==> Vulnerable(cfg, BodyOf(cfg, raw))
  {
    hide Vulnerable, FailsWithin, BodyOf;
    if exists n: nat :: n <= |raw| && cfg.start + n < RESP_BUF_SIZE && Vulnerable(cfg, BodyOf(cfg, raw[..n])) {
      var n: nat :| n <= |raw| && cfg.start + n < RESP_BUF_SIZE && Vulnerable(cfg, BodyOf(cfg, raw[..n]));
      var steps := BeginningFails(cfg, raw, n);
    }
    if exists steps :: FailsWithin(cfg, raw, steps) {
      var steps :| FailsWithin(cfg, raw, steps);
      FailureIsVulnerable(cfg, raw, steps);
    }
  }

  lemma BeginningFails(cfg: Config, raw: seq<byte>, n: nat) returns (steps: seq<Step>)
    requires cfg.opus && n <= |raw| && cfg.start + n < RESP_BUF_SIZE && Vulnerable(cfg, BodyOf(cfg, raw[..n]))
    ensures FailsWithin(cfg, raw, steps)
  {
    OnlyChunked(cfg, BodyOf(cfg, raw[..n]));
    hide H.Feed, Cut, Sent, Run, Vulnerable;
    VulnerableFails(cfg, raw[..n]);
    steps :| Fails(cfg, raw[..n], steps);
    BodyGrows(cfg, raw[..n], raw);
    VulnerableGrows(cfg, BodyOf(cfg, raw[..n]), BodyOf(cfg, raw));
  }

  lemma FailureIsVulnerable(cfg: Config, raw: seq<byte>, steps: seq<Step>)
    requires cfg.opus && FailsWithin(cfg, raw, steps)
    ensures Vulnerable(cfg, BodyOf(cfg, raw))
  {
    hide H.Feed, Cut, Sent, Run, Vulnerable;
    var s := Run(TtsStream.Start(cfg), steps);
    BodyGrows(cfg, s.raw, raw);
    CutOfPrefix(Body(s), BodyOf(cfg, raw));
    if Vulnerable(cfg, Body(s)) {
      VulnerableGrows(cfg, Body(s), BodyOf(cfg, raw));
    } else {
      PrefixUnlessVulnerable(cfg, steps);
    }
  }
}
