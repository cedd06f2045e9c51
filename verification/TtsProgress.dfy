/** The pump gets on: what one pass with room sends, when it waits, and that enough passes end the stream. */
module TtsProgress {
  import opened Bytes
  import opened TtsFrames
  import opened TtsStream
  import opened TtsRun
  import opened TtsPlayback
  import H = HttpChunked
  import I = IcRing

  /** Playing: what came may be sent. */
  ghost predicate Plays(s: Stream) { Inv(s) && s.active && !s.ended }

  /** No more of the response will come, or the chunked body has ended. */
  predicate Over(s: Stream) { s.phase.Idle? || (s.cfg.chunked && H.Feed(H.Fresh, s.raw).dec.mode.Done?) }

  /** The state the pump works on: everything at hand decoded. */
  function Ahead(s: Stream): (d: Stream)
    requires Placed(s)
    ensures Placed(d)
  {
    if s.cfg.chunked then Decode(s) else s
  }

  lemma InvPlaced(s: Stream)
    requires Inv(s)
    ensures Placed(s) && Layout(s)
  {
    hide Messages, Flow, H.Feed;
  }

  /** All that arrived is decoded by then. */
  lemma AheadIsBody(s: Stream)
    requires Inv(s)
    ensures Placed(s) && var d := Ahead(s);
            && Decoded(d) == Body(s) && d.raw == s.raw && d.cfg == s.cfg && Place(d) == Place(s) && d.sent == s.sent
            && (Final(d) <==> Over(s)) && d.shift + Have(d) == |Body(s)|
            && (s.phase.Idle? <==> d.phase.Idle?)
  {
    InvPlaced(s);
    hide H.Feed, Flow, Messages, Quiet, Overwrite;
    if s.cfg.chunked {
      DecodeFeeds(s);
      DecodeGrows(s);
      AllRead(s);
    }
  }

  lemma AllRead(s: Stream)
    requires Layout(s) && s.cfg.chunked
    ensures var g := H.Feed(s.dec, s.body[s.read..]);
            H.Feed(H.Fresh, s.raw) == H.Fed(g.dec, Decoded(s) + g.out, s.shift + s.read + g.used)
  {
    hide H.Feed;
    var n := s.shift + s.read;
    H.FeedAppend(H.Fresh, s.raw[..n], s.raw[n..]);
    assert s.raw[..n] + s.raw[n..] == s.raw;
  }

  // ---- Raw samples ----

  /** Whole samples of what is left, and 1024 bytes at most. */
  function Chunk(left: nat): nat { if left > 1024 then 1024 else left - left % 2 }

  lemma TakesChunk(left: nat)
    ensures PcmTake(left) == Chunk(left)
  {
  }

  /** A compaction moves no place and touches no log; what it gives back is what was passed. */
  lemma CompactionFrees(s: Stream)
    requires Placed(s)
    ensures var r := Compact(s);
            && |r.body| == |s.body| - s.pos && r.pos == 0 && Place(r) == Place(s)
            && r.sent == s.sent && r.raw == s.raw && r.cfg == s.cfg && r.phase == s.phase && r.dec == s.dec
            && r.active == s.active && r.ended == s.ended && r.cuts == s.cuts && r.torn == s.torn
    ensures CompactLate(s) == if s.pos >= 2048 then Compact(s) else s
  {
  }

  /** What a pass does once the bytes are decoded. */
  lemma PumpIs(s: Stream, room: seq<nat>)
    requires Plays(s) && Placed(s)
    ensures var d := Ahead(s); var t := Forward(d, room);
            Pump(s, room) == if Final(t) && Have(d) - t.pos < 2 then End(t).(drained := true) else t
  {
    hide Decode, Forward;
  }

  /** Moving on in the same buffer. */
  ghost predicate Moved(d: Stream, m: Stream) {
    m == d.(sent := m.sent, pos := m.pos, cuts := m.cuts, torn := m.torn) && d.pos <= m.pos <= Have(d)
  }

  lemma MovedPlaced(d: Stream, m: Stream)
    requires Placed(d) && Moved(d, m)
    ensures Placed(m) && Final(m) == Final(d) && Have(m) == Have(d) && Place(m) == Place(d) + (m.pos - d.pos)
    ensures m.active == d.active && m.ended == d.ended && m.raw == d.raw && m.cfg == d.cfg && m.shift == d.shift && m.phase == d.phase
  {
  }

  /** What a pass did with the packets or samples, compaction and end aside. */
  ghost predicate Did(s: Stream, m: Stream, room: seq<nat>) {
    Placed(s) && Moved(Ahead(s), m) && Placed(m) &&
    (Forward(Ahead(s), room) == m || (Forward(Ahead(s), room) == CompactLate(m) && m.sent != s.sent))
  }

  ghost predicate PassDid(s: Stream, m: Stream, r: Stream) {
    && Place(r) == Place(m) <= |Body(s)| && r.raw == s.raw && r.cfg == s.cfg
    && r.sent == m.sent + (if r.ended then [I.Msg(0x32, [])] else [])
    && (r.ended ==> r.drained && Over(s) && |Body(s)| - Place(r) < 2)
    && (Over(s) && |Body(s)| - Place(m) < 2 && m.sent == s.sent ==> r.ended)
    && r.active && (s.phase.Idle? ==> r.phase.Idle?)
  }

  lemma AtPump(s: Stream)
    requires Plays(s)
    ensures Placed(s) && Layout(Ahead(s)) && Placed(Ahead(s)) && Ahead(s).active && !Ahead(s).ended && Have(Ahead(s)) <= |Ahead(s).body|
  {
    InvPlaced(s);
    ArriveAtPump(s);
    hide Decode, Layout, Messages, Flow;
  }

  lemma Nothing(ms: seq<I.Msg>)
    ensures ms + [] == ms
  {
  }

  lemma Closes(t: Stream, have: nat, r: Stream)
    requires !t.ended && t.pos <= have && r == if Final(t) && have - t.pos < 2 then End(t).(drained := true) else t
    ensures Place(r) == Place(t) && r.raw == t.raw && r.cfg == t.cfg
    ensures r.sent == t.sent + (if r.ended then [I.Msg(0x32, [])] else [])
    ensures r.ended == (Final(t) && have - t.pos < 2) && (r.ended ==> r.drained) && r.active == t.active && r.phase == t.phase
  {
    hide Final;
    Nothing(t.sent);
  }

  /** Where the pass is before it may end. */
  lemma Shipped(s: Stream, m: Stream, room: seq<nat>)
    requires Plays(s) && Did(s, m, room)
    ensures var t, have := Forward(Ahead(s), room), Have(Ahead(s));
            && !t.ended && t.pos <= have && Place(t) == Place(m) && t.raw == s.raw && t.cfg == s.cfg && t.sent == m.sent
            && t.active && (s.phase.Idle? <==> t.phase.Idle?) && Final(t) == Over(s) && have - m.pos == |Body(s)| - Place(m) >= 0
            && (t.pos == m.pos || (t.pos == 0 && have >= 2048 && m.sent != s.sent))
  {
    var d := Ahead(s);
    AheadIsBody(s);
    AtPump(s);
    hide Plays, Ahead, Layout, Messages, Flow, Quiet, Body, Decoded, Forward, CompactLate, Compact, Placed, Over;
    MovedPlaced(d, m);
    CompactFinal(m);
    hide Final;
  }

  /** How a pass closes: the end message goes out when no more will come and less than two bytes are left. */
  lemma PassCloses(s: Stream, m: Stream, room: seq<nat>)
    requires Plays(s) && Did(s, m, room)
    ensures Placed(s) && PassDid(s, m, Next(s, Forwarding(room)))
  {
    Shipped(s, m, room);
    PumpIs(s, room);
    hide Plays, Ahead, Body, Forward, Pump, Placed, Over, Final, Place;
    Closes(Forward(Ahead(s), room), Have(Ahead(s)), Pump(s, room));
  }

  lemma CompactFinal(m: Stream)
    requires Placed(m)
    ensures var r := CompactLate(m);
            Final(r) == Final(m) && Place(r) == Place(m) && r.sent == m.sent && r.raw == m.raw && r.cfg == m.cfg && r.ended == m.ended
            && r.active == m.active && r.phase == m.phase
    ensures var r := CompactLate(m); r.pos == m.pos || (r.pos == 0 && Have(m) >= 2048)
  {
  }

  lemma PcmForward(d: Stream, room: seq<nat>)
    requires Placed(d) && !d.cfg.opus && Have(d) - d.pos >= 2
    requires Answer(room) >= 4 + (Chunk(Have(d) - d.pos) + 3) / 4 * 4
    ensures var n := Chunk(Have(d) - d.pos);
            && d.pos + n <= Have(d) <= |d.body|
            && Forward(d, room) == CompactLate(d.(sent := d.sent + [I.Msg(0x31, d.body[d.pos..d.pos + n])], pos := d.pos + n))
  {
    TakesChunk(Have(d) - d.pos);
    hide CompactLate, PcmTake, H.Sound;
  }

  lemma PcmStays(d: Stream, room: seq<nat>)
    requires Placed(d) && !d.cfg.opus
    requires Have(d) - d.pos < 2 || Answer(room) < 4 + (Chunk(Have(d) - d.pos) + 3) / 4 * 4
    ensures Forward(d, room) == d
  {
    TakesChunk(Have(d) - d.pos);
    hide CompactLate, PcmTake, H.Sound;
  }

  lemma PcmTo(d: Stream, room: seq<nat>) returns (m: Stream)
    requires Layout(d) && Placed(d) && !d.cfg.opus && Have(d) - d.pos >= 2
    requires Answer(room) >= 4 + (Chunk(Have(d) - d.pos) + 3) / 4 * 4
    ensures var at, n := Place(d), Chunk(Have(d) - d.pos);
            && at + n <= |Decoded(d)| && Place(m) == at + n
            && m.sent == d.sent + [I.Msg(0x31, Decoded(d)[at..at + n])] && m.sent != d.sent
            && Moved(d, m) && Placed(m) && Forward(d, room) == CompactLate(m)
  {
    PcmForward(d, room);
    var n := Chunk(Have(d) - d.pos);
    AtPlace(d, n);
    hide Layout, Decoded, Forward, CompactLate, Chunk, Answer, Final, Placed;
    m := d.(sent := d.sent + [I.Msg(0x31, d.body[d.pos..d.pos + n])], pos := d.pos + n);
    MovedPlaced(d, m);
  }

  lemma PcmDid(s: Stream, room: seq<nat>) returns (m: Stream)
    requires Plays(s) && !s.cfg.opus && |Body(s)| - Place(s) >= 2
    requires Answer(room) >= 4 + (Chunk(|Body(s)| - Place(s)) + 3) / 4 * 4
    ensures Did(s, m, room)
    ensures var at, n := Place(s), Chunk(|Body(s)| - Place(s));
            at + n <= |Body(s)| && Place(m) == at + n && m.sent == s.sent + [I.Msg(0x31, Body(s)[at..at + n])]
  {
    var d := Ahead(s);
    AheadIsBody(s);
    AtPump(s);
    assert Have(d) - d.pos == |Body(s)| - Place(s);
    hide Plays, Ahead, Layout, Body, Decoded, Forward, CompactLate, Placed, Final, Over, Moved, Chunk, Answer, Have, Place;
    m := PcmTo(d, room);
  }

  /**
   With two bytes ready and room for the chunk, one pass sends exactly the next samples of the body and
   moves on by as much; with it the end message perhaps, if then nothing is left.
   */
  lemma PcmPassSends(s: Stream, room: seq<nat>)
    requires Plays(s) && !s.cfg.opus && |Body(s)| - Place(s) >= 2
    requires room != [] && room[0] >= 4 + (Chunk(|Body(s)| - Place(s)) + 3) / 4 * 4
    ensures Placed(s)
    ensures var r, at, n := Next(s, Forwarding(room)), Place(s), Chunk(|Body(s)| - Place(s));
            && Place(r) == at + n && at + n <= |Body(s)| && r.raw == s.raw && r.cfg == s.cfg
            && r.sent == s.sent + [I.Msg(0x31, Body(s)[at..at + n])] + (if r.ended then [I.Msg(0x32, [])] else [])
            && (r.ended ==> r.drained && |Body(s)| - Place(r) < 2)
  {
    hide Plays, Did, Next, Body, Over;
    var m := PcmDid(s, room);
    PassCloses(s, m, room);
  }

  lemma StayDid(s: Stream, room: seq<nat>)
    requires Plays(s) && !s.cfg.opus
    requires |Body(s)| - Place(s) < 2 || Answer(room) < 4 + (Chunk(|Body(s)| - Place(s)) + 3) / 4 * 4
    ensures Placed(s) && Did(s, Ahead(s), room) && Ahead(s).sent == s.sent && Place(Ahead(s)) == Place(s)
  {
    AheadIsBody(s);
    AtPump(s);
    hide Ahead, Layout, Messages, Flow, Quiet, Body, Decoded, Forward, CompactLate, Compact, Final, Over;
    PcmStays(Ahead(s), room);
  }

  /** Without room it waits: nothing is sent and nothing moves. */
  lemma PcmPassWaits(s: Stream, room: seq<nat>)
    requires Plays(s) && !s.cfg.opus && |Body(s)| - Place(s) >= 2
    requires room == [] || room[0] < 4 + (Chunk(|Body(s)| - Place(s)) + 3) / 4 * 4
    ensures Placed(s)
    ensures var r := Next(s, Forwarding(room));
            r.sent == s.sent && Place(r) == Place(s) && !r.ended && r.raw == s.raw && r.cfg == s.cfg
  {
    hide Plays, Did, Next, Body, Over, Ahead;
    StayDid(s, room);
    PassCloses(s, Ahead(s), room);
    Nothing(s.sent);
  }

  /** With less than a sample left and no more to come, one pass ends the stream. */
  lemma PcmPassEnds(s: Stream, room: seq<nat>)
    requires Plays(s) && !s.cfg.opus && |Body(s)| - Place(s) < 2 && Over(s)
    ensures Placed(s)
    ensures var r := Next(s, Forwarding(room));
            r.ended && r.drained && r.sent == s.sent + [I.Msg(0x32, [])] && r.raw == s.raw && r.cfg == s.cfg && Place(r) == Place(s)
  {
    hide Plays, Did, Next, Body, Over, Ahead;
    StayDid(s, room);
    PassCloses(s, Ahead(s), room);
  }

  // ---- Opus packets ----

  function OpusMessages(ps: seq<seq<byte>>): (r: seq<I.Msg>)
    ensures |r| == |ps|
  {
    seq(|ps|, i requires 0 <= i < |ps| => I.Msg(0x33, ps[i]))
  }

  lemma OneMore(p: seq<byte>, ps: seq<seq<byte>>, k: nat, out: seq<I.Msg>)
    requires k <= |ps|
    ensures ([p] + ps)[..k + 1] == [p] + ps[..k] && ([p] + ps)[k + 1..] == ps[k..]
    ensures out + [I.Msg(0x33, p)] + OpusMessages(ps[..k]) == out + OpusMessages([p] + ps[..k])
  {
    assert OpusMessages([p] + ps[..k]) == [I.Msg(0x33, p)] + OpusMessages(ps[..k]);
  }

  /** How many of the packets go out before a pass has sent `left` of them, or one is refused room. */
  function Granted(ps: seq<seq<byte>>, room: seq<nat>, left: nat): (k: nat)
    ensures k <= left && k <= |ps|
  {
    if left == 0 || ps == [] || room == [] || room[0] < 4 + (|ps[0]| + 3) / 4 * 4 then 0
    else 1 + Granted(ps[1..], room[1..], left - 1)
  }

  /** Ready and not yet taken. */
  function Rest(d: Stream): seq<byte>
    requires d.pos <= Have(d) <= |d.body|
  {
    d.body[d.pos..Have(d)]
  }

  /** The packets ready and not yet taken. */
  function Left(d: Stream): seq<seq<byte>> {
    if d.pos <= Have(d) <= |d.body| then Cut(Rest(d)).frames else []
  }

  /** What the packet loop does: the packets granted, one message each, and nothing left if none stopped it. */
  ghost predicate Packets(d: Stream, m: Stream, k: nat, left: nat) {
    && Moved(d, m) && Have(d) <= |d.body|
    && var ps := Left(d);
       && k <= |ps| && m.sent == d.sent + OpusMessages(ps[..k]) && Left(m) == ps[k..]
       && (k == |ps| && k < left && Final(d) ==> Have(m) - m.pos < 2)
  }

  lemma CutTail(d: Stream, n: nat)
    requires d.pos + 2 + n <= Have(d) <= |d.body| && n == Length(d) <= 1500
    ensures Rest(d)[2 + n..] == Rest(d.(pos := d.pos + 2 + n)) && Rest(d)[2..2 + n] == d.body[d.pos + 2..d.pos + 2 + n]
    ensures |Rest(d)| >= 2 + n && n == Short(Rest(d)[0], Rest(d)[1])
    ensures Left(d) == First(Rest(d), n) + Left(d.(pos := d.pos + 2 + n))
  {
    hide Cut, Short, First;
    assert Rest(d)[2 + n..] == Rest(d.(pos := d.pos + 2 + n));
    CutFirst(Rest(d), n);
  }

  lemma CutStops(d: Stream)
    requires d.pos <= Have(d) <= |d.body|
    requires d.pos + 2 > Have(d) || Length(d) > 1500 || (Length(d) > 0 && d.pos + 2 + Length(d) > Have(d))
    ensures Left(d) == [] && Cut([]).frames == []
  {
  }

  lemma NonePackets(d: Stream, m: Stream, left: nat)
    requires Placed(d) && Have(d) <= |d.body| && m.sent == d.sent && Moved(d, m)
    requires Left(d) == [] && Cut([]).frames == []
    requires m.pos == d.pos || m.pos == Have(d)
    requires Final(d) ==> left == 0 || Have(d) - m.pos < 2
    ensures Packets(d, m, 0, left)
  {
    hide Cut, Final;
    assert m.pos == Have(d) ==> Rest(m) == [];
    assert d.sent + OpusMessages([]) == d.sent;
  }

  lemma StopPackets(d: Stream, left: nat)
    requires Placed(d) && Have(d) <= |d.body|
    requires left == 0 || Left(d) != []
    ensures Packets(d, d, 0, left)
  {
    hide Cut, Final;
    assert d.sent + OpusMessages([]) == d.sent;
  }

  lemma SkipPackets(d: Stream, e: Stream, m: Stream, k: nat, left: nat)
    requires Moved(d, e) && Have(d) <= |d.body| && e.sent == d.sent && Packets(e, m, k, left)
    requires Left(d) == Left(e)
    ensures Packets(d, m, k, left)
  {
    hide Cut;
  }

  lemma ShipMore(d: Stream, e: Stream, m: Stream, k: nat, left: nat, p: seq<byte>)
    requires Moved(d, e) && Have(d) <= |d.body| && e.sent == d.sent + [I.Msg(0x33, p)] && Packets(e, m, k, left)
    requires Left(d) == [p] + Left(e)
    ensures Packets(d, m, k + 1, left + 1)
  {
    hide Cut, OpusMessages;
    OneMore(p, Left(e), k, d.sent);
  }

  /** One turn of the loop, seen from the packets that are ready. */
  ghost predicate Turned(d: Stream, t: Turn, ps: seq<seq<byte>>, avail: nat)
  {
    var qs := Left(t.after);
    if t.more && t.shipped == 0 then t.after.sent == d.sent && qs == ps
    else if t.more then
      && t.shipped == 1 && |ps| > 0 && avail >= 4 + (|ps[0]| + 3) / 4 * 4
      && t.after.sent == d.sent + [I.Msg(0x33, ps[0])] && ps == [ps[0]] + qs
    else if |ps| > 0 then t.after == d && avail < 4 + (|ps[0]| + 3) / 4 * 4
    else Cut([]).frames == [] && t.after.sent == d.sent && (t.after.pos == d.pos || t.after.pos == Have(d)) && (Final(d) ==> Have(d) - t.after.pos < 2)
  }

  lemma LookTakes(d: Stream, avail: nat)
    requires Placed(d) && Have(d) <= |d.body| && d.pos + 2 <= Have(d)
    ensures var t := Look(d, avail);
            Moved(d, t.after) && Turned(d, t, Left(d), avail)
  {
    var n := Length(d);
    if n == 0 { TurnMarker(d, avail); }
    else if n > 1500 || d.pos + 2 + n > Have(d) { TurnStops(d, avail); }
    else { TurnPacket(d, avail); }
  }

  lemma TurnMarker(d: Stream, avail: nat)
    requires Placed(d) && Have(d) <= |d.body| && d.pos + 2 <= Have(d) && Length(d) == 0
    ensures var t := Look(d, avail);
            Moved(d, t.after) && Turned(d, t, Left(d), avail)
  {
    hide Cut, Final, Length, Short;
    CutTail(d, 0);
    var qs := Left(d.(pos := d.pos + 2));
    assert First(Rest(d), 0) + qs == qs;
  }

  lemma TurnStops(d: Stream, avail: nat)
    requires Placed(d) && Have(d) <= |d.body| && d.pos + 2 <= Have(d)
    requires Length(d) > 1500 || (Length(d) > 0 && d.pos + 2 + Length(d) > Have(d))
    ensures var t := Look(d, avail);
            Moved(d, t.after) && Turned(d, t, Left(d), avail)
  {
    hide Cut, Final, Length, Short;
    CutStops(d);
    hide Rest;
  }

  lemma TurnPacket(d: Stream, avail: nat)
    requires Placed(d) && Have(d) <= |d.body| && d.pos + 2 <= Have(d)
    requires 0 < Length(d) <= 1500 && d.pos + 2 + Length(d) <= Have(d)
    ensures var t := Look(d, avail);
            Moved(d, t.after) && Turned(d, t, Left(d), avail)
  {
    hide Cut, Final, Length, Short;
    CutTail(d, Length(d));
    hide Rest;
  }

  lemma MovedSelf(d: Stream)
    requires Placed(d)
    ensures Moved(d, d)
  {
  }

  /** A turn that shipped nothing goes on with the same packets. */
  lemma GoneOn(d: Stream, t: Turn, room: seq<nat>, shipped: nat, m: Stream)
    requires Moved(d, t.after) && Have(d) <= |d.body| && shipped < 4 && t.more && t.shipped == 0
    requires Turned(d, t, Left(d), Answer(room))
    requires Packets(t.after, m, Granted(Left(t.after), After(room, 0), 4 - shipped), 4 - shipped)
    ensures Packets(d, m, Granted(Left(d), room, 4 - shipped), 4 - shipped)
    ensures Granted(Left(d), room, 4 - shipped) == Granted(Left(t.after), After(room, 0), 4 - shipped)
  {
    hide Packets, Moved, Left, Final, Granted, Have;
    assert room[0..] == room;
    SkipPackets(d, t.after, m, Granted(Left(d), room, 4 - shipped), 4 - shipped);
  }

  lemma GrantedOne(p: seq<byte>, qs: seq<seq<byte>>, room: seq<nat>, left: nat)
    requires left > 0 && Answer(room) >= 4 + (|p| + 3) / 4 * 4
    ensures Granted([p] + qs, room, left) == 1 + Granted(qs, After(room, 1), left - 1)
  {
    assert ([p] + qs)[1..] == qs;
  }

  /** A turn that shipped one goes on with the others. */
  lemma WentOut(d: Stream, t: Turn, room: seq<nat>, shipped: nat, m: Stream)
    requires Moved(d, t.after) && Have(d) <= |d.body| && shipped < 4 && t.more && t.shipped == 1
    requires Turned(d, t, Left(d), Answer(room))
    requires Packets(t.after, m, Granted(Left(t.after), After(room, 1), 3 - shipped), 3 - shipped)
    ensures Packets(d, m, Granted(Left(d), room, 4 - shipped), 4 - shipped)
    ensures Granted(Left(d), room, 4 - shipped) == 1 + Granted(Left(t.after), After(room, 1), 3 - shipped)
  {
    hide Packets, Moved, Left, Final, Granted, Have, After, Answer;
    var k := Granted(Left(t.after), After(room, 1), 3 - shipped);
    GrantedOne(Left(d)[0], Left(t.after), room, 4 - shipped);
    ShipMore(d, t.after, m, k, 3 - shipped, Left(d)[0]);
  }

  lemma Stopped(d: Stream, t: Turn, room: seq<nat>, left: nat)
    requires Placed(d) && Have(d) <= |d.body| && Moved(d, t.after) && !t.more && left > 0
    requires Turned(d, t, Left(d), Answer(room))
    ensures Granted(Left(d), room, left) == 0 && Packets(d, t.after, 0, left)
  {
    hide Placed, Packets, Moved, Left, Final;
    if Left(d) == [] { NonePackets(d, t.after, left); }
    else { StopPackets(d, left); }
  }

  /** The loop stops at once. */
  lemma ShipsNone(d: Stream, room: seq<nat>, shipped: nat)
    requires Placed(d) && Have(d) <= |d.body| && shipped <= 4 && (shipped == 4 || d.pos + 2 > Have(d))
    ensures Granted(Left(d), room, 4 - shipped) == 0 && Packets(d, d, 0, 4 - shipped)
    ensures ShipPackets(d, room, shipped) == Pass(d, shipped)
  {
    hide ShipPackets, Packets, Placed, Moved, Left, Final;
    ShipPacketsStops(d, room, shipped);
    MovedSelf(d);
    if shipped == 4 {
      StopPackets(d, 0);
    } else {
      CutStops(d);
      NonePackets(d, d, 4 - shipped);
    }
  }

  /** One turn, packed up. */
  lemma Turns(d: Stream, room: seq<nat>, shipped: nat) returns (t: Turn)
    requires Placed(d) && Have(d) <= |d.body| && shipped < 4 && d.pos + 2 <= Have(d)
    ensures Moved(d, t.after) && Placed(t.after) && Have(t.after) <= |t.after.body| && t.shipped <= 1
    ensures Turned(d, t, Left(d), Answer(room))
    ensures t.more ==> Have(t.after) - t.after.pos < Have(d) - d.pos
                       && ShipPackets(d, room, shipped) == ShipPackets(t.after, After(room, t.shipped), shipped + t.shipped)
    ensures !t.more ==> ShipPackets(d, room, shipped) == Pass(t.after, shipped) && t.shipped == 0
  {
    t := Look(d, Answer(room));
    LookTakes(d, Answer(room));
    LookShips(d, Answer(room));
    hide Look, ShipPackets, Turned, Left, Final, After, Answer;
    ShipPacketsNext(d, room, shipped, t);
  }

  lemma LookShips(d: Stream, avail: nat)
    requires Placed(d) && d.pos + 2 <= Have(d)
    ensures Look(d, avail).shipped <= 1
  {
  }

  /** The loop with its packets granted. */
  ghost predicate Grants(d: Stream, room: seq<nat>, shipped: nat)
    requires Placed(d) && shipped <= 4
  {
    var p, k := ShipPackets(d, room, shipped), Granted(Left(d), room, 4 - shipped);
    Packets(d, p.after, k, 4 - shipped) && p.shipped == shipped + k
  }

  lemma GrantsMore(d: Stream, t: Turn, room: seq<nat>, shipped: nat)
    requires Placed(d) && Have(d) <= |d.body| && shipped < 4 && Moved(d, t.after) && t.more && t.shipped <= 1
    requires Turned(d, t, Left(d), Answer(room)) && Placed(t.after)
    requires ShipPackets(d, room, shipped) == ShipPackets(t.after, After(room, t.shipped), shipped + t.shipped)
    requires Grants(t.after, After(room, t.shipped), shipped + t.shipped)
    ensures Grants(d, room, shipped)
  {
    hide ShipPackets, Packets, Placed, Moved, Turned, Left, Granted, After, Answer, Have;
    var m := ShipPackets(d, room, shipped).after;
    if t.shipped == 0 { GoneOn(d, t, room, shipped, m); } else { WentOut(d, t, room, shipped, m); }
  }

  /** The packet loop sends exactly the packets granted. */
  lemma {:induction false} ShipsGranted(d: Stream, room: seq<nat>, shipped: nat)
    requires Placed(d) && Have(d) <= |d.body| && shipped <= 4
    ensures Grants(d, room, shipped)
    decreases Have(d) - d.pos
  {
    hide Grants, ShipPackets, Packets, Placed, Moved, Turned, Left, Granted, After, Answer, Have;
    if shipped == 4 || d.pos + 2 > Have(d) {
      ShipsNone(d, room, shipped);
      GrantsNone(d, room, shipped, d);
    } else {
      var t := Turns(d, room, shipped);
      if !t.more {
        Stopped(d, t, room, 4 - shipped);
        GrantsNone(d, room, shipped, t.after);
      } else {
        ShipsGranted(t.after, After(room, t.shipped), shipped + t.shipped);
        GrantsMore(d, t, room, shipped);
      }
    }
  }

  lemma GrantsNone(d: Stream, room: seq<nat>, shipped: nat, m: Stream)
    requires Placed(d) && shipped <= 4 && Granted(Left(d), room, 4 - shipped) == 0 && Packets(d, m, 0, 4 - shipped)
    requires ShipPackets(d, room, shipped) == Pass(m, shipped)
    ensures Grants(d, room, shipped)
  {
    hide ShipPackets, Packets, Left, Granted;
  }

  /** The packets of the decoded body from a place on. */
  function PacketsFrom(d: seq<byte>, at: nat): seq<seq<byte>> { if at <= |d| then Cut(d[at..]).frames else [] }

  lemma LeftIs(d: Stream)
    requires Layout(d) && d.pos <= Have(d) <= |d.body|
    ensures |Decoded(d)| == d.shift + Have(d) && Left(d) == PacketsFrom(Decoded(d), Place(d))
  {
    AtPlace(d, Have(d) - d.pos);
    hide Layout, Decoded, Cut;
    assert Decoded(d)[Place(d)..|Decoded(d)|] == Decoded(d)[Place(d)..];
  }

  lemma MovedLayout(d: Stream, m: Stream)
    requires Layout(d) && Moved(d, m)
    ensures Layout(m) && Decoded(m) == Decoded(d) && Final(m) == Final(d) && Have(m) == Have(d) && m.pos <= Have(m)
    ensures Place(m) == d.shift + m.pos && m.shift == d.shift
  {
    LayoutOnly(d, m);
    hide Layout, Decoded;
  }

  lemma ForwardOpus(d: Stream, room: seq<nat>) returns (m: Stream, k: nat)
    requires Placed(d) && d.cfg.opus && Have(d) <= |d.body|
    ensures k == Granted(Left(d), room, 4) && Packets(d, m, k, 4) && Placed(m)
    ensures Forward(d, room) == if k > 0 then CompactLate(m) else m
  {
    ShipsGranted(d, room, 0);
    hide ShipPackets, Packets, Placed, CompactLate, Left, Granted;
    var p := ShipPackets(d, room, 0);
    m, k := p.after, p.shipped;
  }

  lemma PacketsSent(d: Stream, m: Stream, k: nat)
    requires Layout(d) && Packets(d, m, k, 4)
    ensures Moved(d, m)
    ensures var ps := PacketsFrom(Decoded(d), Place(d));
            && k <= |ps| && m.sent == d.sent + OpusMessages(ps[..k]) && PacketsFrom(Decoded(d), Place(m)) == ps[k..]
            && Place(m) <= |Decoded(d)| && (k > 0 ==> m.sent != d.sent)
            && (k == |ps| < 4 && Final(d) ==> |Decoded(d)| - Place(m) < 2)
  {
    PacketsMoved(d, m, k);
    hide Layout, Decoded, Left, OpusMessages, PacketsFrom, Final, Have, Place;
    LeftIs(d);
    MovedLayout(d, m);
    LeftIs(m);
    PlaceSum(d);
    PlaceSum(m);
  }

  lemma PlaceSum(d: Stream)
    ensures Place(d) == d.shift + d.pos
  {
  }

  lemma PacketsMoved(d: Stream, m: Stream, k: nat)
    requires Placed(d) && Packets(d, m, k, 4)
    ensures Moved(d, m) && d.pos <= Have(d) <= |d.body| && Have(m) <= |m.body|
  {
    hide Left;
  }

  lemma OpusDid(s: Stream, room: seq<nat>) returns (m: Stream, k: nat)
    requires Plays(s) && s.cfg.opus
    ensures var ps := PacketsFrom(Body(s), Place(s));
            && k == Granted(ps, room, 4) && m.sent == s.sent + OpusMessages(ps[..k])
            && Place(m) <= |Body(s)| && PacketsFrom(Body(s), Place(m)) == ps[k..]
            && (k == |ps| < 4 && Over(s) ==> |Body(s)| - Place(m) < 2)
    ensures Did(s, m, room)
  {
    var d := Ahead(s);
    AheadIsBody(s);
    AtPump(s);
    LeftIs(d);
    hide Plays, Ahead, Layout, Body, Decoded, Forward, CompactLate, Placed, Final, Over, Moved, Answer, Have, Place, Granted, OpusMessages, PacketsFrom, Left, Packets;
    m, k := ForwardOpus(d, room);
    PacketsSent(d, m, k);
  }

  /**
   One pass sends exactly the packets granted, each in a message of its own: of the next four of the
   body, those up to the first the ring had no room for.
   */
  lemma OpusPassSends(s: Stream, room: seq<nat>)
    requires Plays(s) && s.cfg.opus
    ensures Placed(s)
    ensures var r, ps := Next(s, Forwarding(room)), PacketsFrom(Body(s), Place(s));
            var k := Granted(ps, room, 4);
            && r.sent == s.sent + OpusMessages(ps[..k]) + (if r.ended then [I.Msg(0x32, [])] else [])
            && Place(r) <= |Body(s)| && PacketsFrom(Body(s), Place(r)) == ps[k..] && r.raw == s.raw && r.cfg == s.cfg
            && (r.ended ==> r.drained && |Body(s)| - Place(r) < 2)
            && (Over(s) && k == |ps| < 4 ==> |Body(s)| - Place(r) < 2)
            && (Over(s) && |ps| == 0 ==> r.ended)
  {
    hide Plays, Did, Next, Body, Over, Granted, OpusMessages, PacketsFrom;
    var m, k := OpusDid(s, room);
    PassCloses(s, m, room);
    if k == 0 { NoneSent(s.sent, PacketsFrom(Body(s), Place(s))); }
  }

  lemma NoneSent(ms: seq<I.Msg>, ps: seq<seq<byte>>)
    ensures ms + OpusMessages(ps[..0]) == ms
  {
  }

  // ---- Enough passes end the stream ----

  lemma {:induction false} CutSmall(d: seq<byte>, i: nat)
    requires i < |Cut(d).frames|
    ensures 0 < |Cut(d).frames[i]| <= 1500
    decreases |d|
  {
    var n := Short(d[0], d[1]);
    var x := if n == 0 then 0 else 1;
    if i >= x { CutSmall(d[2 + n..], i - x); }
  }

  /** Room for any packet, and for any chunk, at every send of a pass. */
  predicate Roomy(room: seq<nat>) { |room| >= 4 && forall i :: 0 <= i < 4 ==> room[i] >= 1504 }

  lemma {:induction false} GrantedAll(ps: seq<seq<byte>>, room: seq<nat>, left: nat)
    requires |room| >= left && (forall i :: 0 <= i < left ==> room[i] >= 1504) && forall i :: 0 <= i < |ps| ==> |ps[i]| <= 1500
    ensures Granted(ps, room, left) == if |ps| < left then |ps| else left
  {
    if left > 0 && ps != [] { GrantedAll(ps[1..], room[1..], left - 1); }
  }

  /** Passes with room that are enough to end the stream. */
  function Enough(s: Stream): nat {
    if |Body(s)| < Place(s) + 2 then 1
    else if s.cfg.opus then |PacketsFrom(Body(s), Place(s))| / 4 + 2
    else (|Body(s)| - Place(s)) / 1024 + 2
  }

  function One(room: seq<nat>): nat { if Roomy(room) then 1 else 0 }

  ghost predicate Nearer(s: Stream, r: Stream, gain: nat) {
    Inv(r) && r.cfg == s.cfg && Body(r) == Body(s) &&
    ((r.ended && r.drained) || (Plays(r) && Over(r) && Enough(r) + gain <= Enough(s)))
  }

  ghost predicate Onward(s: Stream, r: Stream) {
    Inv(r) && r.cfg == s.cfg && r.raw == s.raw && (r.ended ==> r.drained) && r.active && (s.phase.Idle? ==> r.phase.Idle?)
  }

  lemma OnwardNearer(s: Stream, r: Stream, gain: nat)
    requires Over(s) && Onward(s, r) && (!r.ended ==> Enough(r) + gain <= Enough(s))
    ensures Nearer(s, r, gain)
  {
    hide Inv, H.Feed, Enough;
  }

  lemma PassOnward(s: Stream, room: seq<nat>, m: Stream)
    requires Plays(s) && Did(s, m, room)
    ensures Placed(s) && Onward(s, Next(s, Forwarding(room))) && PassDid(s, m, Next(s, Forwarding(room)))
  {
    hide Inv, Body, Over, Did, Pump;
    PassCloses(s, m, room);
    NextKeeps(s, Forwarding(room));
  }

  lemma NoPackets(d: seq<byte>, at: nat)
    ensures |d| < at + 2 ==> PacketsFrom(d, at) == []
  {
  }

  lemma AllGranted(d: seq<byte>, at: nat, room: seq<nat>)
    ensures var ps := PacketsFrom(d, at); Roomy(room) ==> Granted(ps, room, 4) == if |ps| < 4 then |ps| else 4
  {
    var ps := PacketsFrom(d, at);
    if Roomy(room) {
      forall i | 0 <= i < |ps| ensures |ps[i]| <= 1500 { CutSmall(d[at..], i); }
      hide Cut;
      GrantedAll(ps, room, 4);
    }
  }

  lemma OpusNearer(s: Stream, room: seq<nat>)
    requires Plays(s) && Over(s) && s.cfg.opus
    ensures Placed(s) && Nearer(s, Next(s, Forwarding(room)), One(room))
  {
    hide Plays, Did, Next, Body, Over, Granted, OpusMessages, PacketsFrom, Onward, Nearer, Place;
    var m, k := OpusDid(s, room);
    PassOnward(s, room, m);
    var r := Next(s, Forwarding(room));
    NoPackets(Body(s), Place(s));
    AllGranted(Body(s), Place(s), room);
    if k == 0 { NoneSent(s.sent, PacketsFrom(Body(s), Place(s))); }
    SameBody(s, r);
    OnwardNearer(s, r, One(room));
  }

  lemma SameBody(s: Stream, r: Stream)
    requires Onward(s, r)
    ensures Body(r) == Body(s) && r.cfg == s.cfg
  {
  }

  lemma PcmNearer(s: Stream, room: seq<nat>)
    requires Plays(s) && Over(s) && !s.cfg.opus
    ensures Placed(s) && Nearer(s, Next(s, Forwarding(room)), One(room))
  {
    InvPlaced(s);
    hide Plays, Did, Next, Body, Over, Onward, Nearer, Place, Placed;
    var left := |Body(s)| - Place(s);
    var m: Stream;
    if left >= 2 && Answer(room) >= 4 + (Chunk(left) + 3) / 4 * 4 {
      m := PcmDid(s, room);
    } else {
      m := Ahead(s);
      StayDid(s, room);
    }
    PassOnward(s, room, m);
    var r := Next(s, Forwarding(room));
    SameBody(s, r);
    OnwardNearer(s, r, One(room));
  }

  /** A pass brings the end nearer if it has room, and never puts it off. */
  lemma PassNearer(s: Stream, room: seq<nat>)
    requires Plays(s) && Over(s)
    ensures Placed(s) && Nearer(s, Next(s, Forwarding(room)), One(room))
  {
    if s.cfg.opus { OpusNearer(s, room); } else { PcmNearer(s, room); }
  }

  function Passes(rooms: seq<seq<nat>>): (steps: seq<Step>)
    ensures |steps| == |rooms| && forall i :: 0 <= i < |steps| ==> steps[i] == Forwarding(rooms[i])
  {
    seq(|rooms|, i requires 0 <= i < |rooms| => Forwarding(rooms[i]))
  }

  /** How many of the passes have room. */
  function WithRoom(rooms: seq<seq<nat>>): nat {
    if rooms == [] then 0 else WithRoom(rooms[..|rooms| - 1]) + One(rooms[|rooms| - 1])
  }

  lemma PassesNext(s: Stream, rooms: seq<seq<nat>>)
    requires Placed(s) && rooms != []
    ensures var front, room := rooms[..|rooms| - 1], rooms[|rooms| - 1];
            && Run(s, Passes(rooms)) == Next(Run(s, Passes(front)), Forwarding(room))
            && WithRoom(rooms) == WithRoom(front) + One(room)
  {
    hide Next, Placed;
    assert Passes(rooms)[..|rooms| - 1] == Passes(rooms[..|rooms| - 1]);
  }

  lemma NearerOn(s: Stream, t: Stream, room: seq<nat>, gain: nat)
    requires Nearer(s, t, gain)
    ensures Placed(t) && Nearer(s, Next(t, Forwarding(room)), gain + One(room))
  {
    hide Inv, Body, Over, Enough, Next, Placed;
    if t.ended && t.drained { EndedStays(t, room); } else { PassNearer(t, room); }
  }

  lemma {:induction false} PassesNearer(s: Stream, rooms: seq<seq<nat>>)
    requires Plays(s) && Over(s)
    ensures Placed(s) && Nearer(s, Run(s, Passes(rooms)), WithRoom(rooms))
    decreases |rooms|
  {
    InvPlaced(s);
    hide Inv, Body, Over, Enough, Next, Placed, Nearer, Plays, WithRoom;
    if rooms == [] {
      NoPass(s);
    } else {
      var front := rooms[..|rooms| - 1];
      PassesNearer(s, front);
      PassesNext(s, rooms);
      NearerOn(s, Run(s, Passes(front)), rooms[|rooms| - 1], WithRoom(front));
    }
  }

  lemma NoPass(s: Stream)
    requires Plays(s) && Over(s) && Placed(s)
    ensures Nearer(s, Run(s, Passes([])), WithRoom([]))
  {
    hide Inv, Body, Over, Enough;
  }

  lemma EndedStays(s: Stream, room: seq<nat>)
    requires Inv(s) && s.ended
    ensures Placed(s) && Next(s, Forwarding(room)) == s
  {
    InvPlaced(s);
  }

  /**
   Once no more will come, enough passes with room, however many without come between them, end the
   stream with everything sent: all packets of the body, or all its samples but an odd last byte.
   */
  lemma PassesDrain(s: Stream, rooms: seq<seq<nat>>)
    requires Plays(s) && Over(s) && WithRoom(rooms) >= Enough(s)
    ensures Placed(s)
    ensures var r := Run(s, Passes(rooms));
            && r.ended && r.drained && Body(r) == Body(s)
            && (s.cfg.opus && !Cut(Body(s)).overlong ==> Sent(r) == Cut(Body(s)).frames)
            && (!s.cfg.opus ==> Flatten(Sent(r)) <= Body(s) && |Body(s)| - |Flatten(Sent(r))| < 2)
  {
    PassesNearer(s, rooms);
    var r := Run(s, Passes(rooms));
    assert Enough(r) >= 1;
    hide Run, Body, Enough, Inv, Over, WithRoom, Cut, Sent;
    if s.cfg.opus {
      if !Cut(Body(s)).overlong { PrefixOfPackets(r); }
    } else {
      PcmDrained(r);
    }
  }

  lemma PcmDrained(r: Stream)
    requires Inv(r) && r.drained && !r.cfg.opus
    ensures Flatten(Sent(r)) <= Body(r) && |Body(r)| - |Flatten(Sent(r))| < 2
  {
    DecodedIsPrefix(r);
    hide Layout, Messages, Quiet, Decoded, Sent, Settled, Body;
  }

  // ---- When it starts ----

  /** How much is ready, as the receive callback counts it. */
  function ReadyBytes(s: Stream): nat {
    if !s.cfg.opus then |s.raw| else if s.cfg.chunked then |Body(s)| else 0
  }

  lemma ReadyDecoded(b: Stream)
    requires Layout(b) && Quiet(b) && !b.active && b.cfg.chunked
    ensures var d := Decode(b);
            d.write == |Body(b)| && d.raw == b.raw && d.sent == b.sent && d.shift == b.shift && d.pos == b.pos && !d.active
  {
    DecodeFeeds(b);
    DecodeGrows(b);
    AllRead(b);
    hide H.Feed, Layout, Overwrite;
  }

  lemma Starts(b: Stream)
    requires Layout(b) && Quiet(b)
    ensures var r := Arrived(b);
            && r.raw == b.raw && r.cfg == b.cfg && r.sent == b.sent && Place(r) == Place(b)
            && (r.active <==> b.active || ReadyBytes(b) >= 8192)
  {
    var eager := b.cfg.opus && b.cfg.chunked && !b.active;
    assert !b.active && !b.cfg.opus ==> |b.body| == |b.raw|;
    if eager { ReadyDecoded(b); }
    hide Decode, Layout, Body;
  }

  lemma FitsBehind(s: Stream, bytes: seq<byte>)
    requires Layout(s) && Quiet(s) && !s.phase.Idle?
    ensures var c := if Fits(s, |bytes|) then s else Compact(s);
            var b := c.(body := c.body + bytes, raw := c.raw + bytes);
            && (Fits(c, |bytes|) <==> s.cfg.start + (|s.raw| - Place(s)) + |bytes| < 131072)
            && Layout(b) && Quiet(b) && c.raw == s.raw && c.cfg == s.cfg && c.sent == s.sent && Place(c) == Place(s) && c.active == s.active
  {
    CompactQuietly(s);
    var c := if Fits(s, |bytes|) then s else Compact(s);
    AppendQuietly(c, bytes);
    CompactionFrees(s);
    hide Layout, Quiet, Compact, Settled;
    assert |s.raw| == s.shift + |s.body| && |c.raw| == c.shift + |c.body| by { LayoutLength(s); LayoutLength(c); }
  }

  lemma LayoutLength(s: Stream)
    requires Layout(s)
    ensures s.shift + |s.body| == |s.raw|
  {
    hide H.Feed;
  }

  /** Bytes are taken exactly while they fit behind what is not yet played; playback starts once 8192 are ready. */
  lemma ArrivalStarts(s: Stream, bytes: seq<byte>)
    requires Inv(s) && !s.phase.Idle?
    ensures Placed(s)
    ensures var r := Next(s, Recv(bytes));
            var fits := s.cfg.start + (|s.raw| - Place(s)) + |bytes| < 131072;
            && r.raw == (if fits then s.raw + bytes else s.raw) && r.cfg == s.cfg && r.sent == s.sent && Place(r) == Place(s)
            && (r.active <==> s.active || (fits && ReadyBytes(r) >= 8192))
  {
    InvPlaced(s);
    FitsBehind(s, bytes);
    var c := if Fits(s, |bytes|) then s else Compact(s);
    var b := c.(body := c.body + bytes, raw := c.raw + bytes);
    Starts(b);
    hide Layout, Quiet, Compact, Arrived, Fits, ReadyBytes, Inv, Place;
    SameReady(b, Arrived(b));
  }

  lemma SameReady(b: Stream, r: Stream)
    requires r.raw == b.raw && r.cfg == b.cfg
    ensures ReadyBytes(r) == ReadyBytes(b)
  {
  }

  /** A response that is done starts playback whatever its length; one that failed ends what plays, and starts nothing. */
  lemma DoneStarts(s: Stream)
    requires Inv(s) && (s.phase.DoneOk? || s.phase.DoneErr?)
    ensures Placed(s)
    ensures var r := Next(s, Handle);
            && r.phase.Idle? && r.raw == s.raw && r.cfg == s.cfg && Place(r) == Place(s) && Over(r)
            && (s.phase.DoneOk? ==> r.sent == s.sent && r.ended == s.ended && (r.active <==> s.active || s.cfg.kind.Tts? || s.cfg.opus))
            && (s.phase.DoneErr? ==> r.active == s.active && r.ended == s.active &&
                                     r.sent == s.sent + (if s.active && !s.ended then [I.Msg(0x32, [])] else []))
  {
    InvPlaced(s);
    Nothing(s.sent);
    hide Layout, Messages, Flow, H.Feed;
  }

  /** After a stop nothing more is taken in, no handler runs, and what came before is as it was: passes drain it. */
  lemma StopCloses(s: Stream, bytes: seq<byte>, ok: bool)
    requires Inv(s)
    ensures Placed(s) && Inv(Next(s, Stop))
    ensures var r := Next(s, Stop);
            && Over(r) && r.raw == s.raw && r.sent == s.sent && Place(r) == Place(s) && (Plays(s) ==> Plays(r))
            && Placed(r) && Next(r, Recv(bytes)) == r && Next(r, Finish(ok)) == r && Next(r, Handle) == r
  {
    InvPlaced(s);
    NextKeeps(s, Stop);
    hide Layout, Messages, Flow, H.Feed;
  }

  /** A response that finishes well, with playback not begun, plays from its first byte. */
  lemma FinishPlays(s: Stream)
    requires Inv(s) && !s.phase.Idle? && (s.cfg.kind.Tts? || s.cfg.opus) && !s.ended
    ensures Placed(s)
    ensures var r := Next(Next(s, Finish(true)), Handle);
            Plays(r) && Over(r) && r.raw == s.raw && r.sent == s.sent && Place(r) == Place(s)
  {
    InvPlaced(s);
    NextKeeps(s, Finish(true));
    var t := Next(s, Finish(true));
    NextKeeps(t, Handle);
    DoneStarts(t);
    hide Layout, Messages, Flow, H.Feed;
  }

  /** Decoding the terminator finishes the response by itself. */
  lemma TerminatorFinishes(s: Stream, room: seq<nat>)
    requires Plays(s) && s.cfg.chunked && s.phase.Requesting? && !s.dec.mode.Done?
    ensures Placed(s)
    ensures Next(s, Forwarding(room)).phase == if H.Feed(H.Fresh, s.raw).dec.mode.Done? then DoneOk else Requesting
  {
    InvPlaced(s);
    AllRead(s);
    hide Layout, Messages, Flow, H.Feed;
    PumpPhase(s, room);
  }

  lemma PumpPhase(s: Stream, room: seq<nat>)
    requires Placed(s) && s.active && !s.ended && s.cfg.chunked
    ensures Next(s, Forwarding(room)).phase == Decode(s).phase
  {
    hide Decode;
    var d := Decode(s);
    ForwardPhase(d, room);
    hide Forward;
  }

  lemma ForwardPhase(d: Stream, room: seq<nat>)
    requires Placed(d)
    ensures Forward(d, room).phase == d.phase
  {
    ShipsPhase(d, room, 0);
    hide ShipPackets;
  }

  lemma {:induction false} ShipsPhase(d: Stream, room: seq<nat>, shipped: nat)
    requires Placed(d)
    ensures ShipPackets(d, room, shipped).after.phase == d.phase
    decreases Have(d) - d.pos
  {
    if shipped < FRAMES_PER_PASS && d.pos + 2 <= Have(d) {
      var t := Look(d, Answer(room));
      LookPhase(d, Answer(room));
      ShipPacketsNext(d, room, shipped, t);
      if t.more { ShipsPhase(t.after, After(room, t.shipped), shipped + t.shipped); }
    }
  }

  lemma LookPhase(d: Stream, avail: nat)
    requires Placed(d) && d.pos + 2 <= Have(d)
    ensures Look(d, avail).after.phase == d.phase
  {
  }
}
