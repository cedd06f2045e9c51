/** What holds of the streaming response after any run of its calls, and what the pump has sent by then. */
module TtsRun {
  import opened Bytes
  import opened TtsFrames
  import opened TtsStream
  import H = HttpChunked
  import I = IcRing

  /** Everything decoded so far, compacted away or not. */
  function Decoded(s: Stream): seq<byte> {
    if !s.cfg.chunked then s.raw
    else if s.shift + s.read <= |s.raw| then H.Feed(H.Fresh, s.raw[..s.shift + s.read]).out
    else []
  }

  /** Position of the pump in what was decoded. */
  function Place(s: Stream): nat { s.shift + s.pos }

  /** The buffer holds what is left of the decoded bytes, then (after a gap) the raw bytes not read yet. */
  ghost predicate Layout(s: Stream) {
    && Placed(s) && s.shift + |s.body| == |s.raw|
    && if s.cfg.chunked then
         var f := H.Feed(H.Fresh, s.raw[..s.shift + s.read]);
         && f.dec == s.dec && f.used == s.shift + s.read && |f.out| == s.shift + s.write
         && s.body[..s.write] == f.out[s.shift..] && s.body[s.read..] == s.raw[s.shift + s.read..]
       else s.body == s.raw[s.shift..]
  }

  /** Nothing more will be decoded. */
  predicate Settled(s: Stream) {
    Final(s) && (s.cfg.chunked ==> s.dec.mode.Done? || s.read == |s.body|)
  }

  function Payloads(ms: seq<I.Msg>): (r: seq<seq<byte>>)
    ensures |r| == |ms|
  {
    if ms == [] then [] else Payloads(ms[..|ms| - 1]) + [ms[|ms| - 1].payload]
  }

  /** The data messages sent: all but the closing one. */
  function Data(s: Stream): seq<I.Msg> {
    if s.ended && s.sent != [] then s.sent[..|s.sent| - 1] else s.sent
  }

  function Sent(s: Stream): seq<seq<byte>> { Payloads(Data(s)) }

  function DataType(cfg: Config): u16 { if cfg.opus then OPUS_PKT else PCM_CHUNK }

  /** Data messages, and then at most one end message. */
  ghost predicate Messages(s: Stream) {
    && (s.ended ==> s.sent != [] && s.sent[|s.sent| - 1] == I.Msg(TTS_END, []))
    && forall i :: 0 <= i < |Data(s)| ==> Data(s)[i].typ == DataType(s.cfg)
  }

  ghost predicate Flow(s: Stream) {
    && (if s.cfg.opus then Taken(Decoded(s), Place(s), s.cuts, s.torn, Sent(s))
        else !s.torn && s.cuts == [] && Place(s) <= |Decoded(s)| && Flatten(Sent(s)) == Decoded(s)[..Place(s)])
    && (s.torn || s.drained ==> Settled(s))
    && (s.drained ==> s.ended && |Decoded(s)| - Place(s) < 2)
  }

  ghost predicate Quiet(s: Stream) {
    !s.active ==> s.pos == 0 && s.shift == 0 && s.sent == [] && s.cuts == [] && !s.torn && !s.ended && !s.drained
  }

  ghost predicate Inv(s: Stream) { Layout(s) && Messages(s) && Flow(s) && Quiet(s) }

  // ---- The decoded bytes under the calls that move them ----

  lemma Window(s: Stream)
    requires Layout(s)
    ensures |Decoded(s)| == s.shift + Have(s)
    ensures s.body[..Have(s)] == Decoded(s)[s.shift..]
  {
    hide H.Feed;
    assert !s.cfg.chunked ==> s.body[..|s.body|] == s.body;
  }

  lemma FeedOn(raw: seq<byte>, a: nat, tail: seq<byte>)
    requires a <= |raw| && tail == raw[a..]
    ensures var f := H.Feed(H.Fresh, raw[..a]);
            var g := H.Feed(f.dec, tail);
            H.Feed(H.Fresh, raw[..a + g.used]) == H.Fed(g.dec, f.out + g.out, f.used + g.used)
  {
    hide H.Feed;
    var f := H.Feed(H.Fresh, raw[..a]);
    var g := H.Feed(f.dec, tail);
    H.FeedUsed(f.dec, tail);
    H.FeedAppend(H.Fresh, raw[..a], tail[..g.used]);
    assert raw[..a] + tail[..g.used] == raw[..a + g.used];
  }

  lemma DecodeBytes(body: seq<byte>, write: nat, read: nat, out: seq<byte>, used: nat, front: seq<byte>)
    requires write <= read && |out| <= used && read + used <= |body| && body[..write] == front
    ensures var b := Overwrite(body, write, out);
            b[..write + |out|] == front + out && b[read + used..] == body[read + used..]
  {
  }

  /** The decoder's state and output after a call are those of one call on everything read so far. */
  lemma DecodeFeeds(s: Stream)
    requires Layout(s) && s.cfg.chunked
    ensures var g := H.Feed(s.dec, s.body[s.read..]);
            && H.Feed(H.Fresh, s.raw[..s.shift + s.read + g.used]) ==
               H.Fed(g.dec, Decoded(s) + g.out, s.shift + s.read + g.used)
            && |Decoded(s)| == s.shift + s.write && s.body[..s.write] == Decoded(s)[s.shift..]
            && (g.dec.mode.Done? || s.read + g.used == |s.body|)
            && (s.dec.mode.Done? || s.read == |s.body| ==> g == H.Fed(s.dec, [], 0))
  {
    hide H.Feed;
    FeedOn(s.raw, s.shift + s.read, s.body[s.read..]);
    DecodeEnds(s.dec, s.body[s.read..]);
  }

  lemma DecodeGrows(s: Stream)
    requires Layout(s) && s.cfg.chunked
    ensures var r := Decode(s); Decoded(r) == Decoded(s) + H.Feed(s.dec, s.body[s.read..]).out
  {
    hide H.Feed, Overwrite;
    DecodeFeeds(s);
  }

  lemma DecodeMoves(raw: seq<byte>, body: seq<byte>, shift: nat, write: nat, read: nat, out: seq<byte>, more: seq<byte>, used: nat)
    requires write <= read && |more| <= used && read + used <= |body| && shift + |body| == |raw|
    requires |out| == shift + write && body[..write] == out[shift..] && body[read..] == raw[shift + read..]
    ensures var b := Overwrite(body, write, more);
            b[..write + |more|] == (out + more)[shift..] && b[read + used..] == raw[shift + read + used..]
  {
    hide Overwrite;
    DecodeBytes(body, write, read, more, used, out[shift..]);
    Spliced(raw, body, shift, read, used, out, more);
  }

  lemma DecodeLayout(s: Stream)
    requires Layout(s) && s.cfg.chunked
    ensures Layout(Decode(s))
  {
    hide H.Feed, Overwrite;
    DecodeFeeds(s);
    var g := H.Feed(s.dec, s.body[s.read..]);
    DecodeMoves(s.raw, s.body, s.shift, s.write, s.read, Decoded(s), g.out, g.used);
  }

  lemma DecodeKeeps(s: Stream)
    requires Layout(s) && s.cfg.chunked
    ensures var r := Decode(s);
            && Layout(r) && Decoded(s) <= Decoded(r) && (Settled(s) ==> Decoded(r) == Decoded(s) && Settled(r))
            && (r.dec.mode.Done? || r.read == |r.body|)
  {
    DecodeFeeds(s);
    DecodeGrows(s);
    DecodeLayout(s);
    hide H.Feed, Overwrite, Layout, Decoded;
  }

  lemma DecodeEnds(d: H.Decoder, tail: seq<byte>)
    requires H.Sound(d)
    ensures var g := H.Feed(d, tail);
            && (g.dec.mode.Done? || g.used == |tail|)
            && (d.mode.Done? || tail == [] ==> g == H.Fed(d, [], 0))
  {
    if !H.Feed(d, tail).dec.mode.Done? { H.FeedUsesAll(d, tail); }
    if d.mode.Done? { H.FeedDone(d, tail); }
  }

  lemma Spliced(raw: seq<byte>, body: seq<byte>, shift: nat, read: nat, used: nat, out: seq<byte>, more: seq<byte>)
    requires shift <= |out| && read + used <= |body| && shift + |body| == |raw| && body[read..] == raw[shift + read..]
    ensures (out + more)[shift..] == out[shift..] + more && out + [] == out
    ensures body[read + used..] == raw[shift + read + used..]
  {
    assert body[read..][used..] == body[read + used..];
    assert raw[shift + read..][used..] == raw[shift + read + used..];
  }

  lemma CompactKeeps(s: Stream)
    requires Layout(s)
    ensures var r := Compact(s);
            Layout(r) && Decoded(r) == Decoded(s) && Place(r) == Place(s) && (Settled(s) ==> Settled(r))
  {
    hide H.Feed;
    var r := Compact(s);
    if s.cfg.chunked {
      assert r.body[..r.write] == s.body[..s.write][s.pos..];
      assert r.body[r.read..] == s.body[s.read..];
    }
  }

  /** Bytes appended: the decoded prefix grows at once when the body is not chunked, and not before the decoder runs otherwise. */
  lemma AppendKeeps(s: Stream, bytes: seq<byte>)
    requires Layout(s)
    ensures var r := s.(body := s.body + bytes, raw := s.raw + bytes);
            Layout(r) && Decoded(s) <= Decoded(r) && (s.cfg.chunked ==> Decoded(r) == Decoded(s))
  {
    hide H.Feed;
    var r := s.(body := s.body + bytes, raw := s.raw + bytes);
    assert s.cfg.chunked ==> r.raw[..s.shift + s.read] == s.raw[..s.shift + s.read];
  }

  // ---- The pump's place in the decoded bytes ----

  /** Calls that send nothing and leave the pump where it is in the decoded bytes. */
  ghost predicate Quietly(s: Stream, r: Stream) {
    && r.cfg == s.cfg && r.sent == s.sent && r.ended == s.ended && r.cuts == s.cuts && r.torn == s.torn
    && r.drained == s.drained && Place(r) == Place(s) && Decoded(s) <= Decoded(r)
    && (Settled(s) ==> Settled(r) && Decoded(r) == Decoded(s))
  }

  lemma QuietlyKeeps(s: Stream, r: Stream)
    requires Flow(s) && Messages(s) && Quietly(s, r)
    ensures Flow(r) && Messages(r)
  {
    hide Taken, Decoded, Settled, Place;
    if s.cfg.opus { TakenGrows(Decoded(s), Decoded(r), Place(s), s.cuts, s.torn, Sent(s)); }
  }

  lemma QuietlyTrans(s: Stream, m: Stream, r: Stream)
    requires Quietly(s, m) && Quietly(m, r)
    ensures Quietly(s, r)
  {
    hide Decoded, Settled, Place;
  }

  lemma DecodeQuietly(s: Stream)
    requires Layout(s) && Quiet(s) && s.cfg.chunked
    ensures var r := Decode(s); Layout(r) && Quietly(s, r) && Quiet(r) && r.phase.Idle? == s.phase.Idle?
  {
    DecodeKeeps(s);
    hide Layout, Decoded, Settled, H.Feed, Overwrite;
  }

  lemma CompactQuietly(s: Stream)
    requires Layout(s) && Quiet(s)
    ensures var r := Compact(s); Layout(r) && Quietly(s, r) && Quiet(r) && r.phase == s.phase
  {
    CompactKeeps(s);
    hide Layout, Decoded, Settled;
  }

  lemma AppendQuietly(s: Stream, bytes: seq<byte>)
    requires Layout(s) && Quiet(s) && !s.phase.Idle?
    ensures var r := s.(body := s.body + bytes, raw := s.raw + bytes);
            Layout(r) && Quietly(s, r) && Quiet(r)
  {
    AppendKeeps(s, bytes);
    assert Settled(s) ==> s.cfg.chunked && s.dec.mode.Done?;
    hide Layout, Decoded;
  }

  lemma ArmQuietly(s: Stream)
    requires Layout(s) && Quiet(s) && !s.active
    ensures Layout(Arm(s)) && Quietly(s, Arm(s)) && Quiet(Arm(s))
  {
    assert Decoded(Arm(s)) == Decoded(s);
    assert Layout(Arm(s));
    hide Layout, Decoded;
  }

  lemma ArrivedQuietly(s: Stream)
    requires Layout(s) && Quiet(s)
    ensures var r := Arrived(s); Layout(r) && Quietly(s, r) && Quiet(r)
  {
    assert Quietly(s, s);
    var eager := s.cfg.opus && s.cfg.chunked && !s.active;
    if eager { DecodeQuietly(s); }
    var d := if eager then Decode(s) else s;
    hide Layout, Quietly, Quiet, Decode;
    if !d.active { ArmQuietly(d); QuietlyTrans(s, d, Arm(d)); }
    hide Arm;
  }

  lemma ReceiveQuietly(s: Stream, bytes: seq<byte>)
    requires Layout(s) && Quiet(s) && !s.phase.Idle?
    ensures var r := Receive(s, bytes); Layout(r) && Quietly(s, r) && Quiet(r)
  {
    assert Quietly(s, s);
    CompactQuietly(s);
    var c := if Fits(s, |bytes|) then s else Compact(s);
    AppendQuietly(c, bytes);
    var b := c.(body := c.body + bytes, raw := c.raw + bytes);
    ArrivedQuietly(b);
    hide Layout, Quietly, Quiet, Compact, Arrived, Fits;
    QuietlyTrans(s, c, b);
    QuietlyTrans(s, b, Arrived(b));
  }

  // ---- The pump ----

  lemma PayloadsAppend(ms: seq<I.Msg>, m: I.Msg)
    ensures Payloads(ms + [m]) == Payloads(ms) + [m.payload]
  {
    assert (ms + [m])[..|ms|] == ms;
  }

  /** Sending one more data message. */
  lemma ShipSent(s: Stream, from: nat, to: nat)
    requires from <= to <= |s.body| && !s.ended && Messages(s)
    ensures var r := Ship(s, DataType(s.cfg), from, to); Messages(r) && Sent(r) == Sent(s) + [s.body[from..to]]
  {
    PayloadsAppend(s.sent, I.Msg(DataType(s.cfg), s.body[from..to]));
    assert Data(s) == s.sent;
    assert Data(Ship(s, DataType(s.cfg), from, to)) == s.sent + [I.Msg(DataType(s.cfg), s.body[from..to])];
  }

  lemma EndSent(s: Stream)
    requires !s.ended && Messages(s)
    ensures Messages(End(s)) && Sent(End(s)) == Sent(s)
  {
    assert Data(s) == s.sent && Data(End(s)) == s.sent;
  }

  /** The bytes at the pump's place. */
  lemma AtPlace(s: Stream, n: nat)
    requires Layout(s) && s.pos + n <= Have(s)
    ensures Place(s) + n <= |Decoded(s)|
    ensures s.body[s.pos..s.pos + n] == Decoded(s)[Place(s)..Place(s) + n]
    ensures |Decoded(s)| == s.shift + Have(s)
  {
    Window(s);
    hide Layout, Decoded;
    SliceOfSlice(s.body, 0, Have(s), s.pos, s.pos + n);
    SliceOfDrop(Decoded(s), s.shift, s.pos, s.pos + n);
  }

  /** The pump is about to look for data: everything at hand is decoded, and the stream is not ended. */
  ghost predicate Ready(s: Stream) {
    Layout(s) && Messages(s) && Flow(s) && s.active && !s.ended && !s.drained
    && (s.cfg.chunked ==> s.dec.mode.Done? || s.read == |s.body|)
  }

  ghost predicate Pumping(s: Stream) { Ready(s) && !s.torn }

  /** The layout does not look at the pump or its logs. */
  lemma LayoutOnly(s: Stream, r: Stream)
    requires Layout(s) && r.cfg == s.cfg && r.body == s.body && r.read == s.read && r.write == s.write && r.dec == s.dec
    requires r.raw == s.raw && r.shift == s.shift && r.pos <= Have(r) && r.phase == s.phase
    ensures Layout(r) && Decoded(r) == Decoded(s) && Settled(r) == Settled(s)
  {
    hide H.Feed;
  }

  /** The next length, as the decoded bytes have it. */
  lemma NextLength(s: Stream)
    requires Layout(s) && s.pos + 2 <= Have(s)
    ensures Place(s) + 2 <= |Decoded(s)| == s.shift + Have(s)
    ensures Length(s) == Short(Decoded(s)[Place(s)], Decoded(s)[Place(s) + 1])
  {
    AtPlace(s, 2);
    var x, y := s.body[s.pos..s.pos + 2], Decoded(s)[Place(s)..Place(s) + 2];
    assert x[0] == s.body[s.pos] && x[1] == s.body[s.pos + 1];
    assert y[0] == Decoded(s)[Place(s)] && y[1] == Decoded(s)[Place(s) + 1];
    hide Layout, Decoded, Short;
  }

  lemma OpusFlow(r: Stream, d: seq<byte>, c: nat, out: seq<seq<byte>>)
    requires r.cfg.opus && Decoded(r) == d && Place(r) == c && Sent(r) == out && !r.drained
    requires Taken(d, c, r.cuts, r.torn, out) && (r.torn ==> Settled(r))
    ensures Flow(r)
  {
  }

  lemma SameMessages(s: Stream, r: Stream)
    requires Messages(s) && r.sent == s.sent && r.ended == s.ended && r.cfg == s.cfg
    ensures Messages(r) && Sent(r) == Sent(s)
  {
    assert Data(r) == Data(s);
  }

  /** The pump's view of a state it can go on from. */
  lemma OpusTaken(s: Stream)
    requires Pumping(s) && s.cfg.opus
    ensures Layout(s) && Messages(s) && Taken(Decoded(s), Place(s), s.cuts, false, Sent(s)) && !s.ended && !s.drained
    ensures Placed(s) && Have(s) <= |s.body|
    ensures !s.torn && s.active && (s.cfg.chunked ==> s.dec.mode.Done? || s.read == |s.body|)
  {
  }

  /** After the packet loop: everything stands, and the stream is not ended. */
  ghost predicate Forwarded(s: Stream, r: Stream) {
    && Layout(r) && Messages(r) && Flow(r) && r.active && !r.ended && !r.drained
    && r.cfg == s.cfg && (Settled(s) ==> Settled(r)) && Final(s) == Final(r) && Have(r) <= Have(s)
  }

  lemma PumpingForwarded(s: Stream, r: Stream)
    requires Pumping(r) && r.cfg == s.cfg && r.dec == s.dec && r.phase == s.phase
    requires r.read == s.read && |r.body| == |s.body| && r.write == s.write
    ensures Forwarded(s, r)
  {
    hide Layout, Messages, Flow;
  }

  lemma TakenMarker(s: Stream)
    requires Pumping(s) && s.cfg.opus && s.pos + 2 <= Have(s) && Length(s) == 0
    ensures Taken(Decoded(s), Place(s) + 2, s.cuts, false, Sent(s))
  {
    hide Layout, Messages, Flow, Decoded, Settled, Taken, Length, Sent, Short, Pumping;
    OpusTaken(s);
    NextLength(s);
    TakeMore(Decoded(s), Place(s), s.cuts, Sent(s), 0);
  }

  lemma TakeMarker(s: Stream)
    requires Pumping(s) && s.cfg.opus && s.pos + 2 <= Have(s) && Length(s) == 0
    ensures var r := s.(pos := s.pos + 2); Pumping(r) && Forwarded(s, r)
  {
    hide Layout, Messages, Flow, Decoded, Settled, Taken, Length, Sent, Short, Pumping;
    OpusTaken(s);
    TakenMarker(s);
    hide Placed, Final;
    var r := s.(pos := s.pos + 2);
    LayoutOnly(s, r);
    SameMessages(s, r);
    OpusFlow(r, Decoded(s), Place(s) + 2, Sent(s));
    StillPumping(r);
    hide Forwarded;
    PumpingForwarded(s, r);
  }

  lemma TakenPacket(s: Stream, n: nat)
    requires Pumping(s) && s.cfg.opus && s.pos + 2 + n <= Have(s) && 0 < n == Length(s) <= MAX_PACKET
    ensures Taken(Decoded(s), Place(s) + 2 + n, s.cuts, false, Sent(s) + [s.body[s.pos + 2..s.pos + 2 + n]])
  {
    hide Layout, Messages, Flow, Decoded, Settled, Taken, Length, Sent, Short, Pumping;
    var d, c := Decoded(s), Place(s);
    OpusTaken(s);
    NextLength(s);
    AtPlace(s, 2 + n);
    hide Placed, Place;
    TakeMore(d, c, s.cuts, Sent(s), n);
    Tail(s.body, s.pos, d, c, n);
  }

  lemma TakePacket(s: Stream, n: nat)
    requires Pumping(s) && s.cfg.opus && s.pos + 2 + n <= Have(s) && 0 < n == Length(s) <= MAX_PACKET
    ensures var r := Ship(s, OPUS_PKT, s.pos + 2, s.pos + 2 + n); Pumping(r) && Forwarded(s, r)
  {
    hide Layout, Messages, Flow, Decoded, Settled, Taken, Length, Sent, Pumping;
    OpusTaken(s);
    TakenPacket(s, n);
    hide Placed, Final;
    var r := Ship(s, OPUS_PKT, s.pos + 2, s.pos + 2 + n);
    LayoutOnly(s, r);
    ShipSent(s, s.pos + 2, s.pos + 2 + n);
    OpusFlow(r, Decoded(s), Place(s) + 2 + n, Sent(r));
    StillPumping(r);
    hide Forwarded;
    PumpingForwarded(s, r);
  }

  lemma Tail(a: seq<byte>, i: nat, b: seq<byte>, j: nat, n: nat)
    requires i + 2 + n <= |a| && j + 2 + n <= |b| && a[i..i + 2 + n] == b[j..j + 2 + n]
    ensures a[i + 2..i + 2 + n] == b[j + 2..j + 2 + n]
  {
    assert a[i..i + 2 + n][2..] == a[i + 2..i + 2 + n];
    assert b[j..j + 2 + n][2..] == b[j + 2..j + 2 + n];
  }

  lemma StillPumping(r: Stream)
    requires Layout(r) && Messages(r) && Flow(r) && r.active && !r.ended && !r.torn && !r.drained
    requires r.cfg.chunked ==> r.dec.mode.Done? || r.read == |r.body|
    ensures Pumping(r)
  {
  }

  /** Everything decoded so far is skipped. */
  lemma TakeNone(s: Stream)
    requires Pumping(s) && s.cfg.opus && s.pos + 2 <= Have(s) && Length(s) > MAX_PACKET
    ensures var r := s.(pos := Have(s), cuts := s.cuts + [s.shift + Have(s)]); Pumping(r) && Forwarded(s, r)
  {
    var r := s.(pos := Have(s), cuts := s.cuts + [s.shift + Have(s)]);
    TakenNone(s);
    OpusTaken(s);
    hide Layout, Messages, Flow, Decoded, Settled, Taken, Length, Sent, Pumping;
    LayoutOnly(s, r);
    SameMessages(s, r);
    OpusFlow(r, Decoded(s), s.shift + Have(s), Sent(s));
    StillPumping(r);
    hide Forwarded;
    PumpingForwarded(s, r);
  }

  lemma TakenNone(s: Stream)
    requires Pumping(s) && s.cfg.opus && s.pos + 2 <= Have(s) && Length(s) > MAX_PACKET
    ensures Taken(Decoded(s), s.shift + Have(s), s.cuts + [s.shift + Have(s)], false, Sent(s))
  {
    hide Layout, Messages, Flow, Decoded, Settled, Taken, Length, Sent, Short, Pumping;
    OpusTaken(s);
    NextLength(s);
    hide Layout, Messages, Flow, Decoded, Settled, Taken, Length, Sent, Short, Pumping;
    SkipAll(Decoded(s), Place(s), s.cuts, Sent(s));
  }

  /** What is left of a packet the end of the stream cut short is dropped. */
  lemma TakeTorn(s: Stream)
    requires Pumping(s) && s.cfg.opus && s.pos + 2 <= Have(s) && 0 < Length(s) <= MAX_PACKET
    requires s.pos + 2 + Length(s) > Have(s) && Final(s)
    ensures Forwarded(s, s.(pos := Have(s), torn := true))
  {
    var d, c := Decoded(s), Place(s);
    var r := s.(pos := Have(s), torn := true);
    assert Settled(s);
    OpusTaken(s);
    NextLength(s);
    hide Layout, Messages, Flow, Decoded, Settled, Taken, Length, Sent, Short, Pumping;
    DropTorn(d, c, s.cuts, Sent(s));
    LayoutOnly(s, r);
    SameMessages(s, r);
    OpusFlow(r, d, |d|, Sent(s));
  }

  lemma LookKeeps(s: Stream, avail: nat)
    requires Pumping(s) && s.cfg.opus && s.pos + 2 <= Have(s)
    ensures var t := Look(s, avail); Forwarded(s, t.after) && (t.more ==> Pumping(t.after))
  {
    hide Layout, Messages, Flow, Length, Pumping, Settled, Forwarded;
    PumpingForwarded(s, s);
    OpusTaken(s);
    var n := Length(s);
    if n == 0 {
      TakeMarker(s);
    } else if n > MAX_PACKET {
      TakeNone(s);
    } else if s.pos + 2 + n > Have(s) {
      if Final(s) { TakeTorn(s); }
    } else {
      TakePacket(s, n);
    }
  }

  lemma ForwardedTrans(s: Stream, m: Stream, r: Stream)
    requires Forwarded(s, m) && Forwarded(m, r)
    ensures Forwarded(s, r)
  {
    hide Layout, Messages, Flow, Settled, Final;
  }

  lemma ShipPacketsNext(s: Stream, room: seq<nat>, shipped: nat, t: Turn)
    requires Placed(s) && shipped < FRAMES_PER_PASS && s.pos + 2 <= Have(s) && t == Look(s, Answer(room))
    ensures t.more ==> ShipPackets(s, room, shipped) == ShipPackets(t.after, After(room, t.shipped), shipped + t.shipped)
    ensures !t.more ==> ShipPackets(s, room, shipped) == Pass(t.after, shipped)
  {
    hide Look;
  }

  lemma ShipPacketsStops(s: Stream, room: seq<nat>, shipped: nat)
    requires Placed(s) && (shipped >= FRAMES_PER_PASS || s.pos + 2 > Have(s))
    ensures ShipPackets(s, room, shipped) == Pass(s, shipped)
  {
    hide Look;
  }

  lemma ShipPacketsKeeps(s: Stream, room: seq<nat>, shipped: nat)
    requires Pumping(s) && s.cfg.opus
    ensures Forwarded(s, ShipPackets(s, room, shipped).after)
  {
    PumpingForwarded(s, s);
    hide Pumping, Look, Forwarded, ShipPackets, After, Answer, Have;
    ShipPacketsFrom(s, s, room, shipped);
  }

  lemma {:induction false} ShipPacketsFrom(first: Stream, s: Stream, room: seq<nat>, shipped: nat)
    requires Pumping(s) && s.cfg.opus && Forwarded(first, s)
    ensures Forwarded(first, ShipPackets(s, room, shipped).after)
    decreases Have(s) - s.pos
  {
    hide Pumping, Look, Forwarded, Placed, ShipPackets, After, Answer, Have;
    PumpingPlaced(s);
    if shipped < FRAMES_PER_PASS && s.pos + 2 <= Have(s) {
      var t := Look(s, Answer(room));
      LookKeeps(s, Answer(room));
      ForwardedTrans(first, s, t.after);
      ShipPacketsNext(s, room, shipped, t);
      if t.more {
        var rest, n := After(room, t.shipped), shipped + t.shipped;
        ShipPacketsFrom(first, t.after, rest, n);
      }
    } else {
      ShipPacketsStops(s, room, shipped);
    }
  }

  lemma FlattenMore(out: seq<seq<byte>>, x: seq<byte>, d: seq<byte>, c: nat, e: nat)
    requires c <= e <= |d| && Flatten(out) == d[..c] && x == d[c..e]
    ensures Flatten(out + [x]) == d[..e]
  {
    FlattenAppend(out, [x]);
    assert Flatten([x]) == x + Flatten([x][1..]) == x;
    assert d[..c] + d[c..e] == d[..e];
    hide Flatten;
  }

  lemma PcmFlow(r: Stream, d: seq<byte>, c: nat, out: seq<seq<byte>>)
    requires !r.cfg.opus && Decoded(r) == d && Place(r) == c <= |d| && Sent(r) == out && !r.drained && !r.torn && r.cuts == []
    requires Flatten(out) == d[..c]
    ensures Flow(r)
  {
  }

  lemma PcmTaken(s: Stream)
    requires Pumping(s) && !s.cfg.opus
    ensures Layout(s) && Messages(s) && Place(s) <= |Decoded(s)| && Flatten(Sent(s)) == Decoded(s)[..Place(s)]
    ensures !s.ended && !s.drained && !s.torn && s.cuts == [] && s.active
    ensures Placed(s) && Have(s) <= |s.body| && (s.cfg.chunked ==> s.dec.mode.Done? || s.read == |s.body|)
  {
  }

  lemma TakePcm(s: Stream, n: nat)
    requires Pumping(s) && !s.cfg.opus && s.pos + n <= Have(s)
    ensures var r := Ship(s, PCM_CHUNK, s.pos, s.pos + n); Pumping(r) && Forwarded(s, r)
  {
    hide Layout, Messages, Flow, Decoded, Settled, Sent, Pumping, Flatten;
    PcmTaken(s);
    AtPlace(s, n);
    hide Placed, Final;
    var r := Ship(s, PCM_CHUNK, s.pos, s.pos + n);
    var d, c := Decoded(s), Place(s);
    FlattenMore(Sent(s), s.body[s.pos..s.pos + n], d, c, c + n);
    LayoutOnly(s, r);
    ShipSent(s, s.pos, s.pos + n);
    PcmFlow(r, d, c + n, Sent(r));
    StillPumping(r);
    hide Forwarded;
    PumpingForwarded(s, r);
  }

  lemma CompactForwarded(s: Stream, r: Stream)
    requires Forwarded(s, r)
    ensures Forwarded(s, Compact(r)) && Forwarded(s, CompactLate(r))
  {
    assert Placed(r);
    hide Layout, Decoded, Flow, Messages, Settled;
    CompactQuietly(r);
    hide Quietly;
    QuietlyKeeps(r, Compact(r));
    CompactSame(r);
    hide Compact, Final;
  }

  lemma CompactSame(s: Stream)
    requires Layout(s)
    ensures var r := Compact(s);
            && r.active == s.active && r.ended == s.ended && r.drained == s.drained && r.cfg == s.cfg
            && (Settled(s) ==> Settled(r)) && Final(s) == Final(r) && Have(r) <= Have(s)
  {
  }

  /** A packet already dropped at the end: nothing is left to look at. */
  lemma TornStays(s: Stream, room: seq<nat>)
    requires Ready(s) && s.torn
    ensures Placed(s) && Forward(s, room) == s
  {
    assert s.cfg.opus && Place(s) == |Decoded(s)|;
    Window(s);
    hide Layout, Messages, Flow, Decoded, CompactLate;
  }

  lemma ReadyForwarded(s: Stream)
    requires Ready(s)
    ensures Forwarded(s, s) && Placed(s) && Have(s) <= |s.body|
  {
  }

  lemma ShipPcmIs(s: Stream, room: seq<nat>)
    requires Placed(s)
    ensures var n := PcmTake(Have(s) - s.pos);
            ShipPcm(s, room) == s || ShipPcm(s, room) == CompactLate(Ship(s, PCM_CHUNK, s.pos, s.pos + n))
  {
    hide CompactLate, PcmTake, I.Align, Answer;
  }

  lemma PcmForwards(s: Stream, room: seq<nat>)
    requires Pumping(s) && !s.cfg.opus
    ensures Forwarded(s, ShipPcm(s, room))
  {
    hide Ready, Pumping, Forwarded, CompactLate, PcmTake, ShipPcm, Placed, Have;
    PumpingPlaced(s);
    ShipPcmIs(s, room);
    var n := PcmTake(Have(s) - s.pos);
    TakePcm(s, n);
    CompactForwarded(s, Ship(s, PCM_CHUNK, s.pos, s.pos + n));
  }

  lemma PumpingPlaced(s: Stream)
    requires Pumping(s)
    ensures Placed(s) && s.pos <= Have(s) <= |s.body| && Forwarded(s, s)
  {
    ReadyForwarded(s);
  }

  lemma OpusForwards(s: Stream, room: seq<nat>)
    requires Pumping(s) && s.cfg.opus
    ensures Forwarded(s, Forward(s, room))
  {
    ReadyForwarded(s);
    hide Ready, Pumping, Forwarded, CompactLate, ShipPackets;
    ShipPacketsKeeps(s, room, 0);
    CompactForwarded(s, ShipPackets(s, room, 0).after);
  }

  /** What one pass of the pump sends keeps its place in step with what was decoded. */
  lemma ForwardKeeps(s: Stream, room: seq<nat>)
    requires Ready(s)
    ensures Placed(s) && Forwarded(s, Forward(s, room))
  {
    ReadyForwarded(s);
    hide Forwarded, ShipPcm, ShipPackets, CompactLate;
    if s.torn { TornStays(s, room); }
    else if s.cfg.opus { OpusForwards(s, room); }
    else { PcmForwards(s, room); }
    hide Ready;
  }

  lemma ArriveAtPump(s: Stream)
    requires Inv(s) && s.active && !s.ended
    ensures Ready(if s.cfg.chunked then Decode(s) else s)
  {
    if s.cfg.chunked {
      DecodeQuietly(s);
      DecodeKeeps(s);
      hide Layout, Flow, Messages, Quietly;
      QuietlyKeeps(s, Decode(s));
    }
    hide Layout, Flow, Messages;
  }

  lemma EndFlow(s: Stream, r: Stream)
    requires Flow(s) && !s.drained && r.cfg == s.cfg && r.cuts == s.cuts && r.torn == s.torn && r.ended
    requires Decoded(r) == Decoded(s) && Place(r) == Place(s) && Sent(r) == Sent(s) && Settled(r) == Settled(s)
    requires r.drained ==> Settled(s) && |Decoded(s)| - Place(s) < 2
    ensures Flow(r)
  {
    hide Decoded, Settled, Taken, Flatten, Sent, Place;
  }

  lemma EndKeeps(s: Stream, drained: bool)
    requires Layout(s) && Messages(s) && Flow(s) && s.active && !s.ended && !s.drained
    requires drained ==> Settled(s) && Have(s) - s.pos < 2
    ensures Inv(End(s).(drained := drained))
  {
    hide Flow, Messages, Decoded, Settled, Sent;
    var r := End(s).(drained := drained);
    Window(s);
    EndSent(s);
    LayoutOnly(s, r);
    hide Layout;
    SameMessages(End(s), r);
    EndFlow(s, r);
  }

  lemma PumpKeeps(s: Stream, room: seq<nat>)
    requires Inv(s)
    ensures Placed(s) && Inv(Pump(s, room))
  {
    if s.active && !s.ended {
      ArriveAtPump(s);
      var d := if s.cfg.chunked then Decode(s) else s;
      assert Final(d) ==> Settled(d) by { hide Layout, Messages, Flow; }
      ForwardKeeps(d, room);
      var t := Forward(d, room);
      hide Layout, Messages, Flow, Settled, Final, Forward, Decode;
      if Final(t) && Have(d) - t.pos < 2 { EndKeeps(t, true); }
    }
  }

  lemma HandleKeeps(s: Stream)
    requires Inv(s) && !s.phase.Idle? && !s.phase.Requesting?
    ensures Inv(HandleDone(s))
  {
    if s.phase.DoneErr? {
      if s.active && !s.ended { EndKeeps(s, false); }
    } else if !s.active {
      ArmQuietly(s);
      QuietlyKeeps(s, Arm(s));
    }
    var t := if s.phase.DoneErr? then (if s.active && !s.ended then End(s) else s)
             else if !s.active && (s.cfg.kind.Tts? || s.cfg.opus) then Arm(s) else s;
    PhaseKeeps(t, Idle);
    hide Inv, Layout, Flow, Messages, Quiet;
  }

  lemma PhaseQuietly(s: Stream, p: Phase)
    requires Layout(s) && Quiet(s) && (s.phase.Idle? ==> p.Idle?)
    ensures var r := s.(phase := p); Layout(r) && Quietly(s, r) && Quiet(r)
  {
    hide H.Feed;
  }

  lemma PhaseKeeps(s: Stream, p: Phase)
    requires Inv(s) && (s.phase.Idle? ==> p.Idle?)
    ensures Inv(s.(phase := p))
  {
    hide Layout, Flow, Messages, Quiet, Quietly;
    PhaseQuietly(s, p);
    QuietlyKeeps(s, s.(phase := p));
  }

  lemma NextKeeps(s: Stream, step: Step)
    requires Inv(s)
    ensures Placed(s) && Inv(Next(s, step))
  {
    match step
    case Recv(bytes) =>
      if !s.phase.Idle? {
        ReceiveQuietly(s, bytes);
        QuietlyKeeps(s, Receive(s, bytes));
        hide Layout, Flow, Messages, Quiet, Quietly, Receive;
      }
    case Finish(ok) => if !s.phase.Idle? { PhaseKeeps(s, if ok then DoneOk else DoneErr); }
    case Handle => if s.phase.DoneOk? || s.phase.DoneErr? { HandleKeeps(s); }
    case Stop => PhaseKeeps(s, Idle);
    case Forwarding(room) => PumpKeeps(s, room);
  }

  lemma StartKeeps(cfg: Config)
    ensures Inv(Start(cfg))
  {
    assert [] + Cut([]).frames == [];
  }

  /** Every state of every run. */
  lemma {:induction false} RunKeeps(cfg: Config, steps: seq<Step>)
    ensures Inv(Run(Start(cfg), steps))
    decreases |steps|
  {
    hide Inv, Next;
    if steps == [] {
      StartKeeps(cfg);
    } else {
      RunKeeps(cfg, steps[..|steps| - 1]);
      NextKeeps(Run(Start(cfg), steps[..|steps| - 1]), steps[|steps| - 1]);
    }
  }
}
