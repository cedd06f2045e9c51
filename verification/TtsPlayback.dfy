/** What the pump is for: the packets the server framed, in order, once each, and one end message after them. */
module TtsPlayback {
  import opened Bytes
  import opened TtsFrames
  import opened TtsStream
  import opened TtsRun
  import H = HttpChunked
  import I = IcRing

  function Messaged(typ: u16, ps: seq<seq<byte>>): seq<I.Msg> {
    if ps == [] then [] else Messaged(typ, ps[..|ps| - 1]) + [I.Msg(typ, ps[|ps| - 1])]
  }

  lemma {:induction false} MessagedPayloads(ms: seq<I.Msg>, typ: u16)
    requires forall i :: 0 <= i < |ms| ==> ms[i].typ == typ
    ensures Messaged(typ, Payloads(ms)) == ms
    decreases |ms|
  {
    if ms != [] {
      var p := ms[..|ms| - 1];
      MessagedPayloads(p, typ);
      assert Payloads(ms)[..|ms| - 1] == Payloads(p);
      assert ms == p + [ms[|ms| - 1]];
    }
  }

  lemma SentMessages(s: Stream)
    requires Messages(s)
    ensures s.sent == Messaged(DataType(s.cfg), Sent(s)) + (if s.ended then [I.Msg(TTS_END, [])] else [])
  {
    MessagedPayloads(Data(s), DataType(s.cfg));
    hide Payloads, Messaged;
  }

  /** In every run, what went to the other core is the data messages and then at most one end message. */
  lemma EndIsLast(cfg: Config, steps: seq<Step>)
    ensures var s := Run(TtsStream.Start(cfg), steps);
            s.sent == Messaged(DataType(cfg), Sent(s)) + (if s.ended then [I.Msg(TTS_END, [])] else [])
  {
    var s := Run(TtsStream.Start(cfg), steps);
    RunKeeps(cfg, steps);
    hide Run;
    SentMessages(s);
    hide Inv, Messaged;
  }

  /** Once the end message is out, no call sends anything. */
  lemma NothingAfterEnd(s: Stream, step: Step)
    requires Inv(s) && s.ended
    ensures Placed(s) && Next(s, step).sent == s.sent && Next(s, step).ended
  {
    assert s.active && Placed(s);
    hide Layout, Flow, Messages, Quiet, Inv;
    match step
    case Recv(bytes) => if !s.phase.Idle? { ReceiveSilent(s, bytes); }
    case _ => hide Decode, ShipPackets, Placed, Receive;
  }

  lemma ReceiveSilent(s: Stream, bytes: seq<byte>)
    requires Placed(s) && s.active
    ensures Receive(s, bytes).sent == s.sent && Receive(s, bytes).ended == s.ended
  {
    hide Decode, Fits;
  }

  /** Everything the body decodes to. */
  function Body(s: Stream): seq<byte> {
    if s.cfg.chunked then H.Feed(H.Fresh, s.raw).out else s.raw
  }

  lemma DecodedIsPrefix(s: Stream)
    requires Layout(s)
    ensures Decoded(s) <= Body(s) && (Settled(s) ==> Decoded(s) == Body(s))
  {
    hide H.Feed;
    if s.cfg.chunked {
      var n := s.shift + s.read;
      var f := H.Feed(H.Fresh, s.raw[..n]);
      H.FeedAppend(H.Fresh, s.raw[..n], s.raw[n..]);
      assert s.raw[..n] + s.raw[n..] == s.raw;
      if s.dec.mode.Done? {
        H.FeedDone(s.dec, s.raw[n..]);
      } else if Settled(s) {
        assert s.raw[n..] == [];
      }
    }
  }

  /**
   Whatever the order of arrivals, decoding, passes of the pump, back-pressure and compaction: the
   packets sent are a prefix of the packets of the decoded body, in order, once each, and all of them
   when the pump ended the stream itself.
   */
  lemma SentIsPrefixOfPackets(cfg: Config, steps: seq<Step>)
    requires cfg.opus
    requires !Cut(Body(Run(TtsStream.Start(cfg), steps))).overlong
    ensures var s := Run(TtsStream.Start(cfg), steps);
            Sent(s) <= Cut(Body(s)).frames && (s.drained ==> s.ended && Sent(s) == Cut(Body(s)).frames)
  {
    RunKeeps(cfg, steps);
    hide Run, Inv, Cut, Body, Sent;
    PrefixOfPackets(Run(TtsStream.Start(cfg), steps));
  }

  lemma InvFacts(s: Stream)
    requires Inv(s) && s.cfg.opus
    ensures Taken(Decoded(s), Place(s), s.cuts, s.torn, Sent(s)) && Layout(s)
    ensures s.drained ==> Settled(s) && s.ended && |Decoded(s)| - Place(s) < 2
  {
    hide Layout, Taken, Decoded, Sent, Settled;
  }

  lemma CutOfPrefix(a: seq<byte>, b: seq<byte>)
    requires a <= b
    ensures Cut(a).frames <= Cut(b).frames && (Cut(a).overlong ==> Cut(a) == Cut(b))
  {
    assert a + b[|a|..] == b;
    CutGrows(a, b[|a|..]);
  }

  lemma PrefixOfPackets(s: Stream)
    requires Inv(s) && s.cfg.opus && !Cut(Body(s)).overlong
    ensures Sent(s) <= Cut(Body(s)).frames && (s.drained ==> s.ended && Sent(s) == Cut(Body(s)).frames)
  {
    hide Inv, Layout, Taken, Decoded, Sent, Settled, Cut, Body;
    InvFacts(s);
    DecodedIsPrefix(s);
    CutOfPrefix(Decoded(s), Body(s));
    TakenIsPrefix(Decoded(s), Place(s), s.cuts, s.torn, Sent(s));
  }

  /**
   With an over-long length in the body the same is not so: the pump gives up on everything decoded by
   then and resumes wherever the next bytes start. What it sends is this and nothing else.
   */
  lemma SentAcrossSkips(cfg: Config, steps: seq<Step>)
    requires cfg.opus
    ensures var s := Run(TtsStream.Start(cfg), steps);
            var d := Decoded(s);
            && d <= Body(s) && Skips(d, s.cuts) && From(s.cuts) <= Place(s) <= |d|
            && Sent(s) == Skipped(d, s.cuts) + Cut(d[From(s.cuts)..Place(s)]).frames
            && (s.cuts != [] ==> Cut(Body(s)).overlong && Cut(Body(s)).frames <= Sent(s))
            && (s.drained ==> d == Body(s) && Sent(s) == Skipped(d, s.cuts) + Cut(d[From(s.cuts)..]).frames)
  {
    RunKeeps(cfg, steps);
    hide Run, Inv, Cut, Body, Sent, Decoded, Skips, Skipped;
    AcrossSkips(Run(TtsStream.Start(cfg), steps));
  }

  lemma AcrossSkips(s: Stream)
    requires Inv(s) && s.cfg.opus
    ensures var d := Decoded(s);
            && d <= Body(s) && Skips(d, s.cuts) && From(s.cuts) <= Place(s) <= |d|
            && Sent(s) == Skipped(d, s.cuts) + Cut(d[From(s.cuts)..Place(s)]).frames
            && (s.cuts != [] ==> Cut(Body(s)).overlong && Cut(Body(s)).frames <= Sent(s))
            && (s.drained ==> d == Body(s) && Sent(s) == Skipped(d, s.cuts) + Cut(d[From(s.cuts)..]).frames)
  {
    hide Inv, Layout, Taken, Decoded, Sent, Settled, Cut, Body, Skips, Skipped;
    InvFacts(s);
    DecodedIsPrefix(s);
    TakenPlace(Decoded(s), Place(s), s.cuts, s.torn, Sent(s));
    CutOfPrefix(Decoded(s), Body(s));
    TakenAfterSkips(Decoded(s), Place(s), s.cuts, s.torn, Sent(s));
  }

  lemma TakenPlace(d: seq<byte>, c: nat, cuts: seq<nat>, torn: bool, out: seq<seq<byte>>)
    requires Taken(d, c, cuts, torn, out)
    ensures Skips(d, cuts) && From(cuts) <= c <= |d|
  {
  }

  /** Raw samples: the bytes sent are a prefix of the body, and all but an odd last byte when the pump ended the stream. */
  lemma PcmIsPrefixOfBody(cfg: Config, steps: seq<Step>)
    requires !cfg.opus
    ensures var s := Run(TtsStream.Start(cfg), steps);
            Flatten(Sent(s)) <= Body(s) && (s.drained ==> s.ended && |Body(s)| - |Flatten(Sent(s))| < 2)
  {
    var s := Run(TtsStream.Start(cfg), steps);
    RunKeeps(cfg, steps);
    DecodedIsPrefix(s);
    hide Run, Layout, Messages, Quiet, Decoded, Sent, Settled, Body;
  }

  // ---- Through the chunked coding and the framing ----

  ghost predicate Coded(cs: seq<H.Chunk>, last: H.Chunk, ps: seq<seq<byte>>) {
    && (forall i :: 0 <= i < |cs| ==> H.WellFormed(cs[i]) && 0 < |cs[i].data| < 0x1_0000_0000)
    && H.WellFormed(last) && last.data == []
    && (forall i :: 0 <= i < |ps| ==> Packet(ps[i])) && H.Datas(cs) == Join(ps)
  }

  lemma BodyOfPrefix(raw: seq<byte>, whole: seq<byte>)
    requires raw <= whole
    ensures H.Feed(H.Fresh, raw).out <= H.Feed(H.Fresh, whole).out
  {
    hide H.Feed;
    assert raw + whole[|raw|..] == whole;
    H.FeedAppend(H.Fresh, raw, whole[|raw|..]);
  }

  /**
   A server that frames packets, cuts the frames into chunks any way it likes and closes with an empty
   chunk: the packets sent to the other core are a prefix of the server's, markers aside, and all of
   them when the pump ended the stream after the whole response came in.
   */
  lemma PlaysWhatWasFramed(cfg: Config, steps: seq<Step>, cs: seq<H.Chunk>, last: H.Chunk, ps: seq<seq<byte>>, rest: seq<byte>)
    requires cfg.opus && cfg.chunked && Coded(cs, last, ps)
    requires Run(TtsStream.Start(cfg), steps).raw <= H.Encode(cs) + H.SizeLine(last) + rest
    ensures var s := Run(TtsStream.Start(cfg), steps);
            && Sent(s) <= NonEmpty(ps)
            && (s.drained && |s.raw| >= |H.Encode(cs) + H.SizeLine(last)| ==> Sent(s) == NonEmpty(ps))
  {
    var s := Run(TtsStream.Start(cfg), steps);
    RunKeeps(cfg, steps);
    hide Run, Inv, Coded, Sent;
    PlaysFramed(s, cs, last, ps, rest);
  }

  lemma CodedBody(cs: seq<H.Chunk>, last: H.Chunk, ps: seq<seq<byte>>, rest: seq<byte>)
    requires Coded(cs, last, ps)
    ensures Cut(H.Feed(H.Fresh, H.Encode(cs) + H.SizeLine(last) + rest).out) == Cutting(NonEmpty(ps), |Join(ps)|, false)
  {
    H.InvertsEncoding(cs, last, rest);
    CutJoin(ps);
    hide H.Feed, H.Encode, H.SizeLine, H.Datas, Cut, Join, NonEmpty;
  }

  lemma PlaysFramed(s: Stream, cs: seq<H.Chunk>, last: H.Chunk, ps: seq<seq<byte>>, rest: seq<byte>)
    requires Inv(s) && s.cfg.opus && s.cfg.chunked && Coded(cs, last, ps)
    requires s.raw <= H.Encode(cs) + H.SizeLine(last) + rest
    ensures Sent(s) <= NonEmpty(ps)
    ensures s.drained && |s.raw| >= |H.Encode(cs) + H.SizeLine(last)| ==> Sent(s) == NonEmpty(ps)
  {
    hide Inv, Coded, Sent, Cut, NonEmpty, Join, H.Feed, H.Encode, H.SizeLine;
    var front := H.Encode(cs) + H.SizeLine(last);
    CodedBody(cs, last, ps, rest);
    BodyOfPrefix(s.raw, front + rest);
    CutOfPrefix(Body(s), H.Feed(H.Fresh, front + rest).out);
    PrefixOfPackets(s);
    if |s.raw| >= |front| {
      assert s.raw == front + s.raw[|front|..];
      CodedBody(cs, last, ps, s.raw[|front|..]);
    }
  }

  lemma {:induction false} MessagedAt(typ: u16, ps: seq<seq<byte>>, k: nat)
    ensures |Messaged(typ, ps)| == |ps| && (k < |ps| ==> Messaged(typ, ps)[k] == I.Msg(typ, ps[k]))
    decreases |ps|
  {
    if ps != [] { MessagedAt(typ, ps[..|ps| - 1], k); }
  }
}
