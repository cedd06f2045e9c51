/** One stream in which an over-long length makes the pump send what the server never framed. */
module TtsSkips {
  import opened Bytes
  import opened TtsFrames
  import opened TtsStream
  import opened TtsRun
  import opened TtsPlayback
  import H = HttpChunked
  import I = IcRing

  const Cfg: Config := Config(Tts, true, true, 0)

  /** A first chunk just long enough to start playback: a length no packet has, then markers. */
  function Long(): (r: seq<byte>)
    ensures |r| == 8192 && r[0] == 255 && r[1] == 255
  {
    [255, 255] + seq(8190, i => 0)
  }

  const Size: seq<byte> := [50, 48, 48, 48]

  function First(): (r: seq<byte>)
    ensures |r| == 8198
  {
    Size + [] + [H.CR, H.LF] + Long()
  }

  /** The end of that chunk, and a chunk of three bytes that reads as a packet of one. */
  function Second(): seq<byte> { [H.CR, H.LF, 51, H.CR, H.LF, 0, 1, 65] }

  function Steps(): seq<Step> { [Recv(First()), Forwarding([]), Recv(Second()), Forwarding([100])] }

  const Waiting: H.Decoder := H.Decoder(H.DataSawCr, 0, false, 0)

  function Body1(): seq<byte> { Long() + First()[8192..] }

  function State1(): Stream {
    Stream(Cfg, Body1(), 8198, 8192, Waiting, 0, true, false, Requesting, First(), 0, [], [], false, false)
  }

  function State2(): Stream { State1().(pos := 8192, cuts := [8192]) }

  function State3(): Stream { State2().(body := Body1() + Second(), raw := First() + Second()) }

  lemma SizeIs()
    ensures H.Value(Size) == 8192
  {
    assert Size[..3] == [50, 48, 48] && Size[..3][..2] == [50, 48] && Size[..3][..2][..1] == [50];
    assert Size[..3][..2][..1][..0] == [];
    assert H.Value([50]) == 2 by { assert [50][..0] == []; }
    assert H.Value([50, 48]) == 32 by { assert [50, 48][..1] == [50]; }
    assert H.Value([50, 48, 48]) == 512 by { assert [50, 48, 48][..2] == [50, 48]; }
  }

  lemma FirstFeeds()
    ensures H.Feed(H.Fresh, First()) == H.Fed(Waiting, Long(), 8198)
  {
    hide H.Feed, H.Value, Long;
    SizeIs();
    var c := H.Chunk(Size, [], Long());
    H.FeedSizeLine(c);
    H.FeedData(H.Sized(8192), Long());
    H.FeedAppend(H.Fresh, H.SizeLine(c), Long());
  }

  lemma Receives()
    ensures Next(TtsStream.Start(Cfg), Recv(First())) == State1()
  {
    hide H.Feed, First, Long;
    FirstFeeds();
    assert [] + First() == First() && First()[0..] == First();
    assert Overwrite(First(), 0, Long()) == Body1();
    hide Overwrite, Body1;
  }

  lemma Skip()
    ensures Placed(State1()) && Next(State1(), Forwarding([])) == State2()
  {
    var s := State1();
    assert s.body[s.read..] == [] && Overwrite(s.body, s.write, []) == s.body;
    assert Decode(s) == s;
    assert Length(s) == 65535;
    hide Decode, Length, Body1, First, Long;
    ShipPacketsNext(s, [], 0, Look(s, 0));
  }

  lemma LineEnds()
    ensures H.Feed(Waiting, [H.CR, H.LF]) == H.Fed(H.Fresh, [], 2)
  {
    hide H.Feed;
    H.FeedOne(Waiting, H.CR);
    H.FeedOne(H.Fresh, H.LF);
    H.FeedAppend(Waiting, [H.CR], [H.LF]);
    assert [H.CR] + [H.LF] == [H.CR, H.LF];
  }

  lemma OneDigit()
    ensures H.Value([51]) == 3 && H.AllDigits([51])
  {
    assert [51][..0] == [];
  }

  lemma SmallLine()
    ensures H.Feed(H.Fresh, [51, H.CR, H.LF]) == H.Fed(H.Sized(3), [], 3)
  {
    hide H.Feed, H.Value, H.AllDigits;
    OneDigit();
    var c := H.Chunk([51], [], []);
    H.FeedSizeLine(c);
    assert H.SizeLine(c) == [51, H.CR, H.LF];
  }

  lemma SmallChunk()
    ensures H.Feed(H.Fresh, [51, H.CR, H.LF] + [0, 1, 65]) == H.Fed(Waiting, [0, 1, 65], 6)
  {
    hide H.Feed;
    SmallLine();
    H.FeedData(H.Sized(3), [0, 1, 65]);
    H.FeedAppend(H.Fresh, [51, H.CR, H.LF], [0, 1, 65]);
  }

  /** What the second chunk decodes to. */
  lemma SecondFeeds()
    ensures H.Feed(Waiting, Second()) == H.Fed(Waiting, [0, 1, 65], 8)
  {
    hide H.Feed;
    LineEnds();
    SmallChunk();
    var rest := [51, H.CR, H.LF] + [0, 1, 65];
    H.FeedAppend(Waiting, [H.CR, H.LF], rest);
    assert Second() == [H.CR, H.LF] + rest;
  }

  lemma DecodesSecond()
    ensures Placed(State3())
    ensures var d := Decode(State3());
            && |d.body| == 8206 && d.body[8192] == 0 && d.body[8193] == 1 && d.body[8194] == 65 && d.write == 8195
            && d.pos == 8192 && d.cuts == [8192] && d.sent == [] && d.active && !d.ended && d.phase.Requesting?
            && d.cfg == Cfg && d.dec == Waiting && d.raw == First() + Second()
  {
    var s := State3();
    assert s.body[8198..] == Second();
    SecondFeeds();
    hide H.Feed;
    assert Decode(s).body[8192..8195] == [0, 1, 65];
  }

  lemma Resumes()
    ensures Placed(State3())
    ensures var r := Next(State3(), Forwarding([100]));
            r.sent == [I.Msg(OPUS_PKT, [65])] && r.raw == First() + Second() && r.cfg == Cfg
  {
    DecodesSecond();
    var d := Decode(State3());
    hide Decode, First, Second, State2;
    var t := Look(d, 100);
    assert t.after == Ship(d, OPUS_PKT, 8194, 8195) && d.body[8194..8195] == [65];
    assert t.more && t.shipped == 1;
    ShipPacketsNext(d, [100], 0, t);
    assert ShipPackets(t.after, After([100], 1), 1) == Pass(t.after, 1);
    hide Look, ShipPackets;
  }

  lemma Arrives()
    ensures Placed(State2()) && Next(State2(), Recv(Second())) == State3()
  {
    hide Body1, First, Long, Second;
    LongIs();
  }

  lemma LongIs()
    ensures |Body1()| == 8198 && |Second()| == 8
  {
  }

  /** The body of the whole response starts with the over-long length. */
  lemma NoPackets()
    ensures Cut(H.Feed(H.Fresh, First() + Second()).out) == Cutting([], 0, true)
  {
    hide H.Feed;
    FirstFeeds();
    SecondFeeds();
    H.FeedAppend(H.Fresh, First(), Second());
    var b := Long() + [0, 1, 65];
    assert b[0] == 255 && b[1] == 255 && Short(b[0], b[1]) == 65535;
    hide First, Second, Long;
  }

  lemma FourSteps(s: Stream, a: Step, b: Step, c: Step, d: Step)
    requires Placed(s)
    ensures Run(s, [a, b, c, d]) == Next(Next(Next(Next(s, a), b), c), d)
  {
    hide Next;
    assert [a, b, c, d][..3] == [a, b, c] && [a, b, c][..2] == [a, b] && [a, b][..1] == [a] && [a][..0] == [];
    assert Run(s, [a]) == Next(s, a);
    assert Run(s, [a, b]) == Next(Next(s, a), b);
    assert Run(s, [a, b, c]) == Next(Next(Next(s, a), b), c);
  }

  /**
   The prefix property does fail: here the body starts with an over-long length, so it holds no packet
   at all, and yet one is sent.
   */
  lemma SendsWhatWasNeverFramed()
    ensures var s := Run(TtsStream.Start(Cfg), Steps());
            && s.sent == [I.Msg(OPUS_PKT, [65])]
            && Cut(Body(s)).overlong && Cut(Body(s)).frames == []
  {
    hide Next, First, Second, Long, Cut, H.Feed, State1, State2, State3;
    FourSteps(TtsStream.Start(Cfg), Recv(First()), Forwarding([]), Recv(Second()), Forwarding([100]));
    Receives();
    Skip();
    Arrives();
    Resumes();
    NoPackets();
  }
}
