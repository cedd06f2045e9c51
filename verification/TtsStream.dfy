/**
 The streaming response as core 1 runs it: the receive callback, the completion handler, the in-place
 chunked decoder, the forward pump and the compaction of the buffer they share, one call at a time
 and in any order.
 */
module TtsStream {
  import opened Bytes
  import opened TtsFrames
  import H = HttpChunked
  import I = IcRing

  const RESP_BUF_SIZE: nat := 131072
  const COMPACT_THRESHOLD: nat := 2048
  const PREBUFFER_BYTES: nat := 8192
  const FRAMES_PER_PASS: nat := 4
  const CHUNK_SIZE: nat := 1024

  const PCM_CHUNK: u16 := 0x31
  const TTS_END: u16 := 0x32
  const OPUS_PKT: u16 := 0x33

  datatype Kind = Tts | Linephone

  /** What the response headers settled: who asked, how the body is coded, where it starts in the buffer. */
  datatype Config = Config(kind: Kind, chunked: bool, opus: bool, start: nat)

  datatype Phase = Requesting | DoneOk | DoneErr | Idle

  /**
   The body part of the response buffer with the decoder and the pump that work in it, and logs of
   what came in (`raw`), what was compacted away (`shift`), what went out (`sent`), where the pump
   skipped over-long lengths (`cuts`), whether it dropped a packet torn by the end (`torn`) and
   whether it ended the stream itself (`drained`).
   */
  datatype Stream = Stream(
    cfg: Config, body: seq<byte>, read: nat, write: nat, dec: H.Decoder,
    pos: nat, active: bool, ended: bool, phase: Phase,
    raw: seq<byte>, shift: nat, sent: seq<I.Msg>, cuts: seq<nat>, torn: bool, drained: bool)

  function Start(cfg: Config): Stream {
    Stream(cfg, [], 0, 0, H.Fresh, 0, false, false, Requesting, [], 0, [], [], false, false)
  }

  /** Bytes of body ready for the pump. */
  function Have(s: Stream): nat { if s.cfg.chunked then s.write else |s.body| }

  predicate Placed(s: Stream) {
    && s.write <= s.read <= |s.body| && s.pos <= Have(s) && H.Sound(s.dec)
    && (!s.cfg.chunked ==> s.read == 0)
  }

  /** http_chunked_decode_in_place */
  function Decode(s: Stream): (r: Stream)
    requires Placed(s) && s.cfg.chunked
    ensures Placed(r) && r.cfg == s.cfg
  {
    var f := H.Feed(s.dec, s.body[s.read..]);
    s.(body := Overwrite(s.body, s.write, f.out), read := s.read + f.used, write := s.write + |f.out|, dec := f.dec,
       phase := if f.dec.mode.Done? && !s.dec.mode.Done? && s.phase.Requesting? then DoneOk else s.phase)
  }

  /** http_resp_compact_locked */
  function Compact(s: Stream): (r: Stream)
    requires Placed(s)
    ensures Placed(r) && r.cfg == s.cfg
  {
    var k := if s.cfg.chunked then s.pos else 0;
    s.(body := s.body[s.pos..], write := s.write - k, read := s.read - k, pos := 0, shift := s.shift + s.pos)
  }

  /** tts_start_playback */
  function Arm(s: Stream): Stream { s.(pos := 0, ended := false, active := true) }

  /** http_check_complete once the headers are in: decode opus eagerly, arm when enough is buffered. */
  function Arrived(s: Stream): (r: Stream)
    requires Placed(s)
    ensures Placed(r) && r.cfg == s.cfg
  {
    var d := if s.cfg.opus && s.cfg.chunked && !s.active then Decode(s) else s;
    var have := if s.cfg.opus then d.write else |d.body|;
    if !d.active && have >= PREBUFFER_BYTES then Arm(d) else d
  }

  predicate Fits(s: Stream, n: nat) { s.cfg.start + |s.body| + n < RESP_BUF_SIZE }

  /** The buffer part of https_recv_cb: compaction when the bytes do not fit, refusal when that does not help. */
  function Receive(s: Stream, bytes: seq<byte>): (r: Stream)
    requires Placed(s)
    ensures Placed(r) && r.cfg == s.cfg
  {
    var c := if Fits(s, |bytes|) then s else Compact(s);
    if Fits(c, |bytes|) then Arrived(c.(body := c.body + bytes, raw := c.raw + bytes)) else c
  }

  function End(s: Stream): Stream { s.(sent := s.sent + [I.Msg(TTS_END, [])], ended := true) }

  /** The streaming part of https_handle_done. */
  function HandleDone(s: Stream): (r: Stream)
    requires Placed(s)
    ensures Placed(r) && r.cfg == s.cfg
  {
    var t :=
      if s.phase.DoneErr? then (if s.active && !s.ended then End(s) else s)
      else if !s.active && (s.cfg.kind.Tts? || s.cfg.opus) then Arm(s)
      else s;
    t.(phase := Idle)
  }

  /** No more body will come. */
  predicate Final(s: Stream) { s.phase.Idle? || (s.cfg.chunked && s.dec.mode.Done?) }

  function Length(s: Stream): nat
    requires s.pos + 2 <= |s.body|
  {
    Short(s.body[s.pos], s.body[s.pos + 1])
  }

  function Ship(s: Stream, typ: u16, from: nat, to: nat): Stream
    requires from <= to <= |s.body|
  {
    s.(sent := s.sent + [I.Msg(typ, s.body[from..to])], pos := to)
  }

  datatype Turn = Turn(after: Stream, shipped: nat, more: bool)

  /** One turn of the packet loop; `avail` is what ic_send_avail answers if it is asked. */
  function Look(s: Stream, avail: nat): (t: Turn)
    requires Placed(s) && s.pos + 2 <= Have(s)
    ensures Placed(t.after) && t.after.cfg == s.cfg && Have(t.after) == Have(s) && t.after.pos >= s.pos
    ensures if t.more then t.after.pos > s.pos else t.shipped == 0
  {
    var n := Length(s);
    if n == 0 then Turn(s.(pos := s.pos + 2), 0, true)
    else if n > MAX_PACKET then Turn(s.(pos := Have(s), cuts := s.cuts + [s.shift + Have(s)]), 0, false)
    else if s.pos + 2 + n > Have(s) then
      Turn(if Final(s) then s.(pos := Have(s), torn := true) else s, 0, false)
    else if avail < I.HEADER + I.Align(n) then Turn(s, 0, false)
    else Turn(Ship(s, OPUS_PKT, s.pos + 2, s.pos + 2 + n), 1, true)
  }

  function Answer(room: seq<nat>): nat { if room == [] then 0 else room[0] }

  function After(room: seq<nat>, n: nat): seq<nat> { if n <= |room| then room[n..] else [] }

  datatype Pass = Pass(after: Stream, shipped: nat)

  /** The packet loop of tts_forward_pump; `room` is what ic_send_avail answers, send by send. */
  function ShipPackets(s: Stream, room: seq<nat>, shipped: nat): (r: Pass)
    requires Placed(s)
    ensures Placed(r.after) && r.after.cfg == s.cfg && Have(r.after) == Have(s) && r.after.pos >= s.pos
    decreases Have(s) - s.pos
  {
    if shipped >= FRAMES_PER_PASS || s.pos + 2 > Have(s) then Pass(s, shipped)
    else
      var t := Look(s, Answer(room));
      if t.more then ShipPackets(t.after, After(room, t.shipped), shipped + t.shipped)
      else Pass(t.after, shipped)
  }

  /** tts_resp_compact */
  function CompactLate(s: Stream): (r: Stream)
    requires Placed(s)
    ensures Placed(r) && r.cfg == s.cfg
  {
    if s.pos < COMPACT_THRESHOLD then s else Compact(s)
  }

  /** Whole 16-bit samples, up to a chunk. */
  function PcmTake(left: nat): (n: nat)
    ensures n <= left && n <= CHUNK_SIZE && n % 2 == 0
  {
    (if left > CHUNK_SIZE then CHUNK_SIZE else left) / 2 * 2
  }

  function ShipPcm(s: Stream, room: seq<nat>): (r: Stream)
    requires Placed(s)
    ensures Placed(r) && r.cfg == s.cfg
  {
    var left := Have(s) - s.pos;
    var n := PcmTake(left);
    if left < 2 || Answer(room) < I.HEADER + I.Align(n) then s
    else CompactLate(Ship(s, PCM_CHUNK, s.pos, s.pos + n))
  }

  function Forward(s: Stream, room: seq<nat>): (r: Stream)
    requires Placed(s)
    ensures Placed(r) && r.cfg == s.cfg
  {
    if s.cfg.opus then
      var p := ShipPackets(s, room, 0);
      if p.shipped > 0 then CompactLate(p.after) else p.after
    else ShipPcm(s, room)
  }

  /** tts_forward_pump; what is left is measured against the length read before any compaction. */
  function Pump(s: Stream, room: seq<nat>): (r: Stream)
    requires Placed(s)
    ensures Placed(r) && r.cfg == s.cfg
  {
    if !s.active || s.ended then s
    else
      var d := if s.cfg.chunked then Decode(s) else s;
      var t := Forward(d, room);
      if Final(t) && Have(d) - t.pos < 2 then End(t).(drained := true) else t
  }

  datatype Step =
    | Recv(bytes: seq<byte>)
    | Finish(ok: bool)
    | Handle
    | Stop
    | Forwarding(room: seq<nat>)

  /**
   One call: bytes arriving while a connection is up, the response finishing (closed, failed or
   complete by its length), its completion handler, a stop from the user, a pass of the pump.
   */
  function Next(s: Stream, step: Step): (r: Stream)
    requires Placed(s)
    ensures Placed(r) && r.cfg == s.cfg
  {
    match step
    case Recv(bytes) => if s.phase.Idle? then s else Receive(s, bytes)
    case Finish(ok) => if s.phase.Idle? then s else s.(phase := if ok then DoneOk else DoneErr)
    case Handle => if s.phase.DoneOk? || s.phase.DoneErr? then HandleDone(s) else s
    case Stop => s.(phase := Idle)
    case Forwarding(room) => Pump(s, room)
  }

  function Run(s: Stream, steps: seq<Step>): (r: Stream)
    requires Placed(s)
    ensures Placed(r) && r.cfg == s.cfg
    decreases |steps|
  {
    if steps == [] then s else Next(Run(s, steps[..|steps| - 1]), steps[|steps| - 1])
  }
}
