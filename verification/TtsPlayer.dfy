/** The response buffer and the globals around it, updated in place by the calls `TtsStream` describes. */
module TtsPlayer {
  import opened Bytes
  import opened TtsFrames
  import opened TtsStream
  import TtsRun
  import H = HttpChunked
  import I = IcRing

  lemma SliceOverwrite(a: seq<byte>, start: nat, end: nat, at: nat, t: seq<byte>)
    requires start <= end <= |a| && at + |t| <= end - start
    ensures Overwrite(a, start + at, t)[start..end] == Overwrite(a[start..end], at, t)
  {
  }

  lemma InBuffer(a: seq<byte>, start: nat, end: nat, read: nat, write: nat, d: H.Decoder)
    requires write <= read && start + read <= end <= |a| && H.Sound(d)
    ensures var f := H.Feed(d, a[start + read..end]);
            && f == H.Feed(d, a[start..end][read..])
            && Overwrite(a, start + write, f.out)[start..end] == Overwrite(a[start..end], write, f.out)
  {
    hide H.Feed, Overwrite;
    SliceOfSlice(a, start, end, read, end - start);
    SliceOverwrite(a, start, end, write, H.Feed(d, a[start + read..end]).out);
  }

  lemma ShipPacketsStop(s: Stream, room: seq<nat>, shipped: nat)
    requires Placed(s) && (shipped >= FRAMES_PER_PASS || s.pos + 2 > Have(s))
    ensures ShipPackets(s, room, shipped) == Pass(s, shipped)
  {
  }

  lemma SliceAppend(a: seq<byte>, start: nat, end: nat, t: seq<byte>, b: byte)
    requires start <= end && end + |t| < |a|
    ensures Overwrite(a, end, t)[end + |t| := b][start..end + |t|] == a[start..end] + t
  {
  }

  /** What memmove leaves of a body whose first `shift` bytes are given up. */
  lemma SliceShift(a: seq<byte>, start: nat, end: nat, shift: nat)
    requires start <= start + shift <= end <= |a|
    ensures Overwrite(a, start, a[start + shift..end])[start..end - shift] == a[start..end][shift..]
  {
  }

  /** The response is over once as many bytes are in the buffer as were announced. */
  function Completed(s: Stream, contentLen: Option<nat>): Stream
    requires Placed(s)
  {
    if contentLen.Some? && |s.body| >= contentLen.value then Next(s, Finish(true)) else s
  }

  class Player {
    const cfg: Config
    const buf: array<byte>
    var respLen: nat
    var readPos: nat
    var writePos: nat
    var chunkState: H.Mode
    var sizeAcc: u32
    var inExt: bool
    var remaining: u32
    var playPos: nat
    var playActive: bool
    var endSent: bool
    var phase: Phase
    var sent: seq<I.Msg>
    const contentLen: Option<nat>
    var dropped: nat
    ghost var raw: seq<byte>
    ghost var shift: nat
    ghost var cuts: seq<nat>
    ghost var torn: bool
    ghost var drained: bool

    ghost predicate Valid()
      reads this, buf
    {
      buf.Length == RESP_BUF_SIZE && cfg.start <= respLen < RESP_BUF_SIZE && Placed(View())
    }

    function Dec(): H.Decoder
      reads this
    {
      H.Decoder(chunkState, sizeAcc, inExt, remaining)
    }

    ghost function View(): Stream
      reads this, buf
    {
      Stream(cfg, if cfg.start <= respLen <= buf.Length then buf[cfg.start..respLen] else [],
             readPos, writePos, Dec(), playPos, playActive, endSent, phase,
             raw, shift, sent, cuts, torn, drained)
    }

    /** Just after the headers, with an empty body. */
    constructor (cfg: Config, contentLen: Option<nat>)
      requires cfg.start < RESP_BUF_SIZE
      ensures Valid() && fresh(buf) && this.cfg == cfg && this.contentLen == contentLen
      ensures View() == TtsStream.Start(cfg) && dropped == 0
    {
      this.cfg, this.contentLen, dropped := cfg, contentLen, 0;
      buf := new byte[RESP_BUF_SIZE](_ => 0);
      respLen, readPos, writePos := cfg.start, 0, 0;
      chunkState, sizeAcc, inExt, remaining := H.NeedSize, 0, false, 0;
      playPos, playActive, endSent, phase, sent := 0, false, false, Requesting, [];
      raw, shift, cuts, torn, drained := [], 0, [], false, false;
    }

    /** The loop of the decoder on the body at hand. */
    method DecodeBody()
      requires writePos <= readPos && cfg.start + readPos <= respLen <= buf.Length && H.Sound(Dec())
      modifies buf, this`readPos, this`writePos, this`chunkState, this`sizeAcc, this`inExt, this`remaining
      ensures var body := old(buf[..])[cfg.start..respLen];
              var f := H.Feed(old(Dec()), body[old(readPos)..]);
              && Dec() == f.dec && readPos == old(readPos) + f.used && writePos == old(writePos) + |f.out|
              && buf[..][cfg.start..respLen] == Overwrite(body, old(writePos), f.out)
    {
      hide H.Feed, Overwrite;
      InBuffer(buf[..], cfg.start, respLen, readPos, writePos, Dec());
      var d;
      readPos, writePos, d := H.DecodeInPlace(buf, cfg.start, respLen, readPos, writePos, Dec());
      chunkState, sizeAcc, inExt, remaining := d.mode, d.acc, d.ext, d.left;
    }

    /** http_chunked_decode_in_place */
    method ChunkedDecode()
      requires Valid() && cfg.chunked
      modifies this, buf
      ensures Valid() && View() == Decode(old(View()))
    {
      hide H.Feed, Overwrite;
      var wasDone := chunkState.Done?;
      DecodeBody();
      if chunkState.Done? && !wasDone && phase.Requesting? {
        phase := DoneOk;
      }
    }

    /** http_resp_compact_locked */
    method CompactLocked()
      requires Valid()
      modifies this, buf
      ensures Valid() && View() == Compact(old(View()))
    {
      if playPos == 0 {
        assert View().body[0..] == View().body;
        return;
      }
      var gone := playPos;
      var bodyLen := respLen - cfg.start;
      if gone > bodyLen { gone := bodyLen; }
      GiveUp(gone);
    }

    method GiveUp(gone: nat)
      requires Valid() && gone == playPos
      modifies this, buf
      ensures Valid() && View() == Compact(old(View()))
    {
      var keep := respLen - cfg.start - gone;
      KeepLast(gone);
      if cfg.chunked {
        writePos := writePos - gone;
        readPos := readPos - gone;
      }
      respLen := cfg.start + keep;
      playPos := 0;
      shift := shift + gone;
      hide Placed;
    }

    /** The memmove of the compaction. */
    method KeepLast(gone: nat)
      requires buf.Length == RESP_BUF_SIZE && cfg.start + gone <= respLen <= buf.Length
      modifies buf
      ensures buf[..][cfg.start..respLen - gone] == old(buf[..])[cfg.start..respLen][gone..]
    {
      var keep := respLen - cfg.start - gone;
      SliceShift(buf[..], cfg.start, respLen, gone);
      if keep > 0 {
        Memmove(buf, cfg.start, cfg.start + gone, keep);
      }
    }

    /** tts_start_playback */
    method StartPlayback()
      requires Valid()
      modifies this`playPos, this`endSent, this`playActive
      ensures Valid() && View() == Arm(old(View()))
    {
      playPos := 0;
      endSent := false;
      playActive := true;
    }

    /** http_check_complete, the headers being in; with a Content-Length the body may be complete. */
    method CheckComplete()
      requires Valid() && !phase.Idle?
      modifies this, buf
      ensures Valid() && View() == Completed(Arrived(old(View())), contentLen)
    {
      hide Receive, Pump, TtsStream.HandleDone, Overwrite, H.Feed;
      if cfg.opus && cfg.chunked && !playActive {
        ChunkedDecode();
      }
      if !playActive {
        var have := if cfg.opus then writePos else respLen - cfg.start;
        if have >= PREBUFFER_BYTES {
          StartPlayback();
        }
      }
      if contentLen.Some? && respLen - cfg.start >= contentLen.value {
        phase := DoneOk;
      }
    }

    /** https_recv_cb with data, while the connection is open: false is the refusal that makes the stack keep the bytes. */
    method RecvCb(bytes: seq<byte>) returns (taken: bool)
      requires Valid() && !phase.Idle?
      modifies this, buf
      ensures Valid()
      ensures var r := Next(old(View()), Recv(bytes)); View() == if taken then Completed(r, contentLen) else r
      ensures var s := old(View()); taken <==> Fits(s, |bytes|) || Fits(Compact(s), |bytes|)
    {
      if respLen + |bytes| >= RESP_BUF_SIZE {
        CompactLocked();
      }
      if respLen + |bytes| >= RESP_BUF_SIZE { return false; }
      Append(bytes);
      CheckComplete();
      taken := true;
    }

    method Append(bytes: seq<byte>)
      requires Valid() && Fits(View(), |bytes|)
      modifies this, buf
      ensures Valid()
      ensures View() == old(View()).(body := old(View()).body + bytes, raw := old(raw) + bytes)
    {
      SliceAppend(buf[..], cfg.start, respLen, bytes, 0);
      Memcpy(buf, respLen, bytes);
      Store(buf, respLen + |bytes|, 0);
      respLen := respLen + |bytes|;
      raw := raw + bytes;
    }

    /** ic_send of the closing message, unless it has gone out. */
    method SendEndIfNeeded()
      requires Valid()
      modifies this`sent, this`endSent
      ensures Valid() && View() == if old(endSent) then old(View()) else End(old(View()))
    {
      if !endSent {
        sent := sent + [I.Msg(TTS_END, [])];
        endSent := true;
      }
    }

    /** https_handle_done for a streamed response: without headers it has failed, whatever the state says. */
    method HandleDone(headersDone: bool)
      requires Valid() && (phase.DoneOk? || phase.DoneErr?)
      modifies this
      ensures Valid()
      ensures View() == Next(if headersDone then old(View()) else Next(old(View()), Finish(false)), Handle)
      ensures dropped == old(dropped) +
              if cfg.kind.Tts? && !old(playActive) && (old(phase).DoneErr? || !headersDone) then 1 else 0
    {
      hide Receive, Pump;
      if phase.DoneErr? || !headersDone {
        if playActive {
          SendEndIfNeeded();
        } else if cfg.kind.Tts? {
          dropped := dropped + 1;
        }
      } else if !playActive && (cfg.kind.Tts? || cfg.opus) {
        StartPlayback();
      }
      phase := Idle;
    }

    method IsFinal() returns (b: bool)
      requires Valid()
      ensures b == Final(View())
    {
      b := phase.Idle? || (if cfg.chunked then chunkState.Done? else false);
    }

    /** One turn of the packet loop. */
    method LookOnce(have: nat, avail: nat) returns (shipped: nat, more: bool)
      requires Valid() && have == Have(View()) && playPos + 2 <= have
      modifies this
      ensures Valid() && Turn(View(), shipped, more) == Look(old(View()), avail) && endSent == old(endSent)
    {
      var at := cfg.start + playPos;
      var n := Short(buf[at], buf[at + 1]);
      assert n == Length(View());
      hide Length, I.Align, Short, Placed;
      if n == 0 {
        playPos := playPos + 2;
        return 0, true;
      }
      if n > MAX_PACKET {
        playPos := have;
        cuts := cuts + [shift + have];
        return 0, false;
      }
      shipped, more := LookAt(n, have, avail);
    }

    /** The length is a packet's. */
    method LookAt(n: nat, have: nat, avail: nat) returns (shipped: nat, more: bool)
      requires Valid() && have == Have(View()) && playPos + 2 <= have && 0 < n == Length(View()) <= MAX_PACKET
      modifies this
      ensures Valid() && Turn(View(), shipped, more) == Look(old(View()), avail) && endSent == old(endSent)
    {
      hide Length, I.Align, Short;
      if playPos + 2 + n > have {
        var final := IsFinal();
        if final {
          playPos := have;
          torn := true;
        }
        return 0, false;
      }
      if avail < I.HEADER + I.Align(n) { return 0, false; }
      ShipBytes(OPUS_PKT, playPos + 2, playPos + 2 + n);
      return 1, true;
    }

    /** ic_send of the body's bytes between two offsets, and the pump moved past them. */
    method ShipBytes(typ: u16, from: nat, to: nat)
      requires Valid() && from <= to <= Have(View())
      modifies this`sent, this`playPos
      ensures Valid() && View() == Ship(old(View()), typ, from, to)
    {
      SliceOfSlice(buf[..], cfg.start, respLen, from, to);
      sent := sent + [I.Msg(typ, buf[cfg.start + from..cfg.start + to])];
      playPos := to;
    }

    /** The packet loop. */
    method Packets(have: nat, room: seq<nat>) returns (shipped: nat)
      requires Valid() && cfg.opus && have == Have(View())
      modifies this
      ensures Valid() && Pass(View(), shipped) == ShipPackets(old(View()), room, 0) && endSent == old(endSent)
    {
      hide Look, ShipPackets, Placed;
      ghost var goal := ShipPackets(View(), room, 0);
      var rest: seq<nat>, more := room, true;
      shipped := 0;
      while more && shipped < FRAMES_PER_PASS && playPos + 2 <= have
        invariant Valid() && have == Have(View()) && endSent == old(endSent)
        invariant more ==> goal == ShipPackets(View(), rest, shipped)
        invariant !more ==> goal == Pass(View(), shipped)
        decreases have - playPos, more
      {
        TtsRun.ShipPacketsNext(View(), rest, shipped, Look(View(), Answer(rest)));
        var k: nat;
        k, more := LookOnce(have, Answer(rest));
        if more { rest := After(rest, k); }
        shipped := shipped + k;
      }
      if more { ShipPacketsStop(View(), rest, shipped); }
    }

    method ForwardPackets(have: nat, room: seq<nat>)
      requires Valid() && cfg.opus && have == Have(View())
      modifies this, buf
      ensures Valid() && View() == Forward(old(View()), room) && endSent == old(endSent)
    {
      hide ShipPackets, Placed;
      var shipped := Packets(have, room);
      if shipped > 0 { Reclaim(); }
    }

    method ForwardPcm(have: nat, room: seq<nat>)
      requires Valid() && !cfg.opus && have == Have(View())
      modifies this, buf
      ensures Valid() && View() == Forward(old(View()), room) && endSent == old(endSent)
    {
      hide I.Align, PcmTake;
      var left := have - playPos;
      if left >= 2 {
        var n := PcmTake(left);
        if Answer(room) >= I.HEADER + I.Align(n) {
          ShipBytes(PCM_CHUNK, playPos, playPos + n);
          Reclaim();
        }
      }
    }

    /** tts_resp_compact */
    method Reclaim()
      requires Valid()
      modifies this, buf
      ensures Valid() && View() == CompactLate(old(View()))
    {
      if playPos >= COMPACT_THRESHOLD { CompactLocked(); }
    }

    /** tts_forward_pump; false once there is nothing left to do for this stream. */
    method ForwardPump(room: seq<nat>) returns (busy: bool)
      requires Valid()
      modifies this, buf
      ensures Valid() && View() == Pump(old(View()), room)
      ensures busy <==> old(playActive) && !old(endSent) && !endSent
    {
      hide Forward, H.Feed, Overwrite;
      if !playActive || endSent { return false; }
      if cfg.chunked { ChunkedDecode(); }
      var have := if cfg.chunked then writePos else respLen - cfg.start;
      if cfg.opus { ForwardPackets(have, room); } else { ForwardPcm(have, room); }
      var final := IsFinal();
      if final && have - playPos < 2 {
        SendEndIfNeeded();
        drained := true;
        return false;
      }
      busy := true;
    }
  }
}
