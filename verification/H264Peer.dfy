/** The sender's and the receiver's buffers for H.264, updated in place. */
module H264Peer {
  import opened Bytes
  import opened Rtp
  import opened H264

  /** h264_find_nalu */
  method FindNalu(b: seq<byte>, from: nat) returns (r: nat)
    requires from <= |b|
    ensures r == Find(b, from)
  {
    var p := from + 2;
    while p < |b|
      invariant from + 2 <= p && Find(b, from) == FindFrom(b, p)
    {
      if b[p - 2] == 0 && b[p - 1] == 0 && b[p] == 1 { return p + 1; }
      p := p + 1;
    }
    r := |b|;
  }

  /** The length of the unit at `from`: up to the next start code, trailing zeros off. */
  method Measure(b: seq<byte>, from: nat, end: nat) returns (n: nat)
    requires from < end <= |b| && end == Find(b, from)
    ensures from + n <= |b| && b[from..from + n] == Unit(b, from)
  {
    var stop := if end != |b| then end - 1 else end;
    n := stop - from;
    while n > 0 && b[from + n - 1] == 0
      invariant n <= stop - from && Trim(b[from..from + n]) == Unit(b, from)
    {
      assert b[from..from + n][..n - 1] == b[from..from + n - 1];
      n := n - 1;
    }
  }

  lemma LaterAdds(sn: u16, a: nat, b: nat)
    ensures Later(Later(sn, a), b) == Later(sn, a + b) && Later(sn, 0) == sn && Later(sn, 1) == NextSeq(sn)
  {
  }

  class Encoder {
    const buf: array<byte>
    var sn: u16
    var ts: u32

    constructor ()
      ensures fresh(buf) && buf.Length == MTU + 128 && sn == 0 && ts == 0
    {
      buf := new byte[MTU + 128](_ => 0);
      sn, ts := 0, 0;
    }

    /** Hands over the first bytes of the packet buffer, filled with `packet`. */
    method Emit(packet: seq<byte>) returns (wire: seq<byte>)
      requires buf.Length == MTU + 128 && |packet| <= buf.Length
      modifies buf
      ensures wire == packet
    {
      Memcpy(buf, 0, packet);
      assert buf[..|packet|] == buf[..][..|packet|] == packet;
      wire := buf[..|packet|];
    }

    method EncodeSingle(nal: seq<byte>) returns (packets: seq<seq<byte>>)
      requires buf.Length == MTU + 128 && 0 < |nal| <= PAYLOAD
      modifies this, buf
      ensures Sent(packets, sn, ts) == SendUnit(nal, old(sn), old(ts))
    {
      hide Header;
      LaterAdds(sn, 0, 1);
      var marker := nal[0] % 32 == 5 || nal[0] % 32 == 1;
      var wire := Emit(Header(Rtp.H264, marker, sn, ts) + nal);
      packets := [wire];
      sn := NextSeq(sn);
      if marker { ts := Tick(ts, Rtp.H264.increment); }
    }

    method EncodeFuA(nal: seq<byte>) returns (packets: seq<seq<byte>>)
      requires buf.Length == MTU + 128 && |nal| > PAYLOAD
      modifies this, buf
      ensures Sent(packets, sn, ts) == SendUnit(nal, old(sn), old(ts))
    {
      hide Header, Fragment;
      var first, left := nal[0], nal[1..];
      var stamp, start := ts, true;
      if nal[0] % 32 == 5 || nal[0] % 32 == 1 { ts := Tick(ts, Rtp.H264.increment); }
      packets := [];
      ghost var all := Fragments(first, true, left, sn, stamp);
      LaterAdds(sn, 0, 0);
      while true
        invariant buf.Length == MTU + 128 && left != [] && ts == if Slice(nal) then Tick(old(ts), Rtp.H264.increment) else old(ts)
        invariant all == packets + Fragments(first, start, left, sn, stamp) && sn == Later(old(sn), |packets|)
        decreases |left|
      {
        LaterAdds(old(sn), |packets|, 1);
        if |left| <= FU_PAYLOAD {
          var wire := EmitFragment(first, start, true, left, stamp);
          packets := packets + [wire];
          break;
        }
        var wire := EmitFragment(first, start, false, left[..FU_PAYLOAD], stamp);
        packets := packets + [wire];
        left := left[FU_PAYLOAD..];
        start := false;
      }
    }

    method EmitFragment(first: byte, s: bool, e: bool, body: seq<byte>, stamp: u32) returns (wire: seq<byte>)
      requires buf.Length == MTU + 128 && |body| <= FU_PAYLOAD
      modifies this`sn, buf
      ensures wire == Fragment(first, s, e, body, old(sn), stamp) && sn == NextSeq(old(sn))
    {
      hide Header;
      wire := Emit(Header(Rtp.H264, e, sn, stamp)
                   + [first / 32 % 4 * 32 + FU_A, (if s then 128 else 0) + (if e then 64 else 0) + first % 32] + body);
      sn := NextSeq(sn);
    }

    /** rtp_encoder_encode_h264, on a stream whose units are not all zeros. */
    method EncodeH264(b: seq<byte>) returns (packets: seq<seq<byte>>)
      requires buf.Length == MTU + 128 && forall i :: 0 <= i < |Units(b)| ==> Units(b)[i] != []
      modifies this, buf
      ensures Sent(packets, sn, ts) == SendUnits(Units(b), old(sn), old(ts))
    {
      hide SendUnit, Unit, Find;
      packets := [];
      var at := FindNalu(b, 0);
      ghost var units, done: nat := Units(b), 0;
      assert units[0..] == units;
      while at < |b|
        invariant buf.Length == MTU + 128 && at <= |b| && done <= |units| && units[done..] == UnitsFrom(b, at)
        invariant var r := SendUnits(units[done..], sn, ts);
                  SendUnits(units, old(sn), old(ts)) == Sent(packets + r.packets, r.sn, r.ts)
        decreases |b| - at
      {
        var end := FindNalu(b, at);
        var n := Measure(b, at, end);
        UnitsNext(b, at);
        assert units[done] == units[done..][0] == Unit(b, at) && units[done + 1..] == units[done..][1..];
        var ps;
        if n <= PAYLOAD { ps := EncodeSingle(b[at..at + n]); } else { ps := EncodeFuA(b[at..at + n]); }
        packets := packets + ps;
        at := end;
        done := done + 1;
      }
    }
  }

  class Decoder {
    const nalu: array<byte>
    var offset: nat

    ghost predicate Valid()
      reads this
    {
      nalu.Length == MAX_NALU && offset <= MAX_NALU
    }

    function Held(): seq<byte>
      requires offset <= nalu.Length
      reads this, nalu
    {
      nalu[..offset]
    }

    constructor ()
      ensures Valid() && fresh(nalu) && Held() == []
    {
      nalu := new byte[MAX_NALU](_ => 0);
      offset := 0;
    }

    method Append(s: seq<byte>)
      requires Valid() && offset + |s| <= MAX_NALU
      modifies this`offset, nalu
      ensures Valid() && Held() == old(Held()) + s
    {
      Memcpy(nalu, offset, s);
      offset := offset + |s|;
    }

    /** rtp_decode_h264 with a callback registered, for a packet whose unit fits the buffer. */
    method Decode(packet: seq<byte>) returns (out: Option<seq<byte>>)
      requires Valid() && |packet| > HEADER_SIZE && |Receive(Held(), packet).held| <= MAX_NALU
      requires Receive(Held(), packet).out.Some? ==> |Receive(Held(), packet).out.value| <= MAX_NALU
      modifies this, nalu
      ensures Valid() && Got(Held(), out) == Receive(old(Held()), packet)
    {
      var payload := packet[HEADER_SIZE..];
      var typ := payload[0] % 32;
      if 0 < typ < 24 {
        offset := 0;
        Append(START);
        Append(payload);
        assert Held() == START + payload;
        return Some(Held());
      }
      if |payload| < 2 { return None; }
      if payload[1] / 128 == 1 {
        offset := 0;
        Append(START);
        Append([payload[0] / 128 * 128 + payload[0] / 32 % 4 * 32 + payload[1] % 32]);
        Append(payload[2..]);
        assert Held() == START + [payload[0] / 128 * 128 + payload[0] / 32 % 4 * 32 + payload[1] % 32] + payload[2..];
        return None;
      }
      if offset < MAX_NALU {
        Append(payload[2..]);
        if payload[1] / 64 % 2 == 1 {
          out := Some(Held());
          offset := 0;
          return;
        }
      }
      out := None;
    }
  }
}
