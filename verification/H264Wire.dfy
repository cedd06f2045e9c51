/** What is on the wire for a NAL unit, byte by byte, and how the clock and the numbers run on. */
module H264Wire {
  import opened Bytes
  import opened Rtp
  import opened H264

  /** The twelve bytes of the header as its reader sees them: payload type 96, source 1. */
  predicate Headed(p: seq<byte>, marker: bool, sn: u16, ts: u32) {
    && |p| >= 12 && p[0] == 0x80 && p[1] == (if marker then 128 else 0) + 96
    && p[2..4] == [sn / 256, sn % 256]
    && p[4..8] == [ts / 0x100_0000, ts / 0x1_0000 % 256, ts / 0x100 % 256, ts % 256]
    && p[8..12] == [0, 0, 0, 1]
  }

  lemma HeaderBytes(marker: bool, sn: u16, ts: u32, body: seq<byte>)
    ensures var p := Header(Rtp.H264, marker, sn, ts) + body; Headed(p, marker, sn, ts) && p[12..] == body
  {
    var h := Header(Rtp.H264, marker, sn, ts);
    var p := h + body;
    assert p[2..4] == h[2..4] && p[4..8] == h[4..8] && p[8..12] == h[8..12];
  }

  /** A slice: of an I picture or of another. */
  predicate IsSlice(nal: seq<byte>)
    requires nal != []
  {
    nal[0] % 32 in {1, 5}
  }

  function UpTo(n: nat, most: nat): nat { if n < most then n else most }

  /** Fragment `i` of `n`: which bits it carries and which stretch of the unit behind its first byte. */
  predicate FragmentOf(p: seq<byte>, nal: seq<byte>, s: bool, body: seq<byte>, n: nat, i: nat, sn: u16, ts: u32)
    requires nal != [] && i < n && 1286 * (n - 1) <= |body|
  {
    && Headed(p, i == n - 1, Later(sn, i), ts) && |p| <= 1300
    && p[12..] == [nal[0] / 32 % 4 * 32 + 28, (if s && i == 0 then 128 else 0) + (if i == n - 1 then 64 else 0) + nal[0] % 32]
                  + body[1286 * i..UpTo(1286 * i + 1286, |body|)]
  }

  lemma FragmentBytes(nal: seq<byte>, s: bool, e: bool, part: seq<byte>, sn: u16, ts: u32)
    requires nal != []
    ensures var p := Fragment(nal[0], s, e, part, sn, ts);
            && Headed(p, e, sn, ts) && |p| == 14 + |part|
            && p[12..] == [nal[0] / 32 % 4 * 32 + 28, (if s then 128 else 0) + (if e then 64 else 0) + nal[0] % 32] + part
  {
    var h := [nal[0] / 32 % 4 * 32 + 28, (if s then 128 else 0) + (if e then 64 else 0) + nal[0] % 32];
    HeaderBytes(e, sn, ts, h + part);
    Assoc(Header(Rtp.H264, e, sn, ts), h, part);
    hide Header;
  }

  lemma {:induction false} FragmentsBytes(nal: seq<byte>, s: bool, body: seq<byte>, sn: u16, ts: u32, i: nat)
    requires nal != [] && body != []
    ensures var ps := Fragments(nal[0], s, body, sn, ts);
            |ps| == (|body| + 1285) / 1286 && (i < |ps| ==> FragmentOf(ps[i], nal, s, body, |ps|, i, sn, ts))
    decreases |body|
  {
    hide Fragment, Headed;
    LaterNext(sn, i);
    if |body| <= 1286 {
      FragmentBytes(nal, s, true, body, sn, ts);
      assert body[0..|body|] == body;
    } else {
      var rest := body[1286..];
      FragmentBytes(nal, s, false, body[..1286], sn, ts);
      FragmentsBytes(nal, false, rest, NextSeq(sn), ts, if i > 0 then i - 1 else 0);
      if i > 0 && 1286 * i < |body| { Stretch(body, i); }
    }
    hide Later;
  }

  lemma Stretch(body: seq<byte>, i: nat)
    requires |body| > 1286 && 0 < i && 1286 * i < |body|
    ensures body[1286..][1286 * (i - 1)..UpTo(1286 * i, |body| - 1286)] == body[1286 * i..UpTo(1286 * i + 1286, |body|)]
  {
  }

  /**
   A unit of 1288 bytes or less travels whole, marked if it is a slice; a longer one in fragments of
   1286 bytes and a rest, the last marked. A slice moves the clock on by 3000 for the unit after it.
   */
  lemma UnitOnWire(nal: seq<byte>, sn: u16, ts: u32)
    requires nal != []
    ensures var r := SendUnit(nal, sn, ts); var n := |r.packets|;
            && r.sn == (sn + n) % 0x1_0000 && r.ts == (if IsSlice(nal) then (ts + 3000) % 0x1_0000_0000 else ts)
            && n == (if |nal| <= 1288 then 1 else (|nal| + 1284) / 1286)
            && (|nal| <= 1288 ==> Headed(r.packets[0], IsSlice(nal), sn, ts) && r.packets[0][12..] == nal)
            && (|nal| > 1288 ==> forall i :: 0 <= i < n ==> FragmentOf(r.packets[i], nal, true, nal[1..], n, i, sn, ts))
  {
    hide Headed, Fragments;
    if |nal| <= 1288 {
      HeaderBytes(IsSlice(nal), sn, ts, nal);
      hide Header;
    } else {
      var r := SendUnit(nal, sn, ts);
      FragmentsBytes(nal, true, nal[1..], sn, ts, 0);
      hide Later;
      forall i | 0 <= i < |r.packets| ensures FragmentOf(r.packets[i], nal, true, nal[1..], |r.packets|, i, sn, ts) {
        FragmentsBytes(nal, true, nal[1..], sn, ts, i);
      }
    }
  }

  lemma UnitClock(nal: seq<byte>, sn: u16, ts: u32)
    requires nal != []
    ensures var r := SendUnit(nal, sn, ts);
            r.sn == (sn + |r.packets|) % 0x1_0000 && r.ts == (if IsSlice(nal) then (ts + 3000) % 0x1_0000_0000 else ts)
  {
    hide Headed;
    UnitOnWire(nal, sn, ts);
  }

  function Slices(nals: seq<seq<byte>>): nat
    requires forall i :: 0 <= i < |nals| ==> nals[i] != []
  {
    if nals == [] then 0 else (if IsSlice(nals[0]) then 1 else 0) + Slices(nals[1..])
  }

  lemma Ticked(ts: u32, k: nat)
    ensures ((ts + 3000) % 0x1_0000_0000 + 3000 * k) % 0x1_0000_0000 == (ts + 3000 * (k + 1)) % 0x1_0000_0000
  {
    AddsUnder(ts + 3000, 3000 * k, 0x1_0000_0000);
    assert ts + 3000 + 3000 * k == ts + 3000 * (k + 1);
  }

  lemma Counted(sn: u16, a: nat, b: nat)
    ensures ((sn + a) % 0x1_0000 + b) % 0x1_0000 == (sn + (a + b)) % 0x1_0000
  {
    AddsUnder(sn + a, b, 0x1_0000);
    assert sn + a + b == sn + (a + b);
  }

  lemma AddsUnder(x: nat, y: nat, m: nat)
    requires m > 0
    ensures (x % m + y) % m == (x + y) % m
  {
    var q := x / m;
    assert x + y == (x % m + y) + m * q;
    RingPeriod(x % m + y, q, m);
  }

  /** Over a whole stream the clock counts its slices, and the numbers its packets. */
  lemma {:induction false} StreamClock(nals: seq<seq<byte>>, sn: u16, ts: u32)
    requires forall i :: 0 <= i < |nals| ==> nals[i] != []
    ensures var r := SendUnits(nals, sn, ts);
            r.ts == (ts + 3000 * Slices(nals)) % 0x1_0000_0000 && r.sn == (sn + |r.packets|) % 0x1_0000
    decreases |nals|
  {
    hide SendUnit, Headed, IsSlice, Later;
    if nals != [] {
      var a := SendUnit(nals[0], sn, ts);
      UnitClock(nals[0], sn, ts);
      StreamClock(nals[1..], a.sn, a.ts);
      Ticked(ts, Slices(nals[1..]));
      Counted(sn, |a.packets|, |SendUnits(nals[1..], a.sn, a.ts).packets|);
    }
  }

  /** Each unit of a stream arrives behind a four-byte start code. */
  lemma BehindStartCodes(held: seq<byte>, nals: seq<seq<byte>>, sn: u16, ts: u32)
    requires forall i :: 0 <= i < |nals| ==> nals[i] != [] && Sendable(nals[i])
    ensures var ps := SendUnits(nals, sn, ts).packets;
            && (forall i :: 0 <= i < |ps| ==> |ps[i]| > HEADER_SIZE)
            && var outs := Play(held, ps).outs;
               |outs| == |nals| && forall i :: 0 <= i < |nals| ==> outs[i] == [0, 0, 0, 1] + nals[i]
  {
    UnitsArrive(held, nals, sn, ts);
    hide SendUnits, Play, Sendable;
  }

  /** Types 1 to 23 are units, whatever bits stand beside the type; any other is read as a fragment, all alike. */
  lemma TypesAsRead(held: seq<byte>, packet: seq<byte>, other: byte)
    requires |packet| > 12 && other / 32 == packet[12] / 32
    ensures 1 <= packet[12] % 32 <= 23 ==> Receive(held, packet) == Got([0, 0, 0, 1] + packet[12..], Some([0, 0, 0, 1] + packet[12..]))
    ensures !(1 <= packet[12] % 32 <= 23) && !(1 <= other % 32 <= 23) ==>
              Receive(held, packet) == Receive(held, packet[12 := other]) && (|packet| == 13 ==> Receive(held, packet) == Got(held, None))
  {
    var p, q := packet[12..], packet[12 := other][12..];
    assert q[0] == other && q[0] / 128 == p[0] / 128 && q[0] / 32 % 4 == p[0] / 32 % 4;
    if |p| >= 2 { assert p[2..] == q[2..] && p[1] == q[1]; }
  }
}
