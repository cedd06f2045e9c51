/**
 H.264 over RTP (RFC 6184, sections 5.6 and 5.8): an Annex B stream split into NAL units, each sent
 whole or as FU-A fragments, and put back together.
 */
module H264 {
  import opened Bytes
  import opened Rtp

  const PAYLOAD: nat := 1288
  const FU_PAYLOAD: nat := 1286
  const FU_A: nat := 28
  const MAX_NALU: nat := 10240

  // ---- Splitting the stream ----

  predicate StartsAt(b: seq<byte>, p: nat) { 2 <= p < |b| && b[p - 2] == 0 && b[p - 1] == 0 && b[p] == 1 }

  function FindFrom(b: seq<byte>, p: nat): (r: nat)
    ensures p < r <= |b| || r == |b|
    decreases |b| - p
  {
    if p >= |b| then |b| else if StartsAt(b, p) then p + 1 else FindFrom(b, p + 1)
  }

  /** h264_find_nalu: just past the next start code that begins at `from` or later. */
  function Find(b: seq<byte>, from: nat): (r: nat)
    ensures from < r <= |b| || r == |b|
  {
    FindFrom(b, from + 2)
  }

  /** Trailing zero bytes dropped. */
  function Trim(s: seq<byte>): (r: seq<byte>)
    ensures r <= s
  {
    if s == [] || s[|s| - 1] != 0 then s else Trim(s[..|s| - 1])
  }

  /** What lies between `from` and the next start code. */
  function Unit(b: seq<byte>, from: nat): seq<byte>
    requires from < |b|
  {
    var end := Find(b, from);
    Trim(b[from..if end != |b| then end - 1 else end])
  }

  function UnitsFrom(b: seq<byte>, from: nat): seq<seq<byte>>
    decreases |b| - from
  {
    if from >= |b| then [] else [Unit(b, from)] + UnitsFrom(b, Find(b, from))
  }

  function Units(b: seq<byte>): seq<seq<byte>> { UnitsFrom(b, Find(b, 0)) }

  /** A NAL unit the sender can carry: a single type, forbidden bit clear, no start code inside, no zero at the end. */
  predicate Sendable(nal: seq<byte>) {
    && nal != [] && nal[0] < 128 && 1 <= nal[0] % 32 <= 23 && nal[|nal| - 1] != 0
    && (forall p :: 0 <= p < |nal| ==> !StartsAt(nal, p)) && |nal| + 4 <= MAX_NALU
  }

  /** NAL units, each after two or more zeros and a one; then any number of zeros. */
  function AnnexB(nals: seq<seq<byte>>, zeros: seq<nat>, tail: nat): seq<byte>
    requires |zeros| == |nals|
  {
    if nals == [] then Zeros(tail) else Zeros(zeros[0]) + [1] + nals[0] + AnnexB(nals[1..], zeros[1..], tail)
  }

  lemma {:induction false} FindsFirst(b: seq<byte>, p: nat, q: nat)
    requires p <= q && StartsAt(b, q) && forall j :: p <= j < q ==> !StartsAt(b, j)
    ensures FindFrom(b, p) == q + 1
    decreases q - p
  {
    if p < q { FindsFirst(b, p + 1, q); }
  }

  lemma {:induction false} FindsNone(b: seq<byte>, p: nat)
    requires forall j :: p <= j < |b| ==> !StartsAt(b, j)
    ensures FindFrom(b, p) == |b|
    decreases |b| - p
  {
    if p < |b| { FindsNone(b, p + 1); }
  }

  lemma {:induction false} TrimZeros(s: seq<byte>, n: nat)
    requires s != [] && s[|s| - 1] != 0
    ensures Trim(s + Zeros(n)) == s
  {
    if n == 0 {
      assert s + Zeros(0) == s;
    } else {
      assert (s + Zeros(n))[..|s| + n - 1] == s + Zeros(n - 1);
      TrimZeros(s, n - 1);
    }
  }

  /** Inside a unit and the zeros after it there is no start code. */
  lemma NoStart(b: seq<byte>, at: nat, nal: seq<byte>, n: nat, j: nat)
    requires Sendable(nal) && at + |nal| + n <= |b| && at + 2 <= j < at + |nal| + n
    requires b[at..at + |nal| + n] == nal + Zeros(n)
    ensures !StartsAt(b, j)
  {
    var w := b[at..at + |nal| + n];
    assert b[j] == w[j - at] && b[j - 1] == w[j - 1 - at] && b[j - 2] == w[j - 2 - at];
    if j - at < |nal| {
      assert !StartsAt(nal, j - at);
    }
  }

  lemma UnitThenMore(b: seq<byte>, at: nat, nal: seq<byte>, n: nat)
    requires Sendable(nal) && n >= 2 && at + |nal| + n + 1 < |b|
    requires b[at..at + |nal| + n] == nal + Zeros(n) && b[at + |nal| + n] == 1
    ensures Unit(b, at) == nal && Find(b, at) == at + |nal| + n + 1
  {
    var q := at + |nal| + n;
    var w := b[at..q];
    assert b[q - 1] == w[|nal| + n - 1] == 0 && b[q - 2] == w[|nal| + n - 2] == 0;
    forall j | at + 2 <= j < q
      ensures !StartsAt(b, j)
    {
      NoStart(b, at, nal, n, j);
    }
    FindsFirst(b, at + 2, q);
    TrimZeros(nal, n);
  }

  lemma UnitThenEnd(b: seq<byte>, at: nat, nal: seq<byte>, n: nat)
    requires Sendable(nal) && at + |nal| + n == |b| && b[at..] == nal + Zeros(n)
    ensures Unit(b, at) == nal && Find(b, at) == |b|
  {
    assert b[at..at + |nal| + n] == b[at..];
    forall j | at + 2 <= j < |b|
      ensures !StartsAt(b, j)
    {
      NoStart(b, at, nal, n, j);
    }
    FindsNone(b, at + 2);
    TrimZeros(nal, n);
  }

  /** Every unit of a stream is found again, whole, in order, and nothing else. */
  lemma {:induction false} UnitsFromAnnexB(b: seq<byte>, at: nat, nals: seq<seq<byte>>, zeros: seq<nat>, tail: nat)
    requires |zeros| == |nals| - 1 && nals != [] && at < |b|
    requires (forall i :: 0 <= i < |nals| ==> Sendable(nals[i])) && (forall i :: 0 <= i < |zeros| ==> zeros[i] >= 2)
    requires b[at..] == nals[0] + AnnexB(nals[1..], zeros, tail)
    ensures UnitsFrom(b, at) == nals
    decreases |nals|
  {
    hide UnitsFrom, StartsAt, Unit, Find, Zeros;
    if |nals| == 1 {
      LastUnit(b, at, nals[0], tail);
      assert [nals[0]] == nals;
    } else {
      var rest := nals[1] + AnnexB(nals[1..][1..], zeros[1..], tail);
      StreamStart(nals[1..], zeros, tail);
      assert nals[1] != [] by { assert Sendable(nals[1]); }
      hide AnnexB;
      OneUnit(b, at, nals[0], zeros[0], rest);
      UnitsFromAnnexB(b, at + |nals[0]| + zeros[0] + 1, nals[1..], zeros[1..], tail);
      assert nals == [nals[0]] + nals[1..];
    }
  }

  lemma LastUnit(b: seq<byte>, at: nat, nal: seq<byte>, tail: nat)
    requires Sendable(nal) && at < |b| && b[at..] == nal + Zeros(tail)
    ensures UnitsFrom(b, at) == [nal]
  {
    UnitsNext(b, at);
    assert |b[at..]| == |nal| + tail;
    UnitThenEnd(b, at, nal, tail);
    NoUnits(b);
    hide UnitsFrom, Unit, Find, Sendable, Zeros;
    assert [nal] + [] == [nal];
  }

  lemma OneUnit(b: seq<byte>, at: nat, nal: seq<byte>, n: nat, rest: seq<byte>)
    requires Sendable(nal) && n >= 2 && rest != [] && at <= |b| && b[at..] == nal + (Zeros(n) + [1] + rest)
    ensures var q := at + |nal| + n + 1;
            q < |b| && b[q..] == rest && UnitsFrom(b, at) == [nal] + UnitsFrom(b, q)
  {
    hide UnitsFrom, Unit, Find, Sendable, Zeros;
    Pieces(b, at, nal, n, rest);
    assert |b[at + |nal| + n + 1..]| == |rest| > 0;
    UnitThenMore(b, at, nal, n);
    UnitsNext(b, at);
  }

  lemma UnitsNext(b: seq<byte>, at: nat)
    requires at < |b|
    ensures UnitsFrom(b, at) == [Unit(b, at)] + UnitsFrom(b, Find(b, at))
  {
    hide Unit, Find;
  }

  lemma NoUnits(b: seq<byte>)
    ensures UnitsFrom(b, |b|) == []
  {
  }

  lemma StreamStart(nals: seq<seq<byte>>, zeros: seq<nat>, tail: nat)
    requires |zeros| == |nals| > 0
    ensures AnnexB(nals, zeros, tail) == Zeros(zeros[0]) + [1] + (nals[0] + AnnexB(nals[1..], zeros[1..], tail))
  {
    hide Zeros;
  }

  lemma Pieces(b: seq<byte>, at: nat, nal: seq<byte>, n: nat, rest: seq<byte>)
    requires at <= |b| && b[at..] == nal + (Zeros(n) + [1] + rest)
    ensures var q := at + |nal| + n;
            q < |b| && b[at..q] == nal + Zeros(n) && b[q] == 1 && b[q + 1..] == rest
  {
    var t := b[at..];
    assert t == nal + Zeros(n) + [1] + rest;
    assert t[..|nal| + n] == nal + Zeros(n) && t[|nal| + n] == 1 && t[|nal| + n + 1..] == rest;
  }

  lemma FirstStart(b: seq<byte>, n: nat, rest: seq<byte>)
    requires n >= 2 && b == Zeros(n) + [1] + rest
    ensures Find(b, 0) == n + 1 && b[n + 1..] == rest
  {
    hide FindFrom;
    assert b[n] == 1 && b[n - 1] == 0 && b[n - 2] == 0;
    FindsFirst(b, 2, n);
  }

  lemma UnitsOfAnnexB(nals: seq<seq<byte>>, zeros: seq<nat>, tail: nat)
    requires |zeros| == |nals| && (forall i :: 0 <= i < |nals| ==> Sendable(nals[i]) && zeros[i] >= 2)
    ensures Units(AnnexB(nals, zeros, tail)) == nals
  {
    var b := AnnexB(nals, zeros, tail);
    if nals == [] {
      FindsNone(b, 2);
    } else {
      assert nals[0] != [];
      hide UnitsFrom, Sendable, StartsAt, Find, FindFrom, Zeros;
      var n, rest := zeros[0], nals[0] + AnnexB(nals[1..], zeros[1..], tail);
      StreamStart(nals, zeros, tail);
      hide AnnexB;
      FirstStart(b, n, rest);
      UnitsFromAnnexB(b, n + 1, nals, zeros[1..], tail);
    }
  }

  // ---- Sending a unit ----

  /** I and P slices close a picture: they carry the marker when sent whole and move the clock on. */
  predicate Slice(nal: seq<byte>)
    requires nal != []
  {
    nal[0] % 32 == 5 || nal[0] % 32 == 1
  }

  function Bit(b: bool, v: nat): nat { if b then v else 0 }

  function Single(nal: seq<byte>, sn: u16, ts: u32): seq<byte>
    requires nal != []
  {
    Header(Rtp.H264, Slice(nal), sn, ts) + nal
  }

  /** One fragment: indicator, FU header, and a stretch of the unit past its first byte. */
  function Fragment(first: byte, s: bool, e: bool, body: seq<byte>, sn: u16, ts: u32): seq<byte> {
    Header(Rtp.H264, e, sn, ts)
    + [first / 32 % 4 * 32 + FU_A, Bit(s, 128) + Bit(e, 64) + first % 32]
    + body
  }

  function Fragments(first: byte, s: bool, body: seq<byte>, sn: u16, ts: u32): seq<seq<byte>>
    requires body != []
    decreases |body|
  {
    if |body| <= FU_PAYLOAD then [Fragment(first, s, true, body, sn, ts)]
    else
      [Fragment(first, s, false, body[..FU_PAYLOAD], sn, ts)]
      + Fragments(first, false, body[FU_PAYLOAD..], NextSeq(sn), ts)
  }

  datatype Sent = Sent(packets: seq<seq<byte>>, sn: u16, ts: u32)

  function Later(sn: u16, n: nat): u16 { (sn + n) % 0x1_0000 }

  function SendUnit(nal: seq<byte>, sn: u16, ts: u32): Sent
    requires nal != []
  {
    var ps := if |nal| <= PAYLOAD then [Single(nal, sn, ts)] else Fragments(nal[0], true, nal[1..], sn, ts);
    Sent(ps, Later(sn, |ps|), if Slice(nal) then Tick(ts, Rtp.H264.increment) else ts)
  }

  function SendUnits(nals: seq<seq<byte>>, sn: u16, ts: u32): Sent
    requires forall i :: 0 <= i < |nals| ==> nals[i] != []
  {
    if nals == [] then Sent([], sn, ts)
    else
      var a := SendUnit(nals[0], sn, ts);
      var b := SendUnits(nals[1..], a.sn, a.ts);
      Sent(a.packets + b.packets, b.sn, b.ts)
  }

  // ---- Receiving ----

  const START: seq<byte> := [0, 0, 0, 1]

  /** The static buffer's content, and what was handed over. */
  datatype Got = Got(held: seq<byte>, out: Option<seq<byte>>)

  /** rtp_decode_h264 with a callback registered; a packet too short for a FU header changes nothing. */
  function Receive(held: seq<byte>, packet: seq<byte>): Got
    requires |packet| > HEADER_SIZE
  {
    var payload := packet[HEADER_SIZE..];
    var typ := payload[0] % 32;
    if 0 < typ < 24 then Got(START + payload, Some(START + payload))
    else if |payload| < 2 then Got(held, None)
    else
      var first := payload[0] / 128 * 128 + payload[0] / 32 % 4 * 32 + payload[1] % 32;
      if payload[1] / 128 == 1 then Got(START + [first] + payload[2..], None)
      else if |held| < MAX_NALU then
        if payload[1] / 64 % 2 == 1 then Got([], Some(held + payload[2..])) else Got(held + payload[2..], None)
      else Got(held, None)
  }

  datatype Played = Played(held: seq<byte>, outs: seq<seq<byte>>)

  function Play(held: seq<byte>, packets: seq<seq<byte>>): Played
    requires forall i :: 0 <= i < |packets| ==> |packets[i]| > HEADER_SIZE
    decreases |packets|
  {
    if packets == [] then Played(held, [])
    else
      var g := Receive(held, packets[0]);
      var r := Play(g.held, packets[1..]);
      Played(r.held, (match g.out case None => [] case Some(x) => [x]) + r.outs)
  }

  // ---- Round trip ----

  lemma {:induction false} PlayAppend(held: seq<byte>, a: seq<seq<byte>>, b: seq<seq<byte>>)
    requires forall i :: 0 <= i < |a| ==> |a[i]| > HEADER_SIZE
    requires forall i :: 0 <= i < |b| ==> |b[i]| > HEADER_SIZE
    ensures forall i :: 0 <= i < |a + b| ==> |(a + b)[i]| > HEADER_SIZE
    ensures var x := Play(held, a);
            Play(held, a + b) == Played(Play(x.held, b).held, x.outs + Play(x.held, b).outs)
    decreases |a|
  {
    hide Receive;
    if a == [] {
      assert a + b == b;
    } else {
      assert (a + b)[0] == a[0] && (a + b)[1..] == a[1..] + b;
      PlayAppend(Receive(held, a[0]).held, a[1..], b);
    }
  }

  lemma SingleArrives(held: seq<byte>, nal: seq<byte>, sn: u16, ts: u32)
    requires Sendable(nal)
    ensures Receive(held, Single(nal, sn, ts)) == Got(START + nal, Some(START + nal))
  {
    assert Single(nal, sn, ts)[HEADER_SIZE..] == nal;
    hide Header;
  }

  lemma FragmentArrives(held: seq<byte>, first: byte, s: bool, e: bool, body: seq<byte>, sn: u16, ts: u32)
    requires first < 128 && body != []
    ensures |Fragment(first, s, e, body, sn, ts)| > HEADER_SIZE
    ensures Receive(held, Fragment(first, s, e, body, sn, ts)) ==
            if s then Got(START + [first] + body, None)
            else if |held| >= MAX_NALU then Got(held, None)
            else if e then Got([], Some(held + body))
            else Got(held + body, None)
  {
    hide Header;
    var p := Fragment(first, s, e, body, sn, ts)[HEADER_SIZE..];
    assert p == [first / 32 % 4 * 32 + FU_A, Bit(s, 128) + Bit(e, 64) + first % 32] + body;
    assert p[2..] == body;
    FirstByte(first, s, e);
  }

  lemma FirstByte(first: byte, s: bool, e: bool)
    requires first < 128
    ensures var i, h := first / 32 % 4 * 32 + FU_A, Bit(s, 128) + Bit(e, 64) + first % 32;
            && i % 32 == FU_A && i / 128 * 128 + i / 32 % 4 * 32 + h % 32 == first
            && (h / 128 == 1 <==> s) && (h / 64 % 2 == 1 <==> e)
  {
  }

  /** What is left of a unit, fragment by fragment, completes what is held. */
  lemma {:induction false} FragmentsArrive(held: seq<byte>, first: byte, body: seq<byte>, sn: u16, ts: u32)
    requires first < 128 && body != [] && |held| + |body| <= MAX_NALU
    ensures var ps := Fragments(first, false, body, sn, ts);
            && (forall i :: 0 <= i < |ps| ==> |ps[i]| > HEADER_SIZE)
            && Play(held, ps) == Played([], [held + body])
    decreases |body|
  {
    if |body| <= FU_PAYLOAD {
      FragmentArrives(held, first, false, true, body, sn, ts);
      LastPlayed(held, Fragment(first, false, true, body, sn, ts), held + body);
    } else {
      var x, rest := body[..FU_PAYLOAD], body[FU_PAYLOAD..];
      FragmentArrives(held, first, false, false, x, sn, ts);
      FragmentsArrive(held + x, first, rest, NextSeq(sn), ts);
      var p := Fragment(first, false, false, x, sn, ts);
      MorePlayed(held, p, Fragments(first, false, rest, NextSeq(sn), ts), held + x);
      assert held + x + rest == held + body;
    }
  }

  lemma LastPlayed(held: seq<byte>, p: seq<byte>, out: seq<byte>)
    requires |p| > HEADER_SIZE && Receive(held, p) == Got([], Some(out))
    ensures Play(held, [p]) == Played([], [out])
  {
    assert [p][1..] == [];
    hide Receive;
  }

  lemma OnePlayed(held: seq<byte>, p: seq<byte>, out: seq<byte>)
    requires |p| > HEADER_SIZE && Receive(held, p).out == Some(out)
    ensures Play(held, [p]).outs == [out]
  {
    var none: seq<seq<byte>> := [];
    assert [p][1..] == none && Play(Receive(held, p).held, none).outs == none && [out] + none == [out];
    hide Receive;
  }

  lemma MorePlayed(held: seq<byte>, p: seq<byte>, ps: seq<seq<byte>>, now: seq<byte>)
    requires |p| > HEADER_SIZE && Receive(held, p) == Got(now, None)
    requires forall i :: 0 <= i < |ps| ==> |ps[i]| > HEADER_SIZE
    ensures forall i :: 0 <= i < |[p] + ps| ==> |([p] + ps)[i]| > HEADER_SIZE
    ensures Play(held, [p] + ps) == Play(now, ps)
  {
    assert ([p] + ps)[1..] == ps;
    var none: seq<seq<byte>> := [];
    assert none + Play(now, ps).outs == Play(now, ps).outs;
    hide Receive;
  }

  /** A unit's packets yield the unit after a four-byte start code, whatever was held. */
  lemma UnitArrives(held: seq<byte>, nal: seq<byte>, sn: u16, ts: u32)
    requires Sendable(nal)
    ensures var ps := SendUnit(nal, sn, ts).packets;
            && (forall i :: 0 <= i < |ps| ==> |ps[i]| > HEADER_SIZE)
            && Play(held, ps).outs == [START + nal]
  {
    hide Fragments, Fragment, Header;
    if |nal| <= PAYLOAD {
      SingleArrives(held, nal, sn, ts);
      var p := Single(nal, sn, ts);
      OnePlayed(held, p, START + nal);
    } else {
      var first, body := nal[0], nal[1..];
      var x, rest := body[..FU_PAYLOAD], body[FU_PAYLOAD..];
      FragmentArrives(held, first, true, false, x, sn, ts);
      var now := START + [first] + x;
      FragmentsArrive(now, first, rest, NextSeq(sn), ts);
      MorePlayed(held, Fragment(first, true, false, x, sn, ts), Fragments(first, false, rest, NextSeq(sn), ts), now);
      FirstFragment(first, body, sn, ts);
      assert now + rest == START + nal;
    }
  }

  lemma FirstFragment(first: byte, body: seq<byte>, sn: u16, ts: u32)
    requires |body| > FU_PAYLOAD
    ensures Fragments(first, true, body, sn, ts) ==
            [Fragment(first, true, false, body[..FU_PAYLOAD], sn, ts)]
            + Fragments(first, false, body[FU_PAYLOAD..], NextSeq(sn), ts)
  {
  }

  function Started(nals: seq<seq<byte>>): (r: seq<seq<byte>>)
    ensures |r| == |nals| && forall i :: 0 <= i < |nals| ==> r[i] == START + nals[i]
  {
    seq(|nals|, i requires 0 <= i < |nals| => START + nals[i])
  }

  /** Units sent are units received: each once, in order, after a start code. */
  lemma {:induction false} UnitsArrive(held: seq<byte>, nals: seq<seq<byte>>, sn: u16, ts: u32)
    requires forall i :: 0 <= i < |nals| ==> nals[i] != [] && Sendable(nals[i])
    ensures var ps := SendUnits(nals, sn, ts).packets;
            && (forall i :: 0 <= i < |ps| ==> |ps[i]| > HEADER_SIZE)
            && Play(held, ps).outs == Started(nals)
    decreases |nals|
  {
    hide SendUnit, Play, Sendable;
    if nals == [] {
      NonePlayed(held);
    } else {
      var a := SendUnit(nals[0], sn, ts);
      UnitArrives(held, nals[0], sn, ts);
      var h := Play(held, a.packets).held;
      UnitsArrive(h, nals[1..], a.sn, a.ts);
      PlayAppend(held, a.packets, SendUnits(nals[1..], a.sn, a.ts).packets);
      assert Started(nals) == [START + nals[0]] + Started(nals[1..]);
    }
  }

  lemma NonePlayed(held: seq<byte>)
    ensures Play(held, []).outs == []
  {
  }

  /** From an Annex B stream to the units on the other side, through the packets. */
  lemma StreamArrives(held: seq<byte>, nals: seq<seq<byte>>, zeros: seq<nat>, tail: nat, sn: u16, ts: u32)
    requires |zeros| == |nals|
    requires forall i :: 0 <= i < |nals| ==> Sendable(nals[i]) && zeros[i] >= 2
    ensures var units := Units(AnnexB(nals, zeros, tail));
            && (forall i :: 0 <= i < |units| ==> units[i] != [])
            && var ps := SendUnits(units, sn, ts).packets;
            && (forall i :: 0 <= i < |ps| ==> |ps[i]| > HEADER_SIZE)
            && Play(held, ps).outs == Started(nals)
  {
    UnitsOfAnnexB(nals, zeros, tail);
    UnitsArrive(held, nals, sn, ts);
  }

  // ---- What every packet looks like ----

  /** Within the MTU, numbered `sn`; a fragment starts a unit only if `s` and ends it only if `e`. */
  predicate Fragmented(p: seq<byte>, sn: u16, s: bool, e: bool) {
    && HEADER_SIZE + 2 < |p| <= MTU && Seq(p) == sn && Marker(p) == e
    && p[HEADER_SIZE] % 32 == FU_A && (p[HEADER_SIZE + 1] / 128 == 1 <==> s) && (p[HEADER_SIZE + 1] / 64 % 2 == 1 <==> e)
  }

  lemma FragmentShape(first: byte, s: bool, e: bool, body: seq<byte>, sn: u16, ts: u32)
    requires first < 128 && 0 < |body| <= FU_PAYLOAD
    ensures Fragmented(Fragment(first, s, e, body, sn, ts), sn, s, e)
  {
    var h := [first / 32 % 4 * 32 + FU_A, Bit(s, 128) + Bit(e, 64) + first % 32];
    assert Fragment(first, s, e, body, sn, ts) == Header(Rtp.H264, e, sn, ts) + (h + body);
    HeaderReadsBack(Rtp.H264, e, sn, ts, h + body);
    FirstByte(first, s, e);
    var p := Fragment(first, s, e, body, sn, ts);
    assert p[HEADER_SIZE] == h[0] && p[HEADER_SIZE + 1] == h[1];
    hide Header;
  }

  /** The start bit is on the first fragment only, the end bit and the marker on the last only; numbers run on. */
  lemma {:induction false} FragmentsShape(first: byte, s: bool, body: seq<byte>, sn: u16, ts: u32, i: nat)
    requires first < 128 && body != []
    ensures var ps := Fragments(first, s, body, sn, ts);
            ps != [] && (i < |ps| ==> Fragmented(ps[i], Later(sn, i), s && i == 0, i == |ps| - 1))
    decreases |body|
  {
    hide Fragmented, Fragment;
    LaterNext(sn, i);
    if |body| <= FU_PAYLOAD {
      FragmentShape(first, s, true, body, sn, ts);
    } else {
      FragmentShape(first, s, false, body[..FU_PAYLOAD], sn, ts);
      FragmentsShape(first, false, body[FU_PAYLOAD..], NextSeq(sn), ts, if i > 0 then i - 1 else 0);
    }
    hide Later;
  }

  lemma LaterNext(sn: u16, i: nat)
    ensures Later(sn, 0) == sn && (i > 0 ==> Later(NextSeq(sn), i - 1) == Later(sn, i))
  {
  }
}
