/**
 The AV1 depacketizer: OBU elements are collected behind a temporal delimiter, fragments are joined
 in place, obu_size is spliced back in, and a gap discards until the next coded video sequence.
 */
module Av1Depacketizer {
  import opened Bytes
  import opened Rtp
  import opened Av1Obu
  import Leb128

  /** Capacity of the reassembly buffer. */
  const CAPACITY: nat := 262144

  /** Completed OBUs, the OBU in progress behind them, and whether it goes on in the next packet. */
  datatype Acc = Acc(tu: seq<byte>, obu: seq<byte>, open: bool)

  datatype Taken = Corrupt | Taken(acc: Acc)

  const FreshAcc := Acc(DELIMITER, [], false)

  predicate Fits(acc: Acc) { |acc.tu| + |acc.obu| <= CAPACITY }

  /** The OBU in progress is complete: restore its size field and take it into the unit. */
  function CloseObu(acc: Acc): Taken {
    var obu := acc.obu;
    if obu == [] then Taken(acc)
    else if |obu| < HeaderSize(obu[0]) then Corrupt
    else if HasSizeField(obu[0]) then Taken(acc.(tu := acc.tu + obu, obu := []))
    else if |acc.tu| + |obu| + Leb128.Size(|obu| - HeaderSize(obu[0])) > CAPACITY then Corrupt
    else Taken(acc.(tu := acc.tu + Restored(obu), obu := []))
  }

  /** One element; only a packet's `last` one can be left open, by Y. */
  function TakeElement(acc: Acc, e: seq<byte>, last: bool, y: bool): Taken {
    if |acc.tu| + |acc.obu| + |e| > CAPACITY then Corrupt
    else if last && y then Taken(acc.(obu := acc.obu + e, open := true))
    else CloseObu(acc.(obu := acc.obu + e))
  }

  /** The element at the head of `p`, as (offset, length): the w-th runs to the end, the others carry a length. */
  datatype Extent = Bad | Extent(at: nat, len: nat)

  function ElementExtent(p: seq<byte>, w: nat, element: nat): (e: Extent)
    requires p != []
    ensures e.Extent? ==> e.at + e.len <= |p| && e.at + e.len > 0
  {
    if w != 0 && element + 1 == w then Extent(0, |p|)
    else
      match Leb128.Decode(p)
      case Malformed => Bad
      case Read(len, n) => if n + len > |p| then Bad else Extent(n, len)
  }

  function TakeElements(acc: Acc, w: nat, element: nat, y: bool, p: seq<byte>): Taken
    decreases |p|
  {
    if p == [] then Taken(acc)
    else
      var e := ElementExtent(p, w, element);
      if e.Bad? then Corrupt
      else
        var end := e.at + e.len;
        match TakeElement(acc, p[e.at..end], end == |p|, y)
        case Corrupt => Corrupt
        case Taken(a) => TakeElements(a, w, element + 1, y, p[end..])
  }

  datatype State = State(acc: Acc, nextSeq: u16, haveSeq: bool, dropping: bool, started: bool)

  const Initial := State(Acc([], [], false), 0, false, false, false)

  datatype Outcome = Outcome(state: State, units: seq<seq<byte>>, ret: int)

  function Discard(s: State): State {
    s.(acc := FreshAcc, dropping := true)
  }

  function Start(s: State): State {
    if s.started then s else State(FreshAcc, s.nextSeq, s.haveSeq, true, true)
  }

  /** The sequence number is checked on every packet, also on those that carry no OBUs. */
  function Track(s: State, sn: u16): State {
    (if s.haveSeq && sn != s.nextSeq then Discard(s) else s).(haveSeq := true, nextSeq := NextSeq(sn))
  }

  /** The OBU part of a packet: aggregation header `aggr`, elements `body`. */
  function TakeBody(s: State, aggr: byte, body: seq<byte>, marker: bool): Outcome {
    var y := aggr / 64 % 2 == 1;
    match TakeElements(s.acc.(open := false), aggr / 16 % 4, 0, y, body)
    case Corrupt => Outcome(Discard(s), [], -1)
    case Taken(a) =>
      if !marker then Outcome(s.(acc := a), [], 0)
      else if a.open then Outcome(Discard(s), [], -1)
      else Outcome(s.(acc := FreshAcc), if |a.tu| > |DELIMITER| then [a.tu] else [], 0)
  }

  function TakePayload(s: State, aggr: byte, body: seq<byte>, marker: bool): Outcome {
    var n, z := aggr / 8 % 2 == 1, aggr / 128 == 1;
    if s.dropping && !n then Outcome(s, [], 0)
    else
      var s1 := if s.dropping then s.(dropping := false, acc := FreshAcc) else s;
      if z != s1.acc.open then Outcome(Discard(s1), [], 0)
      else TakeBody(s1, aggr, body, marker)
  }

  /** Where the payload starts and ends, or nothing when the headers or the padding are cut short. */
  datatype Bounds = Short | Bounds(from: nat, to: nat)

  function PayloadBounds(pkt: seq<byte>): (b: Bounds)
    ensures b.Bounds? ==> HEADER_SIZE <= b.from <= b.to <= |pkt|
  {
    if |pkt| < HEADER_SIZE then Short else
    var h0 := HEADER_SIZE + CsrcCount(pkt) * 4;
    if Extended(pkt) && |pkt| < h0 + 4 then Short
    else
      var ext: int := if Extended(pkt) then 4 + ExtensionWords(pkt, h0) * 4 else 0;
      var from := h0 + ext;
      if |pkt| < from then Short
      else if !Padded(pkt) then Bounds(from, |pkt|)
      else
        var padding: nat := pkt[|pkt| - 1];
        if padding == 0 || padding > |pkt| - from then Short else Bounds(from, |pkt| - padding)
  }

  function ExtensionWords(pkt: seq<byte>, at: nat): nat
    requires at + 4 <= |pkt|
  {
    var high: int := pkt[at + 2];
    high * 256 + pkt[at + 3]
  }

  /** One packet, whole. */
  function Step(s0: State, pkt: seq<byte>): Outcome {
    var s := Start(s0);
    match PayloadBounds(pkt)
    case Short => Outcome(s, [], -1)
    case Bounds(from, to) =>
      var s1 := Track(s, Seq(pkt));
      if to <= from + 1 then Outcome(s1, [], to)
      else
        var o := TakePayload(s1, pkt[from], pkt[from + 1..to], Marker(pkt));
        o.(ret := if o.ret == -1 then -1 else to)
  }
}
