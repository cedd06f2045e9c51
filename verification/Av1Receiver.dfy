/**
 The receiving side as it runs: one reassembly buffer and a few counters updated in place, and the
 four packet slots of the reorder window in front of them.
 */
module Av1Receiver {
  import opened Bytes
  import opened Rtp
  import opened Av1Obu
  import opened Av1Depacketizer
  import Leb128
  import W = Av1Reorder
  import E = Av1EndToEnd

  /** memmove, leb128 and flag, on the buffer as a sequence. */
  function Moved(s: seq<byte>, at: nat, n: nat, hdr: nat, size: nat): seq<byte>
    requires hdr <= n && at + n + size <= |s|
  {
    Overwrite(s, at + hdr + size, s[at + hdr..at + hdr + (n - hdr)])
  }

  /** Splicing a length field into `s` behind a header of `hdr` bytes at `at`, and setting the size flag. */
  lemma Splice(s: seq<byte>, at: nat, n: nat, hdr: nat, len: seq<byte>)
    requires at + n + |len| <= |s| && 1 <= hdr <= n && s[at] < 254
    ensures var sized := Overwrite(Moved(s, at, n, hdr, |len|), at + hdr, len);
            && sized[at] == s[at]
            && sized[at := s[at] + 2][..at + n + |len|] ==
               s[..at] + ([s[at] + 2] + s[at + 1..at + hdr] + len + s[at + hdr..at + n])
  {
    var payload := s[at + hdr..at + hdr + (n - hdr)];
    var moved := Moved(s, at, n, hdr, |len|);
    var sized := Overwrite(moved, at + hdr, len);
    OverwriteKeeps(s, at + hdr + |len|, payload, 0, at + hdr);
    OverwriteKeeps(moved, at + hdr, len, 0, at + hdr);
    OverwriteKeeps(moved, at + hdr, len, at + hdr + |len|, at + n + |len|);
    assert moved == Overwrite(s, at + hdr + |len|, payload);
    hide Overwrite, Moved;
    assert sized[..at + hdr] == s[..at + hdr];
    PrefixParts(sized, s, at, at + hdr);
    SpliceParts(sized, at, at + hdr, at + hdr + |len|, at + n + |len|);
  }

  lemma PrefixParts(r: seq<byte>, s: seq<byte>, a: nat, b: nat)
    requires a < b <= |s| && b <= |r| && r[..b] == s[..b]
    ensures r[..a] == s[..a] && r[a] == s[a] && r[a + 1..b] == s[a + 1..b]
  {
    assert r[..b][a] == r[a] && s[..b][a] == s[a];
    assert r[..b][..a] == r[..a] && s[..b][..a] == s[..a];
    assert r[..b][a + 1..] == r[a + 1..b] && s[..b][a + 1..] == s[a + 1..b];
  }

  /** A prefix in four pieces, with the byte at `a` bumped. */
  lemma SpliceParts(s: seq<byte>, a: nat, b: nat, c: nat, d: nat)
    requires a < b <= c <= d <= |s| && s[a] < 254
    ensures s[a := s[a] + 2][..d] == s[..a] + ([s[a] + 2] + s[a + 1..b] + s[b..c] + s[c..d])
  {
  }

  lemma RestoredAt(s: seq<byte>, at: nat, n: nat, hdr: nat)
    requires at + n <= |s| && n > 0 && hdr == HeaderSize(s[at]) <= n && !HasSizeField(s[at])
    ensures Proper(s[at..at + n])
    ensures Restored(s[at..at + n]) ==
            [s[at] + 2] + s[at + 1..at + hdr] + Leb128.Encode(n - hdr) + s[at + hdr..at + n]
  {
    var obu := s[at..at + n];
    SliceOfSlice(s, at, at + n, 1, hdr);
    SliceOfSlice(s, at, at + n, hdr, n);
    assert obu[hdr..] == obu[hdr..n];
  }

  /** The OBU at `at` is restored where it lies. */
  lemma SpliceRestores(s: seq<byte>, at: nat, n: nat, hdr: nat, size: nat)
    requires at + n <= |s| && n > 0 && hdr == HeaderSize(s[at]) <= n && !HasSizeField(s[at])
    requires size == Leb128.Size(n - hdr) && at + n + size <= |s|
    ensures Proper(s[at..at + n]) && s[at] < 254
    ensures Overwrite(Moved(s, at, n, hdr, size), at + hdr, Leb128.Encode(n - hdr))[at := s[at] + 2][..at + n + size] ==
            s[..at] + Restored(s[at..at + n])
  {
    RestoredAt(s, at, n, hdr);
    hide Restored, Overwrite, Leb128.Encode, Leb128.Size, HeaderSize, Moved;
    Splice(s, at, n, hdr, Leb128.Encode(n - hdr));
  }

  /** Slides the payload over, writes obu_size into the room made and sets the size flag. */
  method SpliceSize(buf: array<byte>, at: nat, n: nat, hdr: nat, size: nat)
    requires 0 < hdr <= n && size == Leb128.Size(n - hdr) && at + n + size <= buf.Length
    requires buf[at] < 254
    modifies buf
    ensures old(buf[..])[at] < 254
    ensures buf[..] ==
            Overwrite(Moved(old(buf[..]), at, n, hdr, size), at + hdr, Leb128.Encode(n - hdr))[at := old(buf[..])[at] + 2]
  {
    hide Overwrite, Leb128.Size, Leb128.Encode;
    var h := buf[at];
    Memmove(buf, at + hdr + size, at + hdr, n - hdr);
    var written := Leb128.Write(buf, at + hdr, n - hdr);
    Store(buf, at, h + 2);
  }

  lemma AppendKeeps(s: seq<byte>, tu: nat, obu: nat, e: seq<byte>)
    requires tu + obu + |e| <= |s|
    ensures var r := Overwrite(s, tu + obu, e);
            r[..tu] == s[..tu] && r[tu..tu + (obu + |e|)] == s[tu..tu + obu] + e
  {
  }

  class Depacketizer {
    const buf: array<byte>
    var tuLen: nat
    var obuLen: nat
    var obuOpen: bool
    var nextSeq: u16
    var haveSeq: bool
    var dropping: bool
    var started: bool

    predicate Valid()
      reads this
    {
      buf.Length == CAPACITY && tuLen + obuLen <= CAPACITY
    }

    ghost function View(): State
      requires Valid()
      reads this, buf
    {
      State(Acc(buf[..][..tuLen], buf[..][tuLen..tuLen + obuLen], obuOpen), nextSeq, haveSeq, dropping, started)
    }

    constructor ()
      ensures Valid() && fresh(buf) && View() == Initial
    {
      buf := new byte[CAPACITY](_ => 0);
      tuLen, obuLen, obuOpen := 0, 0, false;
      nextSeq, haveSeq, dropping, started := 0, false, false, false;
    }

    /** Back to a lone temporal delimiter. */
    method Reset()
      requires Valid()
      modifies this`tuLen, this`obuLen, this`obuOpen, buf
      ensures Valid() && View() == old(View()).(acc := FreshAcc)
    {
      Memcpy(buf, 0, DELIMITER);
      tuLen, obuLen, obuOpen := |DELIMITER|, 0, false;
    }

    method Discarding()
      requires Valid()
      modifies this`tuLen, this`obuLen, this`obuOpen, this`dropping, buf
      ensures Valid() && View() == Discard(old(View()))
    {
      Reset();
      dropping := true;
    }

    /** Splices obu_size in and takes the OBU at buf + tuLen into the unit; false leaves everything alone. */
    method CloseOpenObu() returns (ok: bool)
      requires Valid()
      modifies this`tuLen, this`obuLen, buf
      ensures Valid()
      ensures var t := CloseObu(old(View().acc));
              ok == t.Taken? && (ok ==> View() == old(View()).(acc := t.acc))
    {
      if obuLen == 0 { return true; }
      var h := buf[tuLen];
      var hdr := if HasExtension(h) then 2 else 1;
      if obuLen < hdr { return false; }
      if HasSizeField(h) {
        tuLen, obuLen := tuLen + obuLen, 0;
        return true;
      }
      var payload := obuLen - hdr;
      var size := Leb128.ComputeSize(payload);
      if tuLen + obuLen + size > CAPACITY { return false; }
      SpliceIn(h, hdr, size);
      return true;
    }

    method SpliceIn(h: byte, hdr: nat, size: nat)
      requires Valid() && obuLen > 0 && h == buf[tuLen] && !HasSizeField(h) && hdr == HeaderSize(h) <= obuLen
      requires size == Leb128.Size(obuLen - hdr) && tuLen + obuLen + size <= CAPACITY
      modifies this`tuLen, this`obuLen, buf
      ensures Valid() && obuLen == 0 && Proper(old(buf[..][tuLen..tuLen + obuLen]))
      ensures buf[..][..tuLen] == old(buf[..][..tuLen]) + Restored(old(buf[..][tuLen..tuLen + obuLen]))
    {
      SpliceRestores(buf[..], tuLen, obuLen, hdr, size);
      hide Restored, HeaderSize, Leb128.Size, Leb128.Encode, HasSizeField, Proper, Overwrite, Moved;
      SpliceSize(buf, tuLen, obuLen, hdr, size);
      tuLen, obuLen := tuLen + obuLen + size, 0;
    }

    /** Copies one element behind what is there, and closes or leaves open its OBU. */
    method TakeOne(e: seq<byte>, last: bool, y: bool) returns (ok: bool)
      requires Valid()
      modifies this`tuLen, this`obuLen, this`obuOpen, buf
      ensures Valid()
      ensures var t := TakeElement(old(View().acc), e, last, y);
              ok == t.Taken? && (ok ==> View() == old(View()).(acc := t.acc))
    {
      if tuLen + obuLen + |e| > CAPACITY { return false; }
      hide CloseObu;
      Append(e);
      if last && y {
        obuOpen := true;
        return true;
      }
      ok := CloseOpenObu();
    }

    method Append(e: seq<byte>)
      requires Valid() && tuLen + obuLen + |e| <= CAPACITY
      modifies this`obuLen, buf
      ensures Valid() && View() == old(View()).(acc := old(View().acc).(obu := old(View().acc.obu) + e))
    {
      ghost var s := buf[..];
      AppendKeeps(s, tuLen, obuLen, e);
      hide Overwrite;
      Memcpy(buf, tuLen + obuLen, e);
      obuLen := obuLen + |e|;
    }

    method ReadExtent(body: seq<byte>, pos: nat, w: nat, element: nat) returns (x: Extent)
      requires pos < |body|
      ensures x == ElementExtent(body[pos..], w, element)
    {
      if w != 0 && element + 1 == w { return Extent(0, |body| - pos); }
      var read := Leb128.ReadFrom(body[pos..]);
      if read.Malformed? || read.bytes + read.value > |body| - pos { return Bad; }
      x := Extent(read.bytes, read.value);
    }

    /** The element loop over one packet's payload. */
    method TakeAll(w: nat, y: bool, body: seq<byte>) returns (ok: bool)
      requires Valid()
      modifies this`tuLen, this`obuLen, this`obuOpen, buf
      ensures Valid()
      ensures var t := TakeElements(old(View().acc), w, 0, y, body);
              ok == t.Taken? && (ok ==> View() == old(View()).(acc := t.acc))
    {
      hide TakeElements, ElementExtent, TakeElement, View;
      var pos: nat, element: nat := 0, 0;
      ghost var goal, acc := TakeElements(View().acc, w, 0, y, body), View().acc;
      assert body[0..] == body;
      ok := true;
      while pos < |body|
        invariant pos <= |body| && Valid()
        invariant acc == View().acc && goal == TakeElements(acc, w, element, y, body[pos..])
        invariant View() == old(View()).(acc := acc)
      {
        var x := ReadExtent(body, pos, w, element);
        TakeElementsAt(acc, w, element, y, body, pos, x);
        if x.Bad? { return false; }
        var next := pos + x.at + x.len;
        ghost var t := TakeElement(acc, body[pos + x.at..next], next == |body|, y);
        ok := TakeOne(body[pos + x.at..next], next == |body|, y);
        if !ok { return; }
        acc := t.acc;
        pos, element := next, element + 1;
      }
      TakeElementsNone(acc, w, element, y);
      assert body[pos..] == [];
    }

    /** First packet ever: wait for a sequence header. */
    method EnsureStarted()
      requires Valid()
      modifies this, buf
      ensures Valid() && View() == Start(old(View()))
    {
      if !started {
        Reset();
        started := true;
        dropping := true;
      }
    }

    /** The sequence check: a gap discards the unit in progress. */
    method CheckSequence(sn: u16)
      requires Valid()
      modifies this, buf
      ensures Valid() && View() == Track(old(View()), sn)
    {
      if haveSeq && sn != nextSeq { Discarding(); }
      haveSeq := true;
      nextSeq := NextSeq(sn);
    }

    /** Elements, then the end of the unit when the marker says so. */
    method Body(aggr: byte, body: seq<byte>, marker: bool) returns (ret: int, units: seq<seq<byte>>)
      requires Valid()
      modifies this, buf
      ensures Valid() && Outcome(View(), units, ret) == TakeBody(old(View()), aggr, body, marker)
    {
      hide TakeElements;
      units := [];
      ghost var s := View();
      obuOpen := false;
      assert View() == s.(acc := s.acc.(open := false));
      var ok := TakeAll(aggr / 16 % 4, aggr / 64 % 2 == 1, body);
      if !ok || (marker && obuOpen) {
        Discarding();
        return -1, [];
      }
      if marker {
        if tuLen > |DELIMITER| { units := [buf[..][..tuLen]]; }
        Reset();
      }
      ret := 0;
    }

    method PayloadPart(aggr: byte, body: seq<byte>, marker: bool) returns (ret: int, units: seq<seq<byte>>)
      requires Valid()
      modifies this, buf
      ensures Valid() && Outcome(View(), units, ret) == TakePayload(old(View()), aggr, body, marker)
    {
      hide TakeBody;
      if dropping {
        if aggr / 8 % 2 != 1 { return 0, []; }
        dropping := false;
        Reset();
      }
      if (aggr / 128 == 1) != obuOpen {
        Discarding();
        return 0, [];
      }
      ret, units := Body(aggr, body, marker);
    }

    /** One released packet; `units` is what the callback gets. */
    method Packet(pkt: seq<byte>) returns (ret: int, units: seq<seq<byte>>)
      requires Valid()
      modifies this, buf
      ensures Valid() && Outcome(View(), units, ret) == Step(old(View()), pkt)
    {
      hide Start, Track, PayloadBounds, TakePayload, View, Seq, Marker;
      EnsureStarted();
      var bounds := PayloadBounds(pkt);
      if bounds.Short? { return -1, []; }
      CheckSequence(Seq(pkt));
      if bounds.to <= bounds.from + 1 { return bounds.to, []; }
      ret, units := PayloadPart(pkt[bounds.from], pkt[bounds.from + 1..bounds.to], Marker(pkt));
      if ret != -1 { ret := bounds.to; }
    }
  }

  lemma TakeElementsNone(acc: Acc, w: nat, element: nat, y: bool)
    ensures TakeElements(acc, w, element, y, []) == Taken(acc)
  {
  }

  /** One turn of the element loop, in positions of the payload. */
  lemma TakeElementsAt(acc: Acc, w: nat, element: nat, y: bool, body: seq<byte>, pos: nat, x: Extent)
    requires pos < |body| && x == ElementExtent(body[pos..], w, element)
    ensures x.Bad? ==> TakeElements(acc, w, element, y, body[pos..]) == Corrupt
    ensures x.Extent? ==> pos < pos + x.at + x.len <= |body|
    ensures x.Extent? ==>
              var next := pos + x.at + x.len;
              var t := TakeElement(acc, body[pos + x.at..next], next == |body|, y);
              TakeElements(acc, w, element, y, body[pos..]) ==
              if t.Corrupt? then Corrupt else TakeElements(t.acc, w, element + 1, y, body[next..])
  {
    hide ElementExtent, TakeElement;
    if x.Extent? {
      SliceOfDrop(body, pos, x.at, x.at + x.len);
      assert body[pos..][x.at + x.len..] == body[pos + x.at + x.len..];
    }
  }

  /** The first `n` bytes of row `i` of the window's buffer. */
  function Row(s: seq<byte>, i: nat, n: nat): (r: seq<byte>)
    requires |s| == W.DEPTH * W.SLOT_SIZE && i < W.DEPTH && n <= W.SLOT_SIZE
    ensures |r| == n
  {
    s[i * W.SLOT_SIZE..i * W.SLOT_SIZE + n]
  }

  /** The reorder window with the depacketizer behind it: one video track. */
  class Decoder {
    const buf: array<byte>
    const len: array<nat>
    var awaited: u16
    var started: bool
    const depay: Depacketizer

    predicate Valid()
      reads len, depay
    {
      && buf.Length == W.DEPTH * W.SLOT_SIZE && len.Length == W.DEPTH
      && len[0] <= W.SLOT_SIZE && len[1] <= W.SLOT_SIZE && len[2] <= W.SLOT_SIZE && len[3] <= W.SLOT_SIZE
      && buf != depay.buf && depay.Valid()
    }

    function Slot(i: nat): seq<byte>
      requires Valid() && i < W.DEPTH
      reads buf, len, depay
    {
      Row(buf[..], i, len[i])
    }

    ghost function Window(): (w: W.Window)
      requires Valid()
      reads this, buf, len, depay
      ensures w.Valid()
    {
      W.Window([Slot(0), Slot(1), Slot(2), Slot(3)], awaited, started)
    }

    ghost function View(): (d: E.Decoder)
      requires Valid()
      reads this, buf, len, depay, depay.buf
      ensures d.window.Valid()
    {
      E.Decoder(Window(), depay.View())
    }

    constructor ()
      ensures Valid() && View() == E.FreshDecoder && fresh(buf) && fresh(len) && fresh(depay) && fresh(depay.buf)
    {
      buf := new byte[W.DEPTH * W.SLOT_SIZE](_ => 0);
      len := new nat[W.DEPTH](_ => 0);
      awaited, started := 0, false;
      depay := new Depacketizer();
      new;
      assert len[0] == 0 && len[1] == 0 && len[2] == 0 && len[3] == 0;
      assert |Slot(0)| == |Slot(1)| == |Slot(2)| == |Slot(3)| == 0;
    }

    /** Empties slot `i` and passes its packet on. */
    method Release(i: nat) returns (units: seq<seq<byte>>)
      requires Valid() && i < W.DEPTH
      modifies len, depay, depay.buf
      ensures Valid() && Window() == old(Window()).(slots := old(Window()).slots[i := []])
      ensures var o := Step(old(depay.View()), old(Slot(i))); depay.View() == o.state && units == o.units
    {
      hide Step, Depacketizer.View, Row;
      var pkt := Slot(i);
      len[i] := 0;
      var ret;
      ret, units := depay.Packet(pkt);
    }

    lemma AwaitedSlot()
      requires Valid()
      ensures Window().awaited == awaited
      ensures Window().slots[awaited % W.DEPTH] == [] <==> len[awaited % W.DEPTH] == 0
    {
    }

    /** One turn of the drain loop. */
    method ReleaseAwaited() returns (units: seq<seq<byte>>)
      requires Valid() && len[awaited % W.DEPTH] != 0
      modifies this`awaited, len, depay, depay.buf
      ensures Valid()
      ensures var w := old(Window());
              var at := w.awaited % W.DEPTH;
              && Window() == w.(slots := w.slots[at := []], awaited := NextSeq(w.awaited))
              && var o := Step(old(depay.View()), w.slots[at]);
              depay.View() == o.state && units == o.units
    {
      hide Step, Depacketizer.View;
      units := Release(awaited % W.DEPTH);
      awaited := NextSeq(awaited);
    }

    /** Releases what continues from `awaited`. */
    method Drain() returns (units: seq<seq<byte>>)
      requires Valid()
      modifies this`awaited, len, depay, depay.buf
      ensures Valid()
      ensures var r := W.Drain(old(Window()));
              var o := E.DepayAll(old(depay.View()), r.released);
              View() == E.Decoder(r.window, o.state) && units == o.units
    {
      hide Step, W.Drain, E.DepayAll, Depacketizer.View, W.Occupied, Window, Slot, Prepend;
      units := [];
      ghost var out: seq<seq<byte>> := [];
      ghost var w0, d0 := Window(), depay.View();
      DrainStarts(w0, d0);
      AwaitedSlot();
      while len[awaited % W.DEPTH] != 0
        invariant Valid() && Window().awaited == awaited
        invariant Window().slots[awaited % W.DEPTH] == [] <==> len[awaited % W.DEPTH] == 0
        invariant W.Drain(w0) == Prepend(out, W.Drain(Window()))
        invariant depay.View() == E.DepayAll(d0, out).state && units == E.DepayAll(d0, out).units
        decreases W.Occupied(Window().slots)
      {
        ghost var pkt := Window().slots[awaited % W.DEPTH];
        DrainTurn(Window(), out, pkt);
        DepayTurn(d0, out, pkt);
        var more := ReleaseAwaited();
        AwaitedSlot();
        out := out + [pkt];
        units := units + more;
      }
      DrainEnds(Window(), out);
    }

    /** The hole is given up: everything held goes out, ascending from `awaited`. */
    method Flush() returns (units: seq<seq<byte>>)
      requires Valid()
      modifies len, depay, depay.buf
      ensures Valid()
      ensures var r := W.Flush(old(Window()), 0);
              var o := E.DepayAll(old(depay.View()), r.released);
              View() == E.Decoder(r.window, o.state) && units == o.units
    {
      hide Step, W.Flush, E.DepayAll, Depacketizer.View, Window, Slot, Prepend;
      units := [];
      ghost var out: seq<seq<byte>> := [];
      ghost var w0, d0 := Window(), depay.View();
      FlushStarts(w0, d0);
      AwaitedSlot();
      for i := 0 to W.DEPTH
        invariant Valid() && Window().awaited == awaited
        invariant W.Flush(w0, 0) == Prepend(out, W.Flush(Window(), i))
        invariant depay.View() == E.DepayAll(d0, out).state && units == E.DepayAll(d0, out).units
      {
        var at := W.SlotAfter(awaited, i);
        ghost var pkt := Window().slots[at];
        SlotInWindow(at);
        FlushTurn(Window(), out, i, pkt);
        if len[at] != 0 {
          DepayTurn(d0, out, pkt);
          var more := Release(at);
          out := out + [pkt];
          units := units + more;
        }
      }
      FlushEnds(Window(), out);
    }

    lemma SlotInWindow(i: nat)
      requires Valid() && i < W.DEPTH
      ensures Window().slots[i] == Slot(i) && |Slot(i)| == len[i]
    {
    }

    /** Stores a datagram in the slot of its number. */
    method Put(i: nat, pkt: seq<byte>)
      requires Valid() && i < W.DEPTH && |pkt| <= W.SLOT_SIZE
      modifies buf, len
      ensures Valid() && Window() == old(Window()).(slots := old(Window()).slots[i := pkt])
      ensures depay.View() == old(depay.View())
    {
      ghost var s := buf[..];
      PutReads(s, i, pkt, 0, len[0]);
      PutReads(s, i, pkt, 1, len[1]);
      PutReads(s, i, pkt, 2, len[2]);
      PutReads(s, i, pkt, 3, len[3]);
      FourUpdated(Slot(0), Slot(1), Slot(2), Slot(3), i, pkt);
      hide Overwrite, Depacketizer.View, Row;
      Memcpy(buf, i * W.SLOT_SIZE, pkt);
      len[i] := |pkt|;
    }

    /** One datagram from the network. */
    method DecodeAv1(pkt: seq<byte>) returns (ret: int, units: seq<seq<byte>>)
      requires Valid()
      modifies this, buf, len, depay, depay.buf
      ensures Valid() && E.Decoded(View(), units, ret) == E.DecodePacket(old(View()), pkt)
    {
      hide Step, W.Drain, W.Flush, E.DepayAll, Depacketizer.View, Slot;
      units := [];
      if |pkt| < HEADER_SIZE || |pkt| > W.SLOT_SIZE {
        E.DepayNone(depay.View());
        return -1, [];
      }
      var sn := Seq(pkt);
      if !started {
        started := true;
        awaited := sn;
      }
      ret := |pkt|;
      var ahead := W.Ahead(sn, awaited);
      if ahead >= 0x8000 {
        E.DepayNone(depay.View());
        return;
      }
      ghost var w, d := Window(), depay.View();
      if ahead >= W.DEPTH {
        units := Flush();
        awaited := sn;
      } else {
        E.DepayNone(d);
      }
      ghost var mid := depay.View();
      Put(sn % W.DEPTH, pkt);
      var more := Drain();
      ghost var f := if ahead >= W.DEPTH then W.Flush(w, 0).released else [];
      E.DepayAppend(d, f, W.Insert(if ahead >= W.DEPTH then W.Flush(w, 0).window.(awaited := sn) else w, sn, pkt).released);
      units := units + more;
    }
  }

  lemma FourUpdated(a: seq<byte>, b: seq<byte>, c: seq<byte>, d: seq<byte>, i: nat, p: seq<byte>)
    requires i < 4
    ensures [a, b, c, d][i := p] ==
            [if i == 0 then p else a, if i == 1 then p else b, if i == 2 then p else c, if i == 3 then p else d]
  {
  }

  lemma PutReads(s: seq<byte>, i: nat, pkt: seq<byte>, j: nat, n: nat)
    requires |s| == W.DEPTH * W.SLOT_SIZE && i < W.DEPTH && |pkt| <= W.SLOT_SIZE
    requires j < W.DEPTH && n <= W.SLOT_SIZE
    ensures var r := Overwrite(s, i * W.SLOT_SIZE, pkt);
            Row(r, i, |pkt|) == pkt && (j != i ==> Row(r, j, n) == Row(s, j, n))
  {
    OverwriteKeeps(s, i * W.SLOT_SIZE, pkt, j * W.SLOT_SIZE, j * W.SLOT_SIZE + n);
  }

  lemma FlushStarts(w: W.Window, d: State)
    requires w.Valid()
    ensures W.Flush(w, 0) == Prepend([], W.Flush(w, 0))
    ensures E.DepayAll(d, []) == Outcome(d, [], 0)
  {
  }

  lemma FlushTurn(w: W.Window, out: seq<seq<byte>>, i: nat, pkt: seq<byte>)
    requires w.Valid() && i < W.DEPTH && pkt == w.slots[W.SlotAfter(w.awaited, i)]
    ensures var at := W.SlotAfter(w.awaited, i);
            Prepend(out, W.Flush(w, i)) ==
            if pkt == [] then Prepend(out, W.Flush(w, i + 1))
            else Prepend(out + [pkt], W.Flush(w.(slots := w.slots[at := []]), i + 1))
  {
    hide W.Flush, W.SlotAfter;
    FlushUnfolds(w, i);
    var at := W.SlotAfter(w.awaited, i);
    var r := W.Flush(w.(slots := w.slots[at := []]), i + 1);
    if pkt == [] {
      assert w.slots[at := []] == w.slots;
      assert [] + r.released == r.released;
    } else {
      assert out + ([pkt] + r.released) == out + [pkt] + r.released;
    }
  }

  lemma FlushUnfolds(w: W.Window, i: nat)
    requires w.Valid() && i < W.DEPTH
    ensures var at := W.SlotAfter(w.awaited, i);
            var r := W.Flush(w.(slots := w.slots[at := []]), i + 1);
            W.Flush(w, i) == r.(released := (if w.slots[at] == [] then [] else [w.slots[at]]) + r.released)
  {
    hide W.SlotAfter;
  }

  lemma FlushEnds(w: W.Window, out: seq<seq<byte>>)
    requires w.Valid()
    ensures Prepend(out, W.Flush(w, W.DEPTH)) == W.Received(w, out, 0)
  {
  }

  function Prepend(out: seq<seq<byte>>, r: W.Received): W.Received {
    r.(released := out + r.released)
  }

  lemma DrainStarts(w: W.Window, d: State)
    requires w.Valid()
    ensures W.Drain(w) == Prepend([], W.Drain(w))
    ensures E.DepayAll(d, []) == Outcome(d, [], 0)
  {
  }

  lemma DrainTurn(w: W.Window, out: seq<seq<byte>>, pkt: seq<byte>)
    requires w.Valid() && pkt == w.slots[w.awaited % W.DEPTH] && pkt != []
    ensures var w1 := w.(slots := w.slots[w.awaited % W.DEPTH := []], awaited := NextSeq(w.awaited));
            && W.Occupied(w1.slots) < W.Occupied(w.slots)
            && Prepend(out, W.Drain(w)) == Prepend(out + [pkt], W.Drain(w1))
  {
    W.OccupiedClear(w.slots, w.awaited % W.DEPTH);
    var w1 := w.(slots := w.slots[w.awaited % W.DEPTH := []], awaited := NextSeq(w.awaited));
    assert out + ([pkt] + W.Drain(w1).released) == out + [pkt] + W.Drain(w1).released;
  }

  lemma DrainEnds(w: W.Window, out: seq<seq<byte>>)
    requires w.Valid() && w.slots[w.awaited % W.DEPTH] == []
    ensures W.Drain(w) == W.Received(w, [], 0) && Prepend(out, W.Drain(w)) == W.Received(w, out, 0)
  {
  }

  lemma DepayTurn(d: State, out: seq<seq<byte>>, pkt: seq<byte>)
    ensures var m := E.DepayAll(d, out);
            var o := Step(m.state, pkt);
            E.DepayAll(d, out + [pkt]).state == o.state && E.DepayAll(d, out + [pkt]).units == m.units + o.units
  {
    hide Step;
    E.DepayAppend(d, out, [pkt]);
    DepayOne(E.DepayAll(d, out).state, pkt);
  }

  lemma DepayOne(d: State, pkt: seq<byte>)
    ensures var o := Step(d, pkt); E.DepayAll(d, [pkt]).state == o.state && E.DepayAll(d, [pkt]).units == o.units
  {
    hide Step;
    assert [pkt][1..] == [];
  }
}
