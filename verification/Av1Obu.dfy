/**
 OBUs of the AV1 low-overhead bitstream: reading a temporal unit into the OBUs that travel,
 and the form a receiver rebuilds from them.
 */
module Av1Obu {
  import opened Bytes
  import Leb128

  const SEQUENCE_HEADER := 1
  const TEMPORAL_DELIMITER := 2
  const TILE_LIST := 8
  const PADDING := 15

  const MAX_OBU_PER_TU: nat := 32

  function ObuType(h: byte): nat { h / 8 % 16 }

  predicate HasExtension(h: byte) { h / 4 % 2 == 1 }

  predicate HasSizeField(h: byte) { h / 2 % 2 == 1 }

  function HeaderSize(h: byte): nat { if HasExtension(h) then 2 else 1 }

  function ClearSizeField(h: byte): byte { if HasSizeField(h) then h - 2 else h }

  /** An OBU header with obu_has_size_field cleared, and the bytes behind it. */
  datatype Element = Element(header: seq<byte>, payload: seq<byte>) {
    function Bytes(): seq<byte> { header + payload }
  }

  datatype Parsed = Rejected | Parsed(elements: seq<Element>, newSequence: bool)

  predicate Forwarded(h: byte) {
    ObuType(h) != TEMPORAL_DELIMITER && ObuType(h) != TILE_LIST && ObuType(h) != PADDING
  }

  /** The OBU at the head of `p`: its payload offset and extent, or nothing when it is cut short. */
  datatype Span = Overrun | Span(payloadAt: nat, end: nat)

  function ObuSpan(p: seq<byte>): (s: Span)
    requires p != []
    ensures s.Span? ==> HeaderSize(p[0]) <= s.payloadAt <= s.end <= |p|
  {
    var hdr := HeaderSize(p[0]);
    if hdr > |p| then Overrun
    else if !HasSizeField(p[0]) then Span(hdr, |p|)
    else
      match Leb128.Decode(p[hdr..])
      case Malformed => Overrun
      case Read(size, n) =>
        if hdr + n + size > |p| then Overrun else Span(hdr + n, hdr + n + size)
  }

  function ElementAt(p: seq<byte>, s: Span): Element
    requires p != [] && s == ObuSpan(p) && s.Span?
  {
    Element([ClearSizeField(p[0])] + p[1..HeaderSize(p[0])], p[s.payloadAt..s.end])
  }

  /** A parse that has already collected `es` and `key`, continued by `tail`. */
  function Continue(es: seq<Element>, key: bool, tail: Parsed): Parsed {
    match tail
    case Rejected => Rejected
    case Parsed(more, k) => Parsed(es + more, key || k)
  }

  /** The OBUs of `p` that travel, `taken` of the unit being already collected. */
  function Parse(p: seq<byte>, taken: nat): Parsed
    decreases |p|
  {
    if p == [] then Parsed([], false)
    else
      var s := ObuSpan(p);
      if s.Overrun? then Rejected
      else if !Forwarded(p[0]) then Parse(p[s.end..], taken)
      else if taken >= MAX_OBU_PER_TU then Rejected
      else
        Continue([ElementAt(p, s)], ObuType(p[0]) == SEQUENCE_HEADER, Parse(p[s.end..], taken + 1))
  }

  function ParseUnit(unit: seq<byte>): Parsed { Parse(unit, 0) }

  /** A whole OBU without obu_size, long enough for the header its first byte announces. */
  predicate Proper(obu: seq<byte>) {
    obu != [] && !HasSizeField(obu[0]) && |obu| >= HeaderSize(obu[0])
  }

  predicate AllProper(obus: seq<seq<byte>>) {
    forall i :: 0 <= i < |obus| ==> Proper(obus[i])
  }

  function Obus(elements: seq<Element>): (r: seq<seq<byte>>)
    ensures |r| == |elements|
    ensures forall i :: 0 <= i < |r| ==> r[i] == elements[i].Bytes()
  {
    if elements == [] then [] else [elements[0].Bytes()] + Obus(elements[1..])
  }

  /** The low-overhead form of a size-less OBU: flag set, minimal obu_size behind the header. */
  function Restored(obu: seq<byte>): seq<byte>
    requires Proper(obu)
  {
    var hdr := HeaderSize(obu[0]);
    [obu[0] + 2] + obu[1..hdr] + Leb128.Encode(|obu| - hdr) + obu[hdr..]
  }

  function RestoreAll(obus: seq<seq<byte>>): seq<byte>
    requires AllProper(obus)
  {
    if obus == [] then [] else Restored(obus[0]) + RestoreAll(obus[1..])
  }

  const DELIMITER: seq<byte> := [0x12, 0x00]

  /** What a receiver rebuilds from a list of OBUs: one leading delimiter, every obu_size minimal. */
  function Normalised(obus: seq<seq<byte>>): seq<byte>
    requires AllProper(obus)
  {
    DELIMITER + RestoreAll(obus)
  }

  predicate Canonical(e: Element) {
    && e.header != [] && |e.header| == HeaderSize(e.header[0])
    && !HasSizeField(e.header[0]) && Forwarded(e.header[0])
    && |e.payload| < 0x100_0000_0000_0000
  }

  predicate HasSequenceHeader(es: seq<Element>) {
    exists i :: 0 <= i < |es| && es[i].header != [] && ObuType(es[i].header[0]) == SEQUENCE_HEADER
  }

  lemma RestoredHeader(h: byte)
    requires !HasSizeField(h)
    ensures h + 2 < 256 && HasSizeField(h + 2)
    ensures HasExtension(h + 2) == HasExtension(h) && ObuType(h + 2) == ObuType(h)
    ensures ClearSizeField(h + 2) == h
  {
  }

  /** `Restored` spelled out on the two halves of an element. */
  lemma RestoredParts(e: Element)
    requires Canonical(e)
    ensures Proper(e.Bytes())
    ensures Restored(e.Bytes()) ==
            [e.header[0] + 2] + e.header[1..] + Leb128.Encode(|e.payload|) + e.payload
  {
    var obu, hdr := e.Bytes(), |e.header|;
    assert obu[0] == e.header[0];
    assert obu[1..hdr] == e.header[1..];
    assert obu[hdr..] == e.payload;
  }

  lemma SizedSpan(h: byte, mid: seq<byte>, payload: seq<byte>, rest: seq<byte>)
    requires HasSizeField(h) && 1 + |mid| == HeaderSize(h) && |payload| < 0x100_0000_0000_0000
    ensures var p := [h] + mid + Leb128.Encode(|payload|) + payload + rest;
            ObuSpan(p) == Span(1 + |mid| + Leb128.Size(|payload|), |p| - |rest|)
  {
    var p := [h] + mid + Leb128.Encode(|payload|) + payload + rest;
    assert p[0] == h;
    assert p[1 + |mid|..] == Leb128.Encode(|payload|) + (payload + rest);
    Leb128.RoundTrip(|payload|, payload + rest);
  }

  /** A restored element at the head of a unit is read back whole. */
  lemma RestoredSpan(e: Element, rest: seq<byte>)
    requires Canonical(e) && Proper(e.Bytes())
    ensures var p := Restored(e.Bytes()) + rest;
            p != [] && var s := ObuSpan(p);
            && s.Span? && ElementAt(p, s) == e && p[s.end..] == rest
            && ObuType(p[0]) == ObuType(e.header[0]) && Forwarded(p[0])
  {
    var h, mid := e.header[0], e.header[1..];
    RestoredHeader(h);
    RestoredParts(e);
    SizedSpan(h + 2, mid, e.payload, rest);
    var front := [h + 2] + mid + Leb128.Encode(|e.payload|);
    var p := front + e.payload + rest;
    assert p == Restored(e.Bytes()) + rest;
    assert p[|front|..|front| + |e.payload|] == e.payload;
    assert p[|front| + |e.payload|..] == rest;
    assert p[1..1 + |mid|] == mid;
    assert p[0] == h + 2;
    assert [h] + mid == e.header;
  }

  lemma RestoredCons(e: Element, rest: seq<byte>, taken: nat)
    requires Canonical(e) && Proper(e.Bytes()) && taken < MAX_OBU_PER_TU
    ensures Parse(Restored(e.Bytes()) + rest, taken) ==
            Continue([e], ObuType(e.header[0]) == SEQUENCE_HEADER, Parse(rest, taken + 1))
  {
    RestoredSpan(e, rest);
    hide ObuSpan, ElementAt, Restored, ObuType;
  }

  /**
   Normalisation is idempotent: a rebuilt unit parses back into the very OBUs it was built from,
   so the receiver's output encodes to the same packets as the sender's input.
   */
  lemma {:induction false} RestoredParsesBack(es: seq<Element>, taken: nat)
    requires forall i :: 0 <= i < |es| ==> Canonical(es[i])
    requires taken + |es| <= MAX_OBU_PER_TU
    ensures AllProper(Obus(es))
    ensures Parse(RestoreAll(Obus(es)), taken) == Parsed(es, HasSequenceHeader(es))
    decreases |es|
  {
    if es == [] {
      assert !HasSequenceHeader(es);
    } else {
      hide Parse, Restored, HasSequenceHeader;
      var e, tail := es[0], es[1..];
      RestoredParsesBack(tail, taken + 1);
      RestoredParts(e);
      assert Obus(es) == [e.Bytes()] + Obus(tail);
      RestoredCons(e, RestoreAll(Obus(tail)), taken);
      HasSequenceHeaderCons(e, tail);
      assert [e] + tail == es;
    }
  }

  lemma HasSequenceHeaderCons(e: Element, tail: seq<Element>)
    requires e.header != []
    ensures HasSequenceHeader([e] + tail) <==>
            ObuType(e.header[0]) == SEQUENCE_HEADER || HasSequenceHeader(tail)
  {
    var es := [e] + tail;
    if HasSequenceHeader(tail) {
      var i :| 0 <= i < |tail| && tail[i].header != [] && ObuType(tail[i].header[0]) == SEQUENCE_HEADER;
      assert es[i + 1] == tail[i];
    }
    if HasSequenceHeader(es) && ObuType(e.header[0]) != SEQUENCE_HEADER {
      var i :| 0 <= i < |es| && es[i].header != [] && ObuType(es[i].header[0]) == SEQUENCE_HEADER;
      assert es[i] == tail[i - 1];
    }
    assert es[0] == e;
  }

  /** Everything collected is canonical, in number and flag as the limits say. */
  ghost predicate WellShaped(r: Parsed, taken: nat) {
    r.Parsed? ==>
      && (forall i :: 0 <= i < |r.elements| ==> Canonical(r.elements[i]))
      && AllProper(Obus(r.elements))
      && taken + |r.elements| <= MAX_OBU_PER_TU
      && r.newSequence == HasSequenceHeader(r.elements)
  }

  lemma ContinueShape(e: Element, tail: Parsed, taken: nat)
    requires Canonical(e) && WellShaped(tail, taken + 1)
    ensures WellShaped(Continue([e], ObuType(e.header[0]) == SEQUENCE_HEADER, tail), taken)
  {
    if tail.Parsed? {
      RestoredParts(e);
      HasSequenceHeaderCons(e, tail.elements);
      assert Obus([e] + tail.elements) == [e.Bytes()] + Obus(tail.elements);
    }
  }

  lemma {:induction false} ParseShape(p: seq<byte>, taken: nat)
    requires |p| < 0x100_0000_0000_0000 && taken <= MAX_OBU_PER_TU
    ensures WellShaped(Parse(p, taken), taken)
    decreases |p|
  {
    if p != [] && ObuSpan(p).Span? {
      var s := ObuSpan(p);
      if !Forwarded(p[0]) {
        ParseShape(p[s.end..], taken);
      } else if taken < MAX_OBU_PER_TU {
        ParseShape(p[s.end..], taken + 1);
        ElementAtCanonical(p, s);
        ContinueShape(ElementAt(p, s), Parse(p[s.end..], taken + 1), taken);
      }
    }
  }

  lemma ElementAtCanonical(p: seq<byte>, s: Span)
    requires p != [] && s == ObuSpan(p) && s.Span? && Forwarded(p[0]) && |p| < 0x100_0000_0000_0000
    ensures Canonical(ElementAt(p, s))
    ensures ObuType(ElementAt(p, s).header[0]) == ObuType(p[0])
  {
    assert ElementAt(p, s).header[0] == ClearSizeField(p[0]);
    ClearedHeader(p[0]);
    hide ObuSpan, ObuType, HasSizeField, HasExtension, ClearSizeField;
  }

  lemma ClearedHeader(h: byte)
    ensures var c := ClearSizeField(h); !HasSizeField(c) && HeaderSize(c) == HeaderSize(h) && ObuType(c) == ObuType(h)
  {
    if HasSizeField(h) { assert (h - 2) / 4 == h / 4 && (h - 2) / 8 == h / 8; }
  }

  /** The receiver's form of a temporal unit; rejected and empty units have none. */
  function NormalForm(unit: seq<byte>): Option<seq<byte>>
    requires |unit| < 0x100_0000_0000_0000
  {
    ParseShape(unit, 0);
    match ParseUnit(unit)
    case Rejected => None
    case Parsed(es, _) => if es == [] then None else Some(Normalised(Obus(es)))
  }

  lemma DelimiterSkipped(rest: seq<byte>, taken: nat)
    ensures Parse(DELIMITER + rest, taken) == Parse(rest, taken)
  {
    DelimiterSpan(rest);
    hide ObuSpan;
  }

  lemma DelimiterSpan(rest: seq<byte>)
    ensures var n := DELIMITER + rest; n[0] == 0x12 && n[2..] == rest && ObuSpan(n) == Span(2, 2)
  {
    var n := DELIMITER + rest;
    assert n[0] == 0x12 && n[1..] == [0x00] + rest;
    assert Leb128.Decode(n[1..]) == Leb128.Read(0, 1);
  }

  /** A normal form parses to the same OBUs and the same new-sequence flag as the unit it came from. */
  lemma NormalFormParsesSame(unit: seq<byte>)
    requires |unit| < 0x100_0000_0000_0000
    ensures NormalForm(unit).Some? ==> ParseUnit(NormalForm(unit).value) == ParseUnit(unit)
  {
    ParseShape(unit, 0);
    if NormalForm(unit).Some? {
      var es := ParseUnit(unit).elements;
      RestoredParsesBack(es, 0);
      DelimiterSkipped(RestoreAll(Obus(es)), 0);
    }
  }

  method ReadSpan(unit: seq<byte>, pos: nat) returns (s: Span)
    requires pos < |unit|
    ensures s == ObuSpan(unit[pos..])
  {
    ghost var rest := unit[pos..];
    var h := unit[pos];
    assert rest[0] == h;
    var hdrSize := if HasExtension(h) then 2 else 1;
    if pos + hdrSize > |unit| { return Overrun; }
    if !HasSizeField(h) { return Span(hdrSize, |unit| - pos); }
    assert unit[pos + hdrSize..] == rest[hdrSize..];
    var read := Leb128.ReadFrom(unit[pos + hdrSize..]);
    if read.Malformed? { return Overrun; }
    var consumed := hdrSize + read.bytes + read.value;
    if consumed > |unit| - pos { return Overrun; }
    s := Span(hdrSize + read.bytes, consumed);
  }

  function ElementIn(unit: seq<byte>, pos: nat, s: Span): Element
    requires pos < |unit| && s.Span?
    requires pos + HeaderSize(unit[pos]) <= |unit| && s.payloadAt <= s.end <= |unit| - pos
  {
    Element([ClearSizeField(unit[pos])] + unit[pos + 1..pos + HeaderSize(unit[pos])],
            unit[pos + s.payloadAt..pos + s.end])
  }

  lemma ContinueCons(es: seq<Element>, key: bool, e: Element, k: bool, tail: Parsed)
    ensures Continue(es, key, Continue([e], k, tail)) == Continue(es + [e], key || k, tail)
  {
    if tail.Parsed? {
      assert es + ([e] + tail.elements) == es + [e] + tail.elements;
    }
  }

  /** The loop has collected `es` and `key` from the first `pos` bytes. */
  ghost predicate Collected(unit: seq<byte>, pos: nat, es: seq<Element>, key: bool)
    requires pos <= |unit|
  {
    ParseUnit(unit) == Continue(es, key, Parse(unit[pos..], |es|))
  }

  lemma Positions(unit: seq<byte>, pos: nat, s: Span)
    requires pos < |unit| && s == ObuSpan(unit[pos..]) && s.Span?
    ensures unit[pos..][0] == unit[pos]
    ensures unit[pos..][s.end..] == unit[pos + s.end..]
    ensures ElementAt(unit[pos..], s) == ElementIn(unit, pos, s)
  {
    var rest := unit[pos..];
    SliceOfDrop(unit, pos, 1, HeaderSize(rest[0]));
    SliceOfDrop(unit, pos, s.payloadAt, s.end);
  }

  lemma SpanCoversHeader(unit: seq<byte>, pos: nat, s: Span)
    requires pos < |unit| && s == ObuSpan(unit[pos..]) && s.Span?
    ensures pos + HeaderSize(unit[pos]) <= |unit| && s.payloadAt <= s.end <= |unit| - pos && 0 < s.end
  {
    assert unit[pos..][0] == unit[pos];
  }

  lemma CollectStart(unit: seq<byte>)
    ensures Collected(unit, 0, [], false)
  {
    assert unit[0..] == unit;
    if ParseUnit(unit).Parsed? { assert [] + ParseUnit(unit).elements == ParseUnit(unit).elements; }
  }

  lemma CollectEnd(unit: seq<byte>, es: seq<Element>, key: bool)
    requires Collected(unit, |unit|, es, key)
    ensures ParseUnit(unit) == Parsed(es, key)
  {
    assert unit[|unit|..] == [];
    assert es + [] == es;
  }

  /** Where the loop gives up. */
  lemma CollectFails(unit: seq<byte>, pos: nat, es: seq<Element>, key: bool, s: Span)
    requires pos < |unit| && Collected(unit, pos, es, key) && s == ObuSpan(unit[pos..])
    requires s.Overrun? || (Forwarded(unit[pos]) && |es| >= MAX_OBU_PER_TU)
    ensures ParseUnit(unit) == Rejected
  {
    assert unit[pos..][0] == unit[pos];
  }

  lemma CollectSkip(unit: seq<byte>, pos: nat, es: seq<Element>, key: bool, s: Span)
    requires pos < |unit| && Collected(unit, pos, es, key) && s == ObuSpan(unit[pos..])
    requires s.Span? && !Forwarded(unit[pos])
    ensures Collected(unit, pos + s.end, es, key)
  {
    Positions(unit, pos, s);
    assert Parse(unit[pos..], |es|) == Parse(unit[pos..][s.end..], |es|);
  }

  lemma CollectTake(unit: seq<byte>, pos: nat, es: seq<Element>, key: bool, s: Span)
    requires pos < |unit| && Collected(unit, pos, es, key) && s == ObuSpan(unit[pos..])
    requires s.Span? && Forwarded(unit[pos]) && |es| < MAX_OBU_PER_TU
    ensures Collected(unit, pos + s.end, es + [ElementIn(unit, pos, s)],
                      key || ObuType(unit[pos]) == SEQUENCE_HEADER)
  {
    Positions(unit, pos, s);
    var rest := unit[pos..];
    var e, k, tail := ElementAt(rest, s), ObuType(rest[0]) == SEQUENCE_HEADER, Parse(rest[s.end..], |es| + 1);
    assert Parse(rest, |es|) == Continue([e], k, tail);
    ContinueCons(es, key, e, k, tail);
  }

  /** The parsing loop of the packetizer, `pos` running over the unit. */
  method ParseTemporalUnit(unit: seq<byte>) returns (r: Parsed)
    ensures r == ParseUnit(unit)
  {
    hide ObuSpan, Continue, Parse, ElementIn, Forwarded, ObuType;
    var pos := 0;
    var elements: seq<Element> := [];
    var newSequence := false;
    CollectStart(unit);
    while pos < |unit|
      invariant pos <= |unit|
      invariant Collected(unit, pos, elements, newSequence)
    {
      var h := unit[pos];
      var s := ReadSpan(unit, pos);
      if s.Overrun? || (Forwarded(h) && |elements| >= MAX_OBU_PER_TU) {
        CollectFails(unit, pos, elements, newSequence, s);
        return Rejected;
      }
      SpanCoversHeader(unit, pos, s);
      if Forwarded(h) {
        CollectTake(unit, pos, elements, newSequence, s);
        elements := elements + [ElementIn(unit, pos, s)];
        newSequence := newSequence || ObuType(h) == SEQUENCE_HEADER;
      } else {
        CollectSkip(unit, pos, elements, newSequence, s);
      }
      pos := pos + s.end;
    }
    CollectEnd(unit, elements, newSequence);
    r := Parsed(elements, newSequence);
  }
}
