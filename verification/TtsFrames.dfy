/**
 The stream of length-prefixed packets a decoded body carries: a 16-bit big-endian length, then that
 many bytes; a zero length is a marker and carries nothing.
 */
module TtsFrames {
  import opened Bytes

  const MAX_PACKET: nat := 1500

  /** The packets at the front of a body, how much of it they take, and whether what follows claims too long a packet. */
  datatype Cutting = Cutting(frames: seq<seq<byte>>, used: nat, overlong: bool)

  function Cut(d: seq<byte>): (r: Cutting)
    ensures r.used <= |d|
  {
    if |d| < 2 then Cutting([], 0, false)
    else
      var n := Short(d[0], d[1]);
      if n == 0 then
        var r := Cut(d[2..]);
        r.(used := r.used + 2)
      else if n > MAX_PACKET then Cutting([], 0, true)
      else if 2 + n > |d| then Cutting([], 0, false)
      else
        var r := Cut(d[2 + n..]);
        Cutting([d[2..2 + n]] + r.frames, r.used + 2 + n, r.overlong)
  }

  lemma CutFirst(d: seq<byte>, n: nat)
    requires 2 + n <= |d| && n == Short(d[0], d[1]) <= MAX_PACKET
    ensures var r := Cut(d[2 + n..]);
            Cut(d) == Cutting(First(d, n) + r.frames, r.used + 2 + n, r.overlong)
  {
    hide Short;
    var r := Cut(d[2 + n..]);
    if n == 0 { assert First(d, n) + r.frames == r.frames; }
  }

  function First(d: seq<byte>, n: nat): seq<seq<byte>>
    requires 2 + n <= |d|
  {
    if n == 0 then [] else [d[2..2 + n]]
  }

  /** Cutting whole packets first changes nothing for the rest. */
  lemma {:induction false} CutAppend(a: seq<byte>, b: seq<byte>)
    requires Cut(a).used == |a|
    ensures !Cut(a).overlong
    ensures Cut(a + b) == Cutting(Cut(a).frames + Cut(b).frames, |a| + Cut(b).used, Cut(b).overlong)
  {
    if |a| < 2 {
      assert a == [] && a + b == b && Cut(a) == Cutting([], 0, false);
      hide Cut;
      assert [] + Cut(b).frames == Cut(b).frames;
    } else {
      var n := Short(a[0], a[1]);
      assert n <= MAX_PACKET && 2 + n <= |a|;
      hide Cut, Short, First;
      CutFirst(a, n);
      CutFirstOf(a, b, n);
      CutAppend(a[2 + n..], b);
      Grouped(First(a, n), Cut(a[2 + n..]).frames, Cut(b).frames);
    }
  }

  lemma Grouped(x: seq<seq<byte>>, y: seq<seq<byte>>, z: seq<seq<byte>>)
    ensures x + (y + z) == x + y + z
  {
  }

  lemma CutFirstOf(a: seq<byte>, b: seq<byte>, n: nat)
    requires 2 + n <= |a| && n == Short(a[0], a[1]) <= MAX_PACKET
    ensures var r := Cut(a[2 + n..] + b);
            Cut(a + b) == Cutting(First(a, n) + r.frames, r.used + 2 + n, r.overlong)
  {
    hide Cut, Short;
    Splits(a, b, 2 + n);
    CutFirst(a + b, n);
  }

  lemma Splits(a: seq<byte>, b: seq<byte>, k: nat)
    requires 2 <= k <= |a|
    ensures (a + b)[0] == a[0] && (a + b)[1] == a[1]
    ensures (a + b)[k..] == a[k..] + b && (a + b)[2..k] == a[2..k]
  {
  }

  /** More bytes only add packets, and none past an over-long length. */
  lemma {:induction false} CutGrows(a: seq<byte>, b: seq<byte>)
    ensures Cut(a).frames <= Cut(a + b).frames
    ensures Cut(a).overlong ==> Cut(a + b) == Cut(a)
  {
    if |a| >= 2 {
      var n := Short(a[0], a[1]);
      var k := 2 + n;
      assert (a + b)[0] == a[0] && (a + b)[1] == a[1];
      if n <= MAX_PACKET && k <= |a| {
        assert (a + b)[k..] == a[k..] + b && (a + b)[2..k] == a[2..k];
        CutGrows(a[k..], b);
      }
    }
  }

  lemma CutOne(d: seq<byte>)
    requires |d| >= 2 && |d| == 2 + Short(d[0], d[1]) && |d| <= 2 + MAX_PACKET
    ensures Cut(d) == Cutting(if |d| == 2 then [] else [d[2..]], |d|, false)
  {
    assert d[|d|..] == [] && d[2..|d|] == d[2..] && Cut([]) == Cutting([], 0, false);
    hide Cut;
    CutFirst(d, |d| - 2);
    Grouped(First(d, |d| - 2), [], []);
  }

  // ---- What the server framed ----

  predicate Packet(p: seq<byte>) { |p| <= MAX_PACKET }

  /** Length in sixteen bits, then the packet. */
  function FrameOf(p: seq<byte>): seq<byte> { [|p| / 256 % 256, |p| % 256] + p }

  function Join(ps: seq<seq<byte>>): seq<byte> {
    if ps == [] then [] else FrameOf(ps[0]) + Join(ps[1..])
  }

  function NonEmpty(ps: seq<seq<byte>>): seq<seq<byte>> {
    if ps == [] then [] else (if ps[0] == [] then [] else [ps[0]]) + NonEmpty(ps[1..])
  }

  /** Cutting undoes framing, markers aside. */
  lemma {:induction false} CutJoin(ps: seq<seq<byte>>)
    requires forall i :: 0 <= i < |ps| ==> Packet(ps[i])
    ensures Cut(Join(ps)) == Cutting(NonEmpty(ps), |Join(ps)|, false)
  {
    if ps != [] {
      hide Cut, FrameOf, Packet;
      CutFrame(ps[0]);
      CutJoin(ps[1..]);
      CutAppend(FrameOf(ps[0]), Join(ps[1..]));
    }
  }

  lemma CutFrame(p: seq<byte>)
    requires Packet(p)
    ensures |FrameOf(p)| == |p| + 2 && Cut(FrameOf(p)) == Cutting(if p == [] then [] else [p], |p| + 2, false)
  {
    hide Cut;
    CutOne(FrameOf(p));
    assert FrameOf(p)[2..] == p;
  }

  // ---- A pass that gave up on over-long lengths ----

  function From(cuts: seq<nat>): nat { if cuts == [] then 0 else cuts[|cuts| - 1] }

  /** Each position is where everything decoded so far was skipped, because of an over-long length. */
  predicate Skips(d: seq<byte>, cuts: seq<nat>)
    decreases |cuts|
  {
    cuts == [] ||
    var (p, c) := (cuts[..|cuts| - 1], cuts[|cuts| - 1]);
    Skips(d, p) && From(p) <= c <= |d| && Cut(d[From(p)..c]).overlong
  }

  /** The packets taken up to the last skip. */
  function Skipped(d: seq<byte>, cuts: seq<nat>): seq<seq<byte>>
    requires Skips(d, cuts)
    decreases |cuts|
  {
    if cuts == [] then []
    else
      var p := cuts[..|cuts| - 1];
      Skipped(d, p) + Cut(d[From(p)..From(cuts)]).frames
  }

  /** `c` bytes of `d` taken, in packets `out`; `torn` once a packet cut short by the end was dropped. */
  predicate Taken(d: seq<byte>, c: nat, cuts: seq<nat>, torn: bool, out: seq<seq<byte>>) {
    && Skips(d, cuts) && From(cuts) <= c <= |d|
    && if torn then c == |d| && out == Skipped(d, cuts) + Cut(d[From(cuts)..]).frames
       else Cut(d[From(cuts)..c]).used == c - From(cuts) && out == Skipped(d, cuts) + Cut(d[From(cuts)..c]).frames
  }

  lemma {:induction false} SkipsGrow(d: seq<byte>, e: seq<byte>, cuts: seq<nat>)
    requires d <= e && Skips(d, cuts)
    ensures Skips(e, cuts) && Skipped(e, cuts) == Skipped(d, cuts) && From(cuts) <= |d|
    decreases |cuts|
  {
    if cuts != [] {
      var p, c := cuts[..|cuts| - 1], cuts[|cuts| - 1];
      SkipsGrow(d, e, p);
      assert e[From(p)..c] == d[From(p)..c];
      hide Cut;
    }
  }

  /** What was taken stands when more is decoded. */
  lemma TakenGrows(d: seq<byte>, e: seq<byte>, c: nat, cuts: seq<nat>, torn: bool, out: seq<seq<byte>>)
    requires d <= e && Taken(d, c, cuts, torn, out) && (torn ==> d == e)
    ensures Taken(e, c, cuts, torn, out)
  {
    SkipsGrow(d, e, cuts);
    assert e[From(cuts)..c] == d[From(cuts)..c];
    hide Cut, Skips, Skipped;
  }

  lemma TakeMore(d: seq<byte>, c: nat, cuts: seq<nat>, out: seq<seq<byte>>, n: nat)
    requires Taken(d, c, cuts, false, out) && c + 2 <= |d|
    requires n == Short(d[c], d[c + 1]) <= MAX_PACKET && c + 2 + n <= |d|
    ensures Taken(d, c + 2 + n, cuts, false, if n == 0 then out else out + [d[c + 2..c + 2 + n]])
  {
    hide Skips, Skipped, Cut, Short;
    var a, b := d[From(cuts)..c], d[c..c + 2 + n];
    assert a + b == d[From(cuts)..c + 2 + n];
    assert b[0] == d[c] && b[1] == d[c + 1] && b[2..] == d[c + 2..c + 2 + n];
    CutAppend(a, b);
    CutOne(b);
    Grouped(Skipped(d, cuts), Cut(a).frames, if n == 0 then [] else [b[2..]]);
  }

  lemma Whole(d: seq<byte>, c: nat, cuts: seq<nat>, out: seq<seq<byte>>)
    requires Taken(d, c, cuts, false, out)
    ensures var a, b := Cut(d[From(cuts)..c]), Cut(d[c..]);
            Cut(d[From(cuts)..]) == Cutting(a.frames + b.frames, c - From(cuts) + b.used, b.overlong)
  {
    hide Skips, Skipped, Cut;
    assert d[From(cuts)..c] + d[c..] == d[From(cuts)..];
    CutAppend(d[From(cuts)..c], d[c..]);
  }

  lemma SkipAll(d: seq<byte>, c: nat, cuts: seq<nat>, out: seq<seq<byte>>)
    requires Taken(d, c, cuts, false, out) && c + 2 <= |d| && Short(d[c], d[c + 1]) > MAX_PACKET
    ensures Taken(d, |d|, cuts + [|d|], false, out)
  {
    Whole(d, c, cuts, out);
    assert Cut(d[c..]) == Cutting([], 0, true);
    var more := cuts + [|d|];
    assert more[..|more| - 1] == cuts && d[From(cuts)..|d|] == d[From(cuts)..] && d[|d|..|d|] == [];
    assert Skipped(d, more) == out;
  }

  lemma DropTorn(d: seq<byte>, c: nat, cuts: seq<nat>, out: seq<seq<byte>>)
    requires Taken(d, c, cuts, false, out) && c + 2 <= |d|
    requires 0 < Short(d[c], d[c + 1]) <= MAX_PACKET && c + 2 + Short(d[c], d[c + 1]) > |d|
    ensures Taken(d, |d|, cuts, true, out)
  {
    Whole(d, c, cuts, out);
    assert Cut(d[c..]) == Cutting([], 0, false);
    hide Skips, Skipped;
  }

  lemma {:induction false} SkipMeansOverlong(d: seq<byte>, cuts: seq<nat>)
    requires Skips(d, cuts) && cuts != []
    ensures Cut(d).overlong
    decreases |cuts|
  {
    var p, c := cuts[..|cuts| - 1], cuts[|cuts| - 1];
    if p == [] {
      assert d[0..c] + d[c..] == d;
      CutGrows(d[0..c], d[c..]);
      hide Cut;
    } else {
      SkipMeansOverlong(d, p);
    }
  }

  /** The packets before the first over-long length come first. */
  lemma {:induction false} FirstSkip(d: seq<byte>, cuts: seq<nat>)
    requires Skips(d, cuts) && cuts != []
    ensures Cut(d).frames <= Skipped(d, cuts)
    decreases |cuts|
  {
    var p, c := cuts[..|cuts| - 1], cuts[|cuts| - 1];
    if p == [] {
      assert d[0..c] + d[c..] == d;
      CutGrows(d[0..c], d[c..]);
      hide Cut;
    } else {
      FirstSkip(d, p);
    }
  }

  /** In general: everything up to the first over-long length, in order, and then whatever each resumption found. */
  lemma TakenAfterSkips(d: seq<byte>, c: nat, cuts: seq<nat>, torn: bool, out: seq<seq<byte>>)
    requires Taken(d, c, cuts, torn, out)
    ensures out == Skipped(d, cuts) + Cut(d[From(cuts)..c]).frames
    ensures torn || |d| - c < 2 ==> out == Skipped(d, cuts) + Cut(d[From(cuts)..]).frames
    ensures cuts != [] ==> Cut(d).overlong && Cut(d).frames <= out
  {
    if cuts != [] {
      SkipMeansOverlong(d, cuts);
      FirstSkip(d, cuts);
    }
    if torn {
      assert d[From(cuts)..c] == d[From(cuts)..];
    } else {
      Whole(d, c, cuts, out);
    }
    hide Skips, Skipped;
  }

  /** With no over-long length in sight, what was taken is a prefix of the packets of the body. */
  lemma TakenIsPrefix(d: seq<byte>, c: nat, cuts: seq<nat>, torn: bool, out: seq<seq<byte>>)
    requires Taken(d, c, cuts, torn, out) && !Cut(d).overlong
    ensures cuts == [] && out <= Cut(d).frames
    ensures torn || |d| - c < 2 ==> out == Cut(d).frames
  {
    TakenAfterSkips(d, c, cuts, torn, out);
    assert cuts == [];
    assert Skipped(d, cuts) == [] && d[0..] == d && d[0..c] + d[c..] == d;
    CutGrows(d[0..c], d[c..]);
    hide Skips, Skipped, Cut;
  }
}
