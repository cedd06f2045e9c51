/** The push-to-talk accumulator: packets framed one after another for one upload. */
module Linephone {
  import opened Bytes
  import opened TtsFrames
  import Base64

  const CAP: nat := 12288

  /** What was kept is framed as the playback side expects it, and survives the base64 text the upload carries. */
  lemma UploadReadsBack(ps: seq<seq<byte>>, room: nat)
    requires forall i :: 0 <= i < |ps| ==> ps[i] != [] && Packet(ps[i])
    requires |Join(ps)| + 1 <= room
    ensures var text := Base64.LpEncode(Join(ps));
            |text| % 4 == 0 && Base64.Decode(text, 0, room).Some?
            && Cut(Base64.Decode(text, 0, room).value) == Cutting(ps, |Join(ps)|, false)
  {
    Base64.EncodersAgree(Join(ps));
    Base64.DecodeInverts(Join(ps), 0, room);
    CutJoin(ps);
    NoneEmpty(ps);
    hide Join, NonEmpty, Cut, Base64.Encode, Base64.LpEncode, Base64.Decode;
  }

  lemma {:induction false} NoneEmpty(ps: seq<seq<byte>>)
    requires forall i :: 0 <= i < |ps| ==> ps[i] != []
    ensures NonEmpty(ps) == ps
  {
    if ps != [] { NoneEmpty(ps[1..]); }
  }

  lemma {:induction false} JoinAppend(ps: seq<seq<byte>>, p: seq<byte>)
    ensures Join(ps + [p]) == Join(ps) + FrameOf(p)
  {
    if ps == [] {
      assert ps + [p] == [p] && [p][1..] == [];
    } else {
      assert (ps + [p])[1..] == ps[1..] + [p];
      JoinAppend(ps[1..], p);
    }
  }

  class Accumulator {
    const buf: array<byte>
    var len: nat
    ghost var kept: seq<seq<byte>>

    ghost predicate Valid()
      reads this, buf
    {
      && buf.Length == CAP && len <= CAP
      && (forall i :: 0 <= i < |kept| ==> kept[i] != [])
      && buf[..len] == Join(kept)
    }

    constructor ()
      ensures Valid() && fresh(buf) && kept == []
    {
      buf := new byte[CAP](_ => 0);
      len := 0;
      kept := [];
    }

    /** lp_accum_reset */
    method Reset()
      requires Valid()
      modifies this
      ensures Valid() && kept == []
    {
      len := 0;
      kept := [];
    }

    /** lp_accum_append */
    method Append(p: seq<byte>)
      requires Valid() && |p| < 0x1_0000
      modifies this, buf
      ensures Valid() && kept == if p == [] || |Join(old(kept))| + 2 + |p| > 12288 then old(kept) else old(kept) + [p]
    {
      if p == [] { return; }
      if len + 2 + |p| > CAP { return; }
      JoinAppend(kept, p);
      ghost var was := buf[..];
      buf[len] := |p| / 256;
      buf[len + 1] := |p| % 256;
      Memcpy(buf, len + 2, p);
      assert buf[..len + 2 + |p|] == was[..len] + FrameOf(p);
      len := len + 2 + |p|;
      kept := kept + [p];
    }

    /** What the upload carries. */
    method Text() returns (text: string)
      requires Valid()
      ensures text == Base64.LpEncode(Join(kept))
    {
      text := Base64.EncodeWords(buf[..len]);
    }
  }
}
