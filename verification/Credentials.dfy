/** The credentials record kept in the last flash sector: what is written, what is accepted back. */
module Credentials {
  import opened Bytes
  import Crc32
  import opened Words

  const SSID_MAX: nat := 32
  const PASS_MAX: nat := 64
  const DEVICE_ID_MAX: nat := 64
  const MAGIC: bv32 := 0xCA112024
  const VERSION: bv32 := 3

  /** Offsets of the packed record. */
  const SSID_AT: nat := 12
  const PASS_AT: nat := 44
  const DEVICE_AT: nat := 108
  const CRC_AT: nat := 172
  const RECORD: nat := 176
  const PAGE: nat := 256

  /** The caller's buffers: each one byte longer than its field, so that a terminator fits. */
  datatype Creds = Creds(ssid: seq<byte>, password: seq<byte>, deviceId: seq<byte>, opus: bool)

  predicate Sized(c: Creds) {
    |c.ssid| == SSID_MAX + 1 && |c.password| == PASS_MAX + 1 && |c.deviceId| == DEVICE_ID_MAX + 1
  }

  /** strnlen */
  function StrLen(s: seq<byte>, max: nat): (n: nat)
    ensures n <= max && n <= |s| && (forall i :: 0 <= i < n ==> s[i] != 0)
    ensures n == max || n == |s| || s[n] == 0
  {
    if max == 0 || s == [] || s[0] == 0 then 0 else 1 + StrLen(s[1..], max - 1)
  }

  /** The string in `s`, at most `max` bytes of it, zero-padded to `size`. */
  function Padded(s: seq<byte>, max: nat, size: nat): (r: seq<byte>)
    requires max <= size
    ensures |r| == size
  {
    s[..StrLen(s, max)] + Zeros(size - StrLen(s, max))
  }

  /** The record up to its checksum. */
  function Body(c: Creds): (r: seq<byte>)
    ensures |r| == CRC_AT
  {
    Le(MAGIC) + Le(VERSION)
    + [StrLen(c.ssid, SSID_MAX), StrLen(c.password, PASS_MAX), StrLen(c.deviceId, DEVICE_ID_MAX), if c.opus then 1 else 0]
    + Padded(c.ssid, SSID_MAX, SSID_MAX) + Padded(c.password, PASS_MAX, PASS_MAX)
    + Padded(c.deviceId, DEVICE_ID_MAX, DEVICE_ID_MAX)
  }

  function Record(c: Creds): (r: seq<byte>)
    ensures |r| == RECORD
  {
    Body(c) + Le(Crc32.Crc(Body(c)))
  }

  function Ones(n: nat): (z: seq<byte>)
    ensures |z| == n
  {
    seq(n, i => 255)
  }

  /** What creds_save programs; nothing for an empty network name. */
  function Saved(c: Creds): Option<seq<byte>> {
    if StrLen(c.ssid, SSID_MAX) == 0 then None else Some(Record(c) + Ones(PAGE - RECORD))
  }

  function Restored(r: seq<byte>, at: nat, n: nat, size: nat): seq<byte>
    requires at + n <= |r| && n <= size
  {
    r[at..at + n] + Zeros(size - n)
  }

  /** creds_load on the bytes in flash. */
  function Load(r: seq<byte>): Option<Creds>
    requires |r| >= RECORD
  {
    if UnLe(r[0..4]) != MAGIC then None
    else if UnLe(r[4..8]) != VERSION then None
    else if r[8] > SSID_MAX || r[9] > PASS_MAX || r[10] > DEVICE_ID_MAX then None
    else if Crc32.Crc(r[..CRC_AT]) != UnLe(r[CRC_AT..RECORD]) then None
    else
      Some(Creds(Restored(r, SSID_AT, r[8], SSID_MAX + 1), Restored(r, PASS_AT, r[9], PASS_MAX + 1),
                 Restored(r, DEVICE_AT, r[10], DEVICE_ID_MAX + 1), r[11] != 0))
  }

  // ---- The bytes in flash ----

  /** A string of `s` at `at`: its length at `lenAt`, its bytes, zeros up to `max`. */
  predicate Field(p: seq<byte>, lenAt: nat, at: nat, max: nat, s: seq<byte>)
    requires lenAt < |p| && at + max <= |p|
  {
    var n := p[lenAt];
    && n <= max && n <= |s| && p[at..at + n] == s[..n] && (forall i :: 0 <= i < n ==> s[i] != 0)
    && (n < max && n < |s| ==> s[n] == 0) && forall i :: at + n <= i < at + max ==> p[i] == 0
  }

  lemma PaddedField(p: seq<byte>, lenAt: nat, at: nat, max: nat, s: seq<byte>)
    requires lenAt < |p| && at + max <= |p| && p[lenAt] == StrLen(s, max) && p[at..at + max] == Padded(s, max, max)
    ensures Field(p, lenAt, at, max, s)
  {
    var n := StrLen(s, max);
    SliceOfSlice(p, at, at + max, 0, n);
    assert p[at..at + max][0..n] == s[..n];
    forall i | at + n <= i < at + max ensures p[i] == 0 { assert p[i] == p[at..at + max][i - at]; }
    hide StrLen;
  }

  lemma MagicBytes()
    ensures Le(MAGIC) == [0x24, 0x20, 0x11, 0xCA] && Le(VERSION) == [3, 0, 0, 0]
  {
  }

  /** What is saved, byte by byte: nothing for an empty name; else the record and erased flash behind it. */
  lemma PageLayout(c: Creds)
    requires Sized(c)
    ensures Saved(c).None? <==> c.ssid[0] == 0
    ensures Saved(c).Some? ==>
              var p := Saved(c).value;
              && |p| == 256 && p[0..8] == [0x24, 0x20, 0x11, 0xCA, 3, 0, 0, 0]
              && Field(p, 8, 12, 32, c.ssid) && Field(p, 9, 44, 64, c.password) && Field(p, 10, 108, 64, c.deviceId)
              && p[11] == (if c.opus then 1 else 0) && p[172..176] == Le(Crc32.Crc(p[..172]))
              && forall i :: 176 <= i < 256 ==> p[i] == 0xFF
  {
    hide Padded, Crc32.Crc, Le;
    assert StrLen(c.ssid, SSID_MAX) == 0 <==> c.ssid[0] == 0;
    if Saved(c).Some? {
      var b, crc := Body(c), Le(Crc32.Crc(Body(c)));
      var p := b + crc + Ones(80);
      BodyParts(c);
      PageParts(b, crc, Ones(80));
      MagicBytes();
      hide Body, StrLen, Field;
      assert p == Saved(c).value;
      assert p[0..8] == p[0..4] + p[4..8];
      PaddedField(p, 8, 12, 32, c.ssid);
      PaddedField(p, 9, 44, 64, c.password);
      PaddedField(p, 10, 108, 64, c.deviceId);
    }
  }

  /** What is accepted: exactly magic, version, lengths within their fields, and the checksum of what is before it; and what is read. */
  lemma AcceptsExactly(r: seq<byte>)
    requires |r| >= RECORD
    ensures Load(r).Some? <==>
              && r[0..4] == [0x24, 0x20, 0x11, 0xCA] && r[4..8] == [3, 0, 0, 0] && r[8] <= 32 && r[9] <= 64 && r[10] <= 64
              && r[172..176] == Le(Crc32.Crc(r[..172]))
    ensures Load(r).Some? ==>
              var c := Load(r).value;
              && Sized(c) && c.ssid[..r[8]] == r[12..12 + r[8]] && c.password[..r[9]] == r[44..44 + r[9]]
              && c.deviceId[..r[10]] == r[108..108 + r[10]] && c.opus == (r[11] != 0)
              && (forall i :: r[8] <= i < 33 ==> c.ssid[i] == 0) && (forall i :: r[9] <= i < 65 ==> c.password[i] == 0)
              && forall i :: r[10] <= i < 65 ==> c.deviceId[i] == 0
  {
    hide Crc32.Crc, Le, UnLe;
    MagicBytes();
    WordIs(r[0..4], MAGIC);
    WordIs(r[4..8], VERSION);
    WordIs(r[172..176], Crc32.Crc(r[..172]));
  }

  lemma WordIs(s: seq<byte>, c: bv32)
    requires |s| == 4
    ensures UnLe(s) == c <==> s == Le(c)
  {
    hide Le, UnLe;
    UnLeLe(c);
    if UnLe(s) == c { UnLeInjective(s, Le(c)); }
  }

  // ---- Round trip ----

  /** The credentials as a C program reads them: each string up to its terminator. */
  function Canonical(c: Creds): Creds {
    Creds(Padded(c.ssid, SSID_MAX, SSID_MAX + 1), Padded(c.password, PASS_MAX, PASS_MAX + 1),
          Padded(c.deviceId, DEVICE_ID_MAX, DEVICE_ID_MAX + 1), c.opus)
  }

  lemma BodyParts(c: Creds)
    ensures var b := Body(c);
            && b[0..4] == Le(MAGIC) && b[4..8] == Le(VERSION)
            && b[8] == StrLen(c.ssid, SSID_MAX) && b[9] == StrLen(c.password, PASS_MAX)
            && b[10] == StrLen(c.deviceId, DEVICE_ID_MAX) && b[11] == (if c.opus then 1 else 0)
            && b[SSID_AT..PASS_AT] == Padded(c.ssid, SSID_MAX, SSID_MAX)
            && b[PASS_AT..DEVICE_AT] == Padded(c.password, PASS_MAX, PASS_MAX)
            && b[DEVICE_AT..CRC_AT] == Padded(c.deviceId, DEVICE_ID_MAX, DEVICE_ID_MAX)
  {
    hide Le, Padded, StrLen;
  }

  lemma FieldBack(r: seq<byte>, at: nat, s: seq<byte>, max: nat)
    requires at + max <= |r| && r[at..at + max] == Padded(s, max, max)
    ensures Restored(r, at, StrLen(s, max), max + 1) == Padded(s, max, max + 1)
  {
    var n := StrLen(s, max);
    SliceOfSlice(r, at, at + max, 0, n);
    assert r[at..at + max][0..n] == s[..n];
    hide StrLen, Zeros;
  }

  lemma PageParts(b: seq<byte>, crc: seq<byte>, rest: seq<byte>)
    requires |b| == CRC_AT && |crc| == 4
    ensures var p := b + crc + rest;
            && p[..CRC_AT] == b && p[CRC_AT..RECORD] == crc && p[0..4] == b[0..4] && p[4..8] == b[4..8]
            && p[8] == b[8] && p[9] == b[9] && p[10] == b[10] && p[11] == b[11]
            && p[SSID_AT..PASS_AT] == b[SSID_AT..PASS_AT] && p[PASS_AT..DEVICE_AT] == b[PASS_AT..DEVICE_AT]
            && p[DEVICE_AT..CRC_AT] == b[DEVICE_AT..CRC_AT]
  {
    var p := b + crc + rest;
    Within(p, b, 0, 4);
    Within(p, b, 4, 8);
    Within(p, b, SSID_AT, PASS_AT);
    Within(p, b, PASS_AT, DEVICE_AT);
    Within(p, b, DEVICE_AT, CRC_AT);
  }

  lemma Within(p: seq<byte>, b: seq<byte>, i: nat, j: nat)
    requires b <= p && i <= j <= |b|
    ensures p[i..j] == b[i..j]
  {
  }

  /** What creds_save wrote, creds_load gives back. */
  lemma LoadInvertsSave(c: Creds)
    requires Saved(c).Some?
    ensures |Saved(c).value| == PAGE && Load(Saved(c).value) == Some(Canonical(c))
  {
    var b, p := Body(c), Saved(c).value;
    BodyParts(c);
    UnLeLe(MAGIC);
    UnLeLe(VERSION);
    UnLeLe(Crc32.Crc(b));
    hide Body, Le, UnLe, Padded, StrLen, Restored, Crc32.Crc, Ones;
    PageParts(b, Le(Crc32.Crc(b)), Ones(PAGE - RECORD));
    FieldBack(p, SSID_AT, c.ssid, SSID_MAX);
    FieldBack(p, PASS_AT, c.password, PASS_MAX);
    FieldBack(p, DEVICE_AT, c.deviceId, DEVICE_ID_MAX);
  }

  lemma {:induction false} StrLenIs(s: seq<byte>, max: nat, n: nat)
    requires n <= max && n <= |s| && (forall i :: 0 <= i < n ==> s[i] != 0) && (n == max || n == |s| || s[n] == 0)
    ensures StrLen(s, max) == n
  {
    if n > 0 { StrLenIs(s[1..], max - 1, n - 1); }
  }

  /** Nothing a C string reader can see is lost, and what came back is saved to the same record. */
  lemma CanonicalReadsSame(c: Creds)
    ensures var d := Canonical(c);
            && Sized(d) && Saved(d) == Saved(c) && Canonical(d) == d
            && StrLen(d.ssid, SSID_MAX) == StrLen(c.ssid, SSID_MAX)
            && d.ssid[..StrLen(c.ssid, SSID_MAX)] == c.ssid[..StrLen(c.ssid, SSID_MAX)]
  {
    PaddedReads(c.ssid, SSID_MAX, SSID_MAX + 1);
    PaddedReads(c.password, PASS_MAX, PASS_MAX + 1);
    PaddedReads(c.deviceId, DEVICE_ID_MAX, DEVICE_ID_MAX + 1);
    hide StrLen, Zeros, Le, Crc32.Crc, Ones;
  }

  lemma PaddedReads(s: seq<byte>, max: nat, size: nat)
    requires max <= size
    ensures StrLen(Padded(s, max, size), max) == StrLen(s, max)
    ensures Padded(s, max, size)[..StrLen(s, max)] == s[..StrLen(s, max)]
    ensures forall m :: max <= m ==> Padded(Padded(s, max, size), max, m) == Padded(s, max, m)
  {
    StrLenIs(Padded(s, max, size), max, StrLen(s, max));
    hide StrLen;
  }

  // ---- Corruption ----

  /**
   An accepted record with one byte changed, the checksum's own bytes included, is accepted no more:
   saved or not, wherever the byte is, whatever it became.
   */
  lemma OneByteIsCaught(r: seq<byte>, k: nat, b: byte)
    requires |r| >= RECORD && Load(r).Some? && k < RECORD && b != r[k]
    ensures Load(r[k := b]).None?
  {
    var e := r[k := b];
    hide Crc32.Crc, UnLe, Restored;
    if k < CRC_AT {
      assert e[..CRC_AT] == r[..CRC_AT][k := b];
      Crc32.OneByteChangesCrc(r[..CRC_AT], k, b);
      assert e[CRC_AT..RECORD] == r[CRC_AT..RECORD];
    } else {
      assert e[..CRC_AT] == r[..CRC_AT];
      assert e[CRC_AT..RECORD][k - CRC_AT] != r[CRC_AT..RECORD][k - CRC_AT];
      if UnLe(e[CRC_AT..RECORD]) == UnLe(r[CRC_AT..RECORD]) {
        UnLeInjective(e[CRC_AT..RECORD], r[CRC_AT..RECORD]);
      }
    }
  }

  lemma RestoredOnly(r: seq<byte>, at: nat, n: nat, size: nat)
    requires at + n <= RECORD <= |r| && n <= size
    ensures Restored(r[..RECORD], at, n, size) == Restored(r, at, n, size)
  {
    assert r[..RECORD][at..at + n] == r[at..at + n];
  }

  /** The rest of the page is not looked at. */
  lemma RecordOnly(r: seq<byte>)
    requires |r| >= RECORD
    ensures Load(r[..RECORD]) == Load(r)
  {
    var e := r[..RECORD];
    assert e[0..4] == r[0..4] && e[4..8] == r[4..8] && e[..CRC_AT] == r[..CRC_AT] && e[CRC_AT..RECORD] == r[CRC_AT..RECORD];
    hide Crc32.Crc, UnLe, Restored;
    if r[8] <= SSID_MAX && r[9] <= PASS_MAX && r[10] <= DEVICE_ID_MAX {
      RestoredOnly(r, SSID_AT, r[8], SSID_MAX + 1);
      RestoredOnly(r, PASS_AT, r[9], PASS_MAX + 1);
      RestoredOnly(r, DEVICE_AT, r[10], DEVICE_ID_MAX + 1);
    }
  }

  lemma ErasedIsRefused(r: seq<byte>)
    requires |r| >= RECORD && forall i :: 0 <= i < RECORD ==> r[i] == 255
    ensures Load(r).None?
  {
    hide Crc32.Crc, Crc32.Wide, Word, Restored;
    assert r[0..4] == [255, 255, 255, 255];
    ErasedWord();
  }

  lemma ErasedWord()
    ensures UnLe([255, 255, 255, 255]) != MAGIC
  {
  }

  // ---- In flash ----

  /** The page of flash the record lives in. */
  class Store {
    const flash: array<byte>

    constructor ()
      ensures flash.Length == PAGE && fresh(flash)
    {
      flash := new byte[PAGE](_ => 255);
    }

    /** creds_save; `safe` says whether the flash could be taken for the erase and the program. */
    method Save(c: Creds, safe: bool) returns (ret: int)
      requires Sized(c) && flash.Length == PAGE
      modifies flash
      ensures ret == 0 <==> Saved(c).Some? && safe
      ensures flash[..] == if Saved(c).Some? && safe then Saved(c).value else old(flash[..])
      ensures ret == 0 || ret == -1
    {
      hide Record, Ones, StrLen;
      var slen := Measure(c.ssid, SSID_MAX);
      if slen == 0 { return -1; }
      var record := Build(c);
      if !safe { return -1; }
      Memcpy(flash, 0, record + Ones(PAGE - RECORD));
      assert flash[..] == record + Ones(PAGE - RECORD);
      ret := 0;
    }

    /** The record, filled field by field, the checksum last. */
    method Build(c: Creds) returns (record: seq<byte>)
      requires Sized(c)
      ensures record == Record(c)
    {
      hide Le, Crc32.Crc, StrLen, Zeros;
      var slen := Measure(c.ssid, SSID_MAX);
      var plen := Measure(c.password, PASS_MAX);
      var dlen := Measure(c.deviceId, DEVICE_ID_MAX);
      record := Le(MAGIC) + Le(VERSION) + [slen, plen, dlen, if c.opus then 1 else 0]
        + (c.ssid[..slen] + Zeros(SSID_MAX - slen)) + (c.password[..plen] + Zeros(PASS_MAX - plen))
        + (c.deviceId[..dlen] + Zeros(DEVICE_ID_MAX - dlen));
      assert record == Body(c);
      hide Body;
      var crc := Crc32.BitwiseCrc(record);
      record := record + Le(crc);
    }

    method Measure(s: seq<byte>, max: nat) returns (n: nat)
      requires |s| > max
      ensures n == StrLen(s, max)
    {
      n := 0;
      while n < max && s[n] != 0
        invariant n <= max && forall i :: 0 <= i < n ==> s[i] != 0
      {
        n := n + 1;
      }
      StrLenIs(s, max, n);
    }

    /** creds_load */
    method LoadBack() returns (c: Option<Creds>)
      requires flash.Length == PAGE
      ensures c == Load(flash[..])
    {
      RecordOnly(flash[..]);
      c := Check(flash[..RECORD]);
    }

    method Check(r: seq<byte>) returns (c: Option<Creds>)
      requires |r| == RECORD
      ensures c == Load(r)
    {
      hide UnLe, Crc32.Crc, Zeros;
      if UnLe(r[0..4]) != MAGIC || UnLe(r[4..8]) != VERSION { return None; }
      if r[8] > SSID_MAX || r[9] > PASS_MAX || r[10] > DEVICE_ID_MAX { return None; }
      var want := Crc32.BitwiseCrc(r[..CRC_AT]);
      if want != UnLe(r[CRC_AT..RECORD]) { return None; }
      c := Some(Creds(r[SSID_AT..SSID_AT + r[8]] + Zeros(SSID_MAX + 1 - r[8]),
                      r[PASS_AT..PASS_AT + r[9]] + Zeros(PASS_MAX + 1 - r[9]),
                      r[DEVICE_AT..DEVICE_AT + r[10]] + Zeros(DEVICE_ID_MAX + 1 - r[10]), r[11] != 0));
    }
  }
}
