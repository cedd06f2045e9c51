/**
 leb128, the variable-length integers of section 4.10.5 of the AV1 Bitstream and Decoding Process:
 seven bits a byte, least significant group first, top bit set on every byte but the last.
 */
module Leb128 {
  import opened Bytes

  function Size(v: nat): (n: nat)
    ensures n >= 1
  {
    if v < 128 then 1 else 1 + Size(v / 128)
  }

  function Encode(v: nat): (s: seq<byte>)
    ensures |s| == Size(v)
  {
    if v < 128 then [v] else [v % 128 + 128] + Encode(v / 128)
  }

  datatype Read = Malformed | Read(value: nat, bytes: nat)

  /** A leb128 at the head of `s`, spread over at most `limit` bytes. */
  function DecodeWithin(s: seq<byte>, limit: nat): (r: Read)
    ensures r.Read? ==> 1 <= r.bytes <= |s| && r.bytes <= limit
  {
    if limit == 0 || s == [] then Malformed
    else if s[0] < 128 then Read(s[0], 1)
    else
      match DecodeWithin(s[1..], limit - 1)
      case Malformed => Malformed
      case Read(v, n) => Read(s[0] - 128 + 128 * v, n + 1)
  }

  const MAX_BYTES: nat := 8

  function Decode(s: seq<byte>): (r: Read)
    ensures r.Read? ==> 1 <= r.bytes <= |s|
  {
    DecodeWithin(s, MAX_BYTES)
  }

  function Pow128(i: nat): nat {
    if i == 0 then 1 else 128 * Pow128(i - 1)
  }

  lemma {:induction false} Pow128Positive(i: nat)
    ensures Pow128(i) >= 1
  {
    if i > 0 { Pow128Positive(i - 1); }
  }

  /** A value is read back behind any suffix exactly when it fits the byte limit. */
  lemma {:induction false} RoundTripWithin(v: nat, rest: seq<byte>, limit: nat)
    ensures DecodeWithin(Encode(v) + rest, limit) ==
            if Size(v) <= limit then Read(v, Size(v)) else Malformed
  {
    var s := Encode(v) + rest;
    if limit > 0 && v >= 128 {
      assert s[1..] == Encode(v / 128) + rest;
      RoundTripWithin(v / 128, rest, limit - 1);
    }
  }

  lemma {:induction false} SizeBound(v: nat, n: nat)
    requires n >= 1
    ensures Size(v) <= n <==> v < Pow128(n)
  {
    if n == 1 {
      assert Pow128(1) == 128 * Pow128(0);
    } else if v >= 128 {
      SizeBound(v / 128, n - 1);
    } else {
      Pow128Positive(n - 1);
    }
  }

  /** The eight-byte limit of the reader is exactly the 56-bit range. */
  lemma RoundTrip(v: nat, rest: seq<byte>)
    ensures Decode(Encode(v) + rest) ==
            if v < 0x100_0000_0000_0000 then Read(v, Size(v)) else Malformed
  {
    RoundTripWithin(v, rest, MAX_BYTES);
    SizeBound(v, 8);
    assert Pow128(8) == 0x100_0000_0000_0000 by {
      assert Pow128(4) == 0x1000_0000;
      assert Pow128(8) == 128 * 128 * 128 * 128 * Pow128(4);
    }
  }

  method ComputeSize(value: nat) returns (bytes: nat)
    ensures bytes == Size(value)
  {
    bytes := 1;
    var v := value;
    while v >= 0x80
      invariant bytes - 1 + Size(v) == Size(value)
    {
      v := v / 128;
      bytes := bytes + 1;
    }
  }

  /** Writes `value` at `at` and reports how many bytes that took. */
  method Write(buf: array<byte>, at: nat, value: nat) returns (bytes: nat)
    requires at + Size(value) <= buf.Length
    modifies buf
    ensures bytes == Size(value)
    ensures buf[..] == Overwrite(old(buf[..]), at, Encode(value))
  {
    bytes := 0;
    var v := value;
    ghost var done: seq<byte> := [];
    while v >= 0x80
      invariant bytes == |done|
      invariant done + Encode(v) == Encode(value)
      invariant buf[..] == Overwrite(old(buf[..]), at, done)
    {
      var b: byte := v % 128 + 0x80;
      OverwriteNext(old(buf[..]), at, done, b);
      Assoc(done, [b], Encode(v / 128));
      buf[at + bytes] := b;
      done := done + [b];
      bytes := bytes + 1;
      v := v / 128;
    }
    OverwriteNext(old(buf[..]), at, done, v);
    buf[at + bytes] := v;
    bytes := bytes + 1;
  }

  /** What `DecodeWithin` makes of a whole string once `i` continuation bytes gave `low`. */
  ghost function Continue(low: nat, i: nat, tail: Read): Read {
    match tail
    case Malformed => Malformed
    case Read(v, n) => Read(low + Pow128(i) * v, n + i)
  }

  lemma ContinueStep(low: nat, i: nat, b: byte, tail: Read)
    requires b >= 128
    ensures Pow128(i + 1) == 128 * Pow128(i)
    ensures Continue(low, i, if tail.Read? then Read(b - 128 + 128 * tail.value, tail.bytes + 1) else Malformed)
         == Continue(low + Pow128(i) * (b - 128), i + 1, tail)
  {
    if tail.Read? {
      var p, v, c := Pow128(i), tail.value, b - 128;
      assert p * (c + 128 * v) == p * c + (128 * p) * v;
    }
  }

  lemma ContinueStart(s: seq<byte>)
    ensures Pow128(0) == 1 && Continue(0, 0, DecodeWithin(s[0..], MAX_BYTES)) == Decode(s)
  {
    assert s[0..] == s;
  }

  lemma ContinueEnd(low: nat, i: nat, b: byte, scale: nat)
    requires scale == Pow128(i)
    ensures scale * b >= 0
    ensures Continue(low, i, Read(b, 1)) == Read(low + scale * b, i + 1)
    ensures Continue(low, i, Malformed) == Malformed
  {
    assert Pow128(i) * b == scale * b;
    MulNat(scale, b);
  }

  lemma MulNat(a: nat, b: nat)
    ensures a * b >= 0
  {
  }

  method ReadFrom(s: seq<byte>) returns (r: Read)
    ensures r == Decode(s)
  {
    hide Pow128, Continue;
    var v: nat := 0;
    var scale: nat := 1;
    var i := 0;
    ContinueStart(s);
    while i < MAX_BYTES && i < |s|
      invariant i <= MAX_BYTES && i <= |s|
      invariant scale == Pow128(i)
      invariant Decode(s) == Continue(v, i, DecodeWithin(s[i..], MAX_BYTES - i))
    {
      var b: byte := s[i];
      ghost var tail := DecodeWithin(s[i..][1..], MAX_BYTES - i - 1);
      var septet := b % 128;
      MulNat(scale, septet);
      ContinueEnd(v, i, b, scale);
      if b < 128 {
        return Read(v + scale * septet, i + 1);
      }
      ContinueStep(v, i, b, tail);
      assert s[i..][1..] == s[i + 1..];
      v := v + scale * septet;
      scale := scale * 128;
      i := i + 1;
    }
    ContinueEnd(v, i, 0, scale);
    r := Malformed;
  }
}
