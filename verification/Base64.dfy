/** Base64 (section 4 of RFC 4648): two encoders, written apart, and the decoder. */
module Base64 {
  import opened Bytes

  const PAD: char := '='
  /** The character of a six-bit value, as the tables of both files list them. */
  function Char(v: nat): char
    requires v < 64
  {
    if v < 26 then 'A' + v as char
    else if v < 52 then 'a' + (v - 26) as char
    else if v < 62 then '0' + (v - 52) as char
    else if v == 62 then '+'
    else '/'
  }

  /** The value of a character of the alphabet; of any other the source takes one from a null pointer. */
  function Value(c: char): (v: nat)
    ensures v < 64
  {
    if 'A' <= c <= 'Z' then c as int - 'A' as int
    else if 'a' <= c <= 'z' then c as int - 'a' as int + 26
    else if '0' <= c <= '9' then c as int - '0' as int + 52
    else if c == '+' then 62
    else 63
  }

  // ---- The library's encoder: three bytes at a time, the group padded with zeros ----

  function Group(b0: byte, b1: byte, b2: byte, n: nat): (r: string)
    ensures |r| == 4
  {
    [Char(b0 / 4), Char(b0 % 4 * 16 + b1 / 16),
     if n > 1 then Char(b1 % 16 * 4 + b2 / 64) else PAD,
     if n > 2 then Char(b2 % 64) else PAD]
  }

  function At(x: seq<byte>, i: nat): byte { if i < |x| then x[i] else 0 }

  function First(x: seq<byte>): (r: string)
    requires x != []
    ensures |r| == 4
  {
    Group(x[0], At(x, 1), At(x, 2), if |x| > 2 then 3 else |x|)
  }

  function Rest(x: seq<byte>): (r: seq<byte>)
    requires x != []
    ensures |r| < |x|
  {
    if |x| > 3 then x[3..] else []
  }

  /** base64_encode, with room for as many characters as it needs. */
  function Encode(x: seq<byte>): (r: string)
    ensures |r| % 4 == 0
    decreases |x|
  {
    if x == [] then [] else First(x) + Encode(Rest(x))
  }

  lemma {:induction false} EncodeLength(x: seq<byte>)
    ensures |Encode(x)| == (|x| + 2) / 3 * 4
    decreases |x|
  {
    if x != [] {
      EncodeLength(Rest(x));
      OneMoreGroup(|x|);
    }
    hide First;
  }

  lemma OneMoreGroup(n: nat)
    requires n > 0
    ensures (n + 2) / 3 * 4 == 4 + if n > 3 then (n - 3 + 2) / 3 * 4 else 0
  {
  }

  // ---- The push-to-talk encoder: a 24-bit word at a time ----

  function Sextet(v: nat, down: nat): (r: nat)
    requires down > 0
    ensures r < 64
  {
    v / down % 64
  }

  /** Three bytes as one number. */
  function Word(a: byte, b: byte, c: byte): nat {
    var (x: int, y: int) := (a, b);
    x * 65536 + y * 256 + c
  }

  function LpEncode(x: seq<byte>): string
    decreases |x|
  {
    if |x| >= 3 then
      var v := Word(x[0], x[1], x[2]);
      [Char(Sextet(v, 262144)), Char(Sextet(v, 4096)), Char(Sextet(v, 64)), Char(Sextet(v, 1))] + LpEncode(x[3..])
    else if |x| == 1 then
      var v := Word(x[0], 0, 0);
      [Char(Sextet(v, 262144)), Char(Sextet(v, 4096)), PAD, PAD]
    else if |x| == 2 then
      var v := Word(x[0], x[1], 0);
      [Char(Sextet(v, 262144)), Char(Sextet(v, 4096)), Char(Sextet(v, 64)), PAD]
    else []
  }

  lemma Sextets(a: byte, b: byte, c: byte)
    ensures var v := Word(a, b, c);
            && Sextet(v, 262144) == a / 4 && Sextet(v, 4096) == a % 4 * 16 + b / 16
            && Sextet(v, 64) == b % 16 * 4 + c / 64 && Sextet(v, 1) == c % 64
  {
    var q, r, s, t, u, w := a / 4, a % 4, b / 16, b % 16, c / 64, c % 64;
    Shifted(q, r * 16 + s, t * 4 + u, w);
    assert Word(a, b, c) == q * 262144 + (r * 16 + s) * 4096 + (t * 4 + u) * 64 + w;
  }

  lemma Shifted(w: nat, x: nat, y: nat, z: nat)
    requires w < 64 && x < 64 && y < 64 && z < 64
    ensures var v := w * 262144 + x * 4096 + y * 64 + z;
            Sextet(v, 262144) == w && Sextet(v, 4096) == x && Sextet(v, 64) == y && Sextet(v, 1) == z
  {
    var v := w * 262144 + x * 4096 + y * 64 + z;
    assert v / 262144 == w;
    assert v / 4096 == w * 64 + x;
    assert v / 64 == (w * 64 + x) * 64 + y;
  }

  /** The two encoders agree on every byte string. */
  lemma {:induction false} EncodersAgree(x: seq<byte>)
    ensures LpEncode(x) == Encode(x)
    decreases |x|
  {
    hide Sextet, Char;
    if x != [] {
      Sextets(x[0], At(x, 1), At(x, 2));
      if |x| >= 3 { EncodersAgree(x[3..]); }
      if |x| == 3 { assert x[3..] == Rest(x); }
    }
  }

  // ---- Decoding ----

  /** One group of four characters: how many were not padding, and the bytes they make. */
  function Ungroup(s: string): (r: seq<byte>)
    requires |s| == 4
    ensures |r| == (if Count(s) > 3 then 3 else if Count(s) > 2 then 2 else 1)
  {
    var v0, v1, v2, v3 := Read(s[0]), Read(s[1]), Read(s[2]), Read(s[3]);
    [(v0 * 4 + v1 / 16) % 256]
    + (if Count(s) > 2 then [v1 % 16 * 16 + v2 / 4] else [])
    + (if Count(s) > 3 then [v2 % 4 * 64 + v3] else [])
  }

  function Read(c: char): (v: nat)
    ensures v < 64
  {
    if c == PAD then 0 else Value(c)
  }

  function Bit(b: bool): nat { if b then 1 else 0 }

  function Count(s: string): nat
    requires |s| == 4
  {
    Bit(s[0] != PAD) + Bit(s[1] != PAD) + Bit(s[2] != PAD) + Bit(s[3] != PAD)
  }

  /**
   base64_decode from the `at`-th output byte on, into room for `room` bytes; none for the error
   return. Before each group it asks for room for as many bytes as the group has characters.
   */
  function Decode(s: string, at: nat, room: nat): Option<seq<byte>>
    requires |s| % 4 == 0
    decreases |s|
  {
    if s == [] then Some([])
    else if at + Count(s[..4]) > room then None
    else
      var g := Ungroup(s[..4]);
      match Decode(s[4..], at + |g|, room)
      case None => None
      case Some(r) => Some(g + r)
  }

  lemma ValueOfChar(v: nat)
    requires v < 64
    ensures Value(Char(v)) == v && Char(v) != PAD
  {
  }

  lemma Joined(a: byte, b: byte, c: byte)
    ensures (a / 4 * 4 + (a % 4 * 16 + b / 16) / 16) % 256 == a
    ensures (a % 4 * 16 + b / 16) % 16 * 16 + (b % 16 * 4 + c / 64) / 4 == b
    ensures (b % 16 * 4 + c / 64) % 4 * 64 + c % 64 == c
  {
  }

  lemma GroupBack(b0: byte, b1: byte, b2: byte, n: nat)
    requires 1 <= n <= 3 && (n < 3 ==> b2 == 0) && (n < 2 ==> b1 == 0)
    ensures var s := Group(b0, b1, b2, n); Count(s) == n + 1 && Ungroup(s) == [b0, b1, b2][..n]
  {
    Joined(b0, b1, b2);
    ValueOfChar(b0 / 4);
    ValueOfChar(b0 % 4 * 16 + b1 / 16);
    ValueOfChar(b1 % 16 * 4 + b2 / 64);
    ValueOfChar(b2 % 64);
    hide Char, Value;
  }

  lemma FirstBack(x: seq<byte>)
    requires x != []
    ensures Count(First(x)) == (if |x| > 2 then 4 else |x| + 1)
    ensures Ungroup(First(x)) == x[..if |x| > 2 then 3 else |x|]
  {
    var n := if |x| > 2 then 3 else |x|;
    GroupBack(x[0], At(x, 1), At(x, 2), n);
    assert [x[0], At(x, 1), At(x, 2)][..n] == x[..n];
    hide Group, Count, Ungroup;
  }

  /**
   The decoder gives every byte string back from its encoding exactly when it has one spare byte of
   room, nothing at all being the exception; otherwise it reports an error.
   */
  lemma {:induction false} DecodeInverts(x: seq<byte>, at: nat, room: nat)
    ensures Decode(Encode(x), at, room) == if x == [] || at + |x| + 1 <= room then Some(x) else None
    decreases |x|
  {
    hide First, Ungroup, Count;
    if x != [] {
      FirstBack(x);
      var s, n := Encode(x), if |x| > 2 then 3 else |x|;
      assert s[..4] == First(x) && s[4..] == Encode(Rest(x));
      DecodeInverts(Rest(x), at + n, room);
      assert x == x[..n] + Rest(x);
    }
  }

  // ---- The loops ----

  /** The three-byte buffer of one turn, and how many of its bytes are input. */
  method Fill(x: seq<byte>, i: nat) returns (buf: seq<byte>, n: nat)
    requires i < |x|
    ensures |buf| == 3 && buf[0] == x[i] && buf[1] == At(x[i..], 1) && buf[2] == At(x[i..], 2)
    ensures n == if |x| - i > 2 then 3 else |x| - i
  {
    buf, n := [0, 0, 0], 0;
    for j := 0 to 3
      invariant |buf| == 3 && n == if i + j <= |x| then j else |x| - i
      invariant forall k :: 0 <= k < j ==> buf[k] == At(x[i..], k)
    {
      if i + j < |x| {
        buf := buf[j := x[i + j]];
        n := n + 1;
      } else {
        buf := buf[j := 0];
      }
    }
  }

  /** base64_encode: whole groups while they fit `room`. */
  method EncodeText(x: seq<byte>, room: nat) returns (out: string)
    ensures out == if |Encode(x)| <= room then Encode(x) else Encode(x)[..room / 4 * 4]
  {
    hide Group, Encode, Rest, From, At;
    out := [];
    EncodeNone();
    FromNext(x, 0);
    var i := 0;
    while i < |x|
      invariant |out| % 4 == 0 && |out| <= room
      invariant Encode(x) == out + Encode(From(x, i))
    {
      FromNext(x, i);
      EncodeTurn(From(x, i));
      var buf, n := Fill(x, i);
      if |out| + 4 > room {
        Stops(Encode(x), out, room);
        return;
      }
      out := out + Group(buf[0], buf[1], buf[2], n);
      i := i + 3;
    }
    FromNext(x, i);
  }

  function From(x: seq<byte>, i: nat): seq<byte> { if i <= |x| then x[i..] else [] }

  lemma FromNext(x: seq<byte>, i: nat)
    ensures i == 0 ==> From(x, i) == x
    ensures i < |x| ==> From(x, i) == x[i..] != [] && x[i..][0] == x[i] && Rest(x[i..]) == From(x, i + 3)
    ensures i >= |x| ==> From(x, i) == []
  {
  }

  lemma EncodeNone()
    ensures Encode([]) == []
  {
  }

  lemma EncodeTurn(t: seq<byte>)
    requires t != []
    ensures Encode(t) == Group(t[0], At(t, 1), At(t, 2), if |t| > 2 then 3 else |t|) + Encode(Rest(t))
  {
    hide Group;
  }

  lemma Stops(all: string, out: string, room: nat)
    requires out <= all && |out| % 4 == 0 && |out| <= room < |out| + 4 && |all| >= |out| + 4
    ensures |all| > room && out == all[..room / 4 * 4]
  {
  }

  /** b64_encode */
  method EncodeWords(x: seq<byte>) returns (out: string)
    ensures out == LpEncode(x)
  {
    hide Char, Sextet, Word;
    out := [];
    var i := 0;
    assert x[0..] == x;
    while i + 3 <= |x|
      invariant i <= |x| && LpEncode(x) == out + LpEncode(x[i..])
    {
      var v := Word(x[i], x[i + 1], x[i + 2]);
      assert x[i..][3..] == x[i + 3..];
      out := out + [Char(Sextet(v, 262144)), Char(Sextet(v, 4096)), Char(Sextet(v, 64)), Char(Sextet(v, 1))];
      i := i + 3;
    }
    var rem := |x| - i;
    if rem == 1 {
      var v := Word(x[i], 0, 0);
      out := out + [Char(Sextet(v, 262144)), Char(Sextet(v, 4096)), PAD, PAD];
    } else if rem == 2 {
      var v := Word(x[i], x[i + 1], 0);
      out := out + [Char(Sextet(v, 262144)), Char(Sextet(v, 4096)), Char(Sextet(v, 64)), PAD];
    }
  }

  /** Bytes decoded already, before what the rest decodes to. */
  ghost function Onto(done: seq<byte>, rest: Option<seq<byte>>): Option<seq<byte>> {
    match rest case None => None case Some(r) => Some(done + r)
  }

  lemma OntoNone(d: Option<seq<byte>>)
    ensures Onto([], d) == d
  {
    if d.Some? { assert [] + d.value == d.value; }
  }

  lemma DecodeOne(s: string, i: nat, done: seq<byte>, room: nat)
    requires |s| % 4 == 0 && i % 4 == 0 && i + 4 <= |s|
    ensures var g, d := s[i..i + 4], Onto(done, Decode(s[i..], |done|, room));
            if |done| + Count(g) > room then d.None?
            else d == Onto(done + Ungroup(g), Decode(s[i + 4..], |done + Ungroup(g)|, room))
  {
    hide Ungroup, Count;
    assert s[i..][..4] == s[i..i + 4] && s[i..][4..] == s[i + 4..];
    var g := Ungroup(s[i..i + 4]);
    var rest := Decode(s[i + 4..], |done + g|, room);
    if rest.Some? { assert done + (g + rest.value) == done + g + rest.value; }
  }

  lemma WholeGroup(i: nat, n: nat)
    requires i % 4 == 0 && n % 4 == 0 && i < n
    ensures i + 4 <= n && (i + 4) % 4 == 0 && (n - (i + 4)) % 4 == 0
  {
  }

  lemma DecodeEnd(s: string, done: seq<byte>, room: nat)
    requires |s| % 4 == 0
    ensures Onto(done, Decode(s[|s|..], |done|, room)) == Some(done)
  {
    assert s[|s|..] == [] && done + [] == done;
  }

  /** base64_decode of a text of whole groups; none for the error return. */
  method DecodeText(s: string, room: nat) returns (out: Option<seq<byte>>)
    requires |s| % 4 == 0
    ensures out == Decode(s, 0, room)
  {
    var i, done := 0, [];
    assert s[0..] == s;
    OntoNone(Decode(s, 0, room));
    hide Decode, Onto, Ungroup, Count;
    while i < |s|
      invariant i <= |s| && i % 4 == 0 && |s[i..]| % 4 == 0
      invariant Decode(s, 0, room) == Onto(done, Decode(s[i..], |done|, room))
    {
      WholeGroup(i, |s|);
      DecodeOne(s, i, done, room);
      if |done| + Count(s[i..i + 4]) > room { return None; }
      done := done + Ungroup(s[i..i + 4]);
      i := i + 4;
    }
    DecodeEnd(s, done, room);
    out := Some(done);
  }

  /** The alphabet, as the standard writes it out, sixteen letters a row. */
  function Row(k: nat): string
    requires k < 4
  {
    if k == 0 then "ABCDEFGHIJKLMNOP"
    else if k == 1 then "QRSTUVWXYZabcdef"
    else if k == 2 then "ghijklmnopqrstuv"
    else "wxyz0123456789+/"
  }

  /** The encoders' and the decoder's table is this alphabet. */
  lemma CharIsLetter(v: nat)
    requires v < 64
    ensures |Row(v / 16)| == 16 && Char(v) == Row(v / 16)[v % 16] && Value(Row(v / 16)[v % 16]) == v
  {
    var j := v % 16;
    assert v == 16 * (v / 16) + j;
    assert j == 0 || j == 1 || j == 2 || j == 3 || j == 4 || j == 5 || j == 6 || j == 7
           || j == 8 || j == 9 || j == 10 || j == 11 || j == 12 || j == 13 || j == 14 || j == 15;
    if v < 16 { assert v / 16 == 0; } else if v < 32 { assert v / 16 == 1; } else if v < 48 { assert v / 16 == 2; } else { assert v / 16 == 3; }
  }
}
