/** Octets, machine-word widths and the memcpy/memmove the C sources are built from. */
module Bytes {

  type byte = x: int | 0 <= x < 256
  type u16 = x: int | 0 <= x < 0x1_0000
  type u32 = x: int | 0 <= x < 0x1_0000_0000

  /** The eight bits of a byte. */
  function Octet(b: byte): (r: bv8)
    ensures r as int == b
  {
    if b == 0 then 0 else Incremented(Octet(b - 1))
  }

  function Incremented(x: bv8): (r: bv8)
    requires x < 255
    ensures r as int == x as int + 1
  {
    x + 1
  }

  /** The low byte of a word. */
  function Octet8(x: bv32): byte { ((x & 0xFF) as bv8) as int }

  lemma OctetBack(x: bv8)
    ensures Octet(x as int) == x
  {
    SameOctet(Octet(x as int), x);
  }

  lemma SameOctet(x: bv8, y: bv8)
    requires x as int == y as int
    ensures x == y
  {
  }

  function Xor8(a: bv8, b: bv8): bv8 { a ^ b }

  /** Bitwise XOR of two bytes. */
  function XorByte(a: byte, b: byte): byte { Xor8(Octet(a), Octet(b)) as int }

  lemma Xor8Twice(a: bv8, b: bv8)
    ensures Xor8(Xor8(a, b), b) == a
  {
  }

  lemma XorByteTwice(a: byte, b: byte)
    ensures XorByte(XorByte(a, b), b) == a
  {
    hide Xor8, Octet;
    OctetBack(Xor8(Octet(a), Octet(b)));
    Xor8Twice(Octet(a), Octet(b));
  }

  datatype Option<+T> = None | Some(value: T)

  /** The concatenation of a list of byte strings. */
  function Flatten(xs: seq<seq<byte>>): seq<byte> {
    if xs == [] then [] else xs[0] + Flatten(xs[1..])
  }

  lemma {:induction false} FlattenAppend(xs: seq<seq<byte>>, ys: seq<seq<byte>>)
    ensures Flatten(xs + ys) == Flatten(xs) + Flatten(ys)
  {
    if xs == [] {
      assert xs + ys == ys;
    } else {
      FlattenAppend(xs[1..], ys);
      assert (xs + ys)[0] == xs[0] && (xs + ys)[1..] == xs[1..] + ys;
    }
  }

  lemma SliceOfDrop(s: seq<byte>, at: nat, from: nat, to: nat)
    requires at <= |s| && from <= to <= |s| - at
    ensures s[at..][from..to] == s[at + from..at + to]
  {
  }

  lemma SliceOfSlice(s: seq<byte>, a: nat, b: nat, i: nat, j: nat)
    requires a <= b <= |s| && i <= j <= b - a
    ensures s[a..b][i..j] == s[a + i..a + j]
  {
    var t := s[a..b];
    assert forall k :: 0 <= k < j - i ==> t[i..j][k] == s[a + i..a + j][k];
  }

  lemma Assoc(a: seq<byte>, b: seq<byte>, c: seq<byte>)
    ensures (a + b) + c == a + (b + c)
  {
  }

  /** `s` with `t` written over it at `at`. */
  function Overwrite(s: seq<byte>, at: nat, t: seq<byte>): (r: seq<byte>)
    requires at + |t| <= |s|
    ensures |r| == |s|
  {
    s[..at] + t + s[at + |t|..]
  }

  lemma OverwriteTwice(s: seq<byte>, at: nat, a: seq<byte>, b: seq<byte>)
    requires at + |a| + |b| <= |s|
    ensures Overwrite(Overwrite(s, at, a), at + |a|, b) == Overwrite(s, at, a + b)
  {
  }

  lemma OverwriteNext(s: seq<byte>, at: nat, a: seq<byte>, b: byte)
    requires at + |a| < |s|
    ensures Overwrite(s, at, a)[at + |a| := b] == Overwrite(s, at, a + [b])
  {
  }

  lemma OverwriteKeeps(s: seq<byte>, at: nat, t: seq<byte>, from: nat, to: nat)
    requires at + |t| <= |s| && from <= to <= |s|
    ensures to <= at || at + |t| <= from ==> Overwrite(s, at, t)[from..to] == s[from..to]
    ensures Overwrite(s, at, t)[at..at + |t|] == t
  {
  }

  /** memcpy: `src` lands at `at`, nothing else moves. */
  method Memcpy(dst: array<byte>, at: nat, src: seq<byte>)
    requires at + |src| <= dst.Length
    modifies dst
    ensures dst[..] == Overwrite(old(dst[..]), at, src)
  {
    forall i | 0 <= i < |src| {
      dst[at + i] := src[i];
    }
  }

  /** memmove inside one buffer: the ranges may overlap, the source is read as it was on entry. */
  method Memmove(buf: array<byte>, to: nat, from: nat, n: nat)
    requires to + n <= buf.Length && from + n <= buf.Length
    modifies buf
    ensures buf[..] == Overwrite(old(buf[..]), to, old(buf[..])[from..from + n])
  {
    forall i | 0 <= i < n {
      buf[to + i] := buf[from + i];
    }
  }

  /** One byte stored. */
  method Store(buf: array<byte>, at: nat, b: byte)
    requires at < buf.Length
    modifies buf
    ensures buf[..] == old(buf[..])[at := b]
  {
    buf[at] := b;
  }

  function Zeros(n: nat): (z: seq<byte>)
    ensures |z| == n && forall i :: 0 <= i < n ==> z[i] == 0
  {
    seq(n, i => 0)
  }

  /** A number of sixteen bits, high byte first, and back. */
  function Be16(v: u16): (r: seq<byte>)
    ensures |r| == 2
  {
    [v / 256, v % 256]
  }

  function Short(hi: byte, lo: byte): nat { hi * 256 + lo }

  // ---- Positions in a ring of `m` places ----

  lemma {:induction false} Apart(p: nat, q: nat, m: nat)
    requires p > q
    ensures p * m >= q * m + m
    decreases p
  {
    if p > q + 1 { Apart(p - 1, q, m); }
    assert p * m == (p - 1) * m + m;
  }

  lemma SamePlace(p: nat, q: nat, m: nat, s: nat, r: nat)
    requires p * m + s == q * m + r && s < m && r < m
    ensures s == r
  {
    if p > q { Apart(p, q, m); } else if p < q { Apart(q, p, m); }
  }

  lemma NextLap(a: nat, m: nat)
    requires m > 0
    ensures (a + m) % m == a % m
  {
    var q, r := a / m, a % m;
    assert a + m == (q + 1) * m + r;
    SamePlace((a + m) / m, q + 1, m, (a + m) % m, r);
  }

  lemma {:induction false} RingPeriod(a: nat, k: nat, m: nat)
    requires m > 0
    ensures (a + m * k) % m == a % m
  {
    if k > 0 {
      RingPeriod(a, k - 1, m);
      assert a + m * k == a + m * (k - 1) + m;
      NextLap(a + m * (k - 1), m);
    }
  }

  lemma RingAdds(p: nat, i: nat, m: nat)
    requires m > 0
    ensures (p % m + i) % m == (p + i) % m
  {
    assert p + i == p % m + i + m * (p / m);
    RingPeriod(p % m + i, p / m, m);
  }
}
