/** 32-bit words as four bytes, either end first. */
module Words {
  import opened Bytes
  import Crc32

  /** A 32-bit word, little-endian. */
  function Le(c: bv32): (r: seq<byte>)
    ensures |r| == 4
  {
    [Octet8(c), Octet8(c >> 8), Octet8(c >> 16), Octet8(c >> 24)]
  }

  function Word(a: bv32, b: bv32, c: bv32, d: bv32): bv32 { a | (b << 8) | (c << 16) | (d << 24) }

  function UnLe(s: seq<byte>): bv32
    requires |s| == 4
  {
    Word(Crc32.Wide(s[0]), Crc32.Wide(s[1]), Crc32.Wide(s[2]), Crc32.Wide(s[3]))
  }

  /** Network order. */
  function Be32(c: bv32): (r: seq<byte>)
    ensures |r| == 4
  {
    [Octet8(c >> 24), Octet8(c >> 16), Octet8(c >> 8), Octet8(c)]
  }

  lemma WideOctet(x: bv32)
    ensures Crc32.Wide(Octet8(x)) == x & 0xFF
  {
    OctetBack((x & 0xFF) as bv8);
    assert ((x & 0xFF) as bv8) as bv32 == x & 0xFF;
    hide Octet;
  }

  lemma WordOf(c: bv32)
    ensures Word(c & 0xFF, (c >> 8) & 0xFF, (c >> 16) & 0xFF, (c >> 24) & 0xFF) == c
  {
  }

  lemma UnLeLe(c: bv32)
    ensures UnLe(Le(c)) == c
  {
    hide Crc32.Wide, Octet8, Word;
    WideOctet(c);
    WideOctet(c >> 8);
    WideOctet(c >> 16);
    WideOctet(c >> 24);
    WordOf(c);
  }

  lemma WordInjective(a: bv32, b: bv32, c: bv32, d: bv32, w: bv32, x: bv32, y: bv32, z: bv32)
    requires Crc32.Low(a) == a && Crc32.Low(b) == b && Crc32.Low(c) == c && Crc32.Low(d) == d
    requires Crc32.Low(w) == w && Crc32.Low(x) == x && Crc32.Low(y) == y && Crc32.Low(z) == z
    requires Word(a, b, c, d) == Word(w, x, y, z)
    ensures a == w && b == x && c == y && d == z
  {
  }

  lemma WideLow(b: byte)
    ensures Crc32.Low(Crc32.Wide(b)) == Crc32.Wide(b)
  {
    hide Octet;
  }

  lemma SameBytes(a: byte, b: byte, c: byte, d: byte, w: byte, x: byte, y: byte, z: byte)
    requires Word(Crc32.Wide(a), Crc32.Wide(b), Crc32.Wide(c), Crc32.Wide(d)) ==
             Word(Crc32.Wide(w), Crc32.Wide(x), Crc32.Wide(y), Crc32.Wide(z))
    ensures a == w && b == x && c == y && d == z
  {
    hide Crc32.Wide, Crc32.Low, Word;
    WideLow(a); WideLow(b); WideLow(c); WideLow(d);
    WideLow(w); WideLow(x); WideLow(y); WideLow(z);
    WordInjective(Crc32.Wide(a), Crc32.Wide(b), Crc32.Wide(c), Crc32.Wide(d),
                  Crc32.Wide(w), Crc32.Wide(x), Crc32.Wide(y), Crc32.Wide(z));
    Crc32.WideInjective(a, w);
    Crc32.WideInjective(b, x);
    Crc32.WideInjective(c, y);
    Crc32.WideInjective(d, z);
  }

  lemma UnLeInjective(s: seq<byte>, t: seq<byte>)
    requires |s| == |t| == 4 && UnLe(s) == UnLe(t)
    ensures s == t
  {
    hide Word, Crc32.Wide;
    SameBytes(s[0], s[1], s[2], s[3], t[0], t[1], t[2], t[3]);
  }

  lemma Be32Injective(c: bv32, d: bv32)
    requires Be32(c) == Be32(d)
    ensures c == d
  {
    hide Octet8, UnLe;
    assert Le(c) == [Be32(c)[3], Be32(c)[2], Be32(c)[1], Be32(c)[0]];
    assert Le(d) == [Be32(d)[3], Be32(d)[2], Be32(d)[1], Be32(d)[0]];
    UnLeLe(c);
    UnLeLe(d);
  }
}
