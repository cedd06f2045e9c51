/** Chunk sizes as a server writes them, in hexadecimal. */
module HttpSpelling {
  import opened Bytes
  import H = HttpChunked

  const LOWER: string := "0123456789abcdef"
  const UPPER: string := "0123456789ABCDEF"

  function Character(v: nat, upper: bool): byte
    requires v < 16
  {
    if upper then UPPER[v] as int else LOWER[v] as int
  }

  /** `n` in base 16, each digit in the case chosen for it. */
  function Hex(n: nat, upper: nat -> bool): seq<byte> {
    if n < 16 then [Character(n, upper(n))] else Hex(n / 16, upper) + [Character(n % 16, upper(n))]
  }

  lemma CharacterReads(v: nat, upper: bool)
    requires v < 16
    ensures H.Digit(Character(v, upper)) == Some(v)
  {
  }

  lemma {:induction false} HexReads(n: nat, upper: nat -> bool)
    ensures H.AllDigits(Hex(n, upper)) && H.Value(Hex(n, upper)) == n
  {
    hide Character, H.Digit;
    CharacterReads(n % 16, upper(n));
    if n < 16 {
      OneDigit(Character(n, upper(n)), n);
    } else {
      HexReads(n / 16, upper);
      OneMoreDigit(Hex(n / 16, upper), Character(n % 16, upper(n)), n % 16);
    }
  }

  lemma OneDigit(c: byte, v: nat)
    requires H.Digit(c) == Some(v)
    ensures H.AllDigits([c]) && H.Value([c]) == v
  {
    assert [c][..0] == [];
    assert H.Value([c][..0]) == 0;
    hide H.Digit;
  }

  lemma OneMoreDigit(s: seq<byte>, c: byte, v: nat)
    requires H.AllDigits(s) && H.Digit(c) == Some(v)
    ensures H.AllDigits(s + [c]) && H.Value(s + [c]) == H.Value(s) * 16 + v
  {
    hide H.Digit;
    assert (s + [c])[..|s|] == s;
  }

  /** Any number of leading zeros. */
  lemma {:induction false} LeadingZeros(z: nat, s: seq<byte>)
    requires H.AllDigits(s)
    ensures H.AllDigits(seq(z, _ => 48) + s) && H.Value(seq(z, _ => 48) + s) == H.Value(s)
    decreases |s|, z
  {
    var zs: seq<byte> := seq(z, _ => 48);
    if s == [] {
      assert zs + s == zs;
      if z > 0 {
        LeadingZeros(z - 1, s);
        var less: seq<byte> := seq(z - 1, _ => 48);
        assert less + s == less && zs == less + [48];
        OneMoreDigit(less, 48, 0);
      }
    } else {
      var p, c := s[..|s| - 1], s[|s| - 1];
      LeadingZeros(z, p);
      assert p + [c] == s && zs + s == zs + p + [c];
      OneMoreDigit(zs + p, c, H.Digit(c).value);
      OneMoreDigit(p, c, H.Digit(c).value);
    }
  }

  /** A size line: zeros, the number, an extension after a semicolon perhaps, carriage return and line feed. */
  function Line(zeros: nat, n: nat, upper: nat -> bool, extension: seq<byte>): seq<byte> {
    seq(zeros, _ => 48) + Hex(n, upper) + extension + [13, 10]
  }

  predicate IsExtension(x: seq<byte>) { x == [] || (x[0] == 59 && 13 !in x) }

  /** It announces the number written, modulo 2^32, and a multiple of that ends the body. */
  lemma LineAnnounces(zeros: nat, n: nat, upper: nat -> bool, extension: seq<byte>)
    requires IsExtension(extension)
    ensures var line, m := Line(zeros, n, upper, extension), n % 0x1_0000_0000;
            H.Feed(H.Fresh, line) == H.Fed(H.Decoder(if m == 0 then H.Done else H.Data, 0, false, m), [], |line|)
  {
    HexReads(n, upper);
    LeadingZeros(zeros, Hex(n, upper));
    hide Hex, H.Feed, H.Value, H.AllDigits;
    H.FeedSizeLine(H.Chunk(seq(zeros, _ => 48) + Hex(n, upper), extension, []));
  }

  // ---- A whole body ----

  /** A chunk as written: zeros before its size, an extension behind it, and the data. */
  datatype Spell = Spell(zeros: nat, extension: seq<byte>, data: seq<byte>)

  predicate Spells(cs: seq<Spell>) {
    forall i :: 0 <= i < |cs| ==> IsExtension(cs[i].extension) && 0 < |cs[i].data| < 0x1_0000_0000
  }

  function Chunks(cs: seq<Spell>, upper: nat -> bool): seq<byte> {
    if cs == [] then []
    else
      var c := cs[|cs| - 1];
      Chunks(cs[..|cs| - 1], upper) + Line(c.zeros, |c.data|, upper, c.extension) + c.data + [13, 10]
  }

  function Data(cs: seq<Spell>): seq<byte> { if cs == [] then [] else Data(cs[..|cs| - 1]) + cs[|cs| - 1].data }

  function ChunkOf(c: Spell, upper: nat -> bool): H.Chunk {
    H.Chunk(seq(c.zeros, _ => 48) + Hex(|c.data|, upper), c.extension, c.data)
  }

  function ChunksOf(cs: seq<Spell>, upper: nat -> bool): (r: seq<H.Chunk>)
    ensures |r| == |cs| && forall i :: 0 <= i < |r| ==> r[i] == ChunkOf(cs[i], upper)
  {
    if cs == [] then [] else ChunksOf(cs[..|cs| - 1], upper) + [ChunkOf(cs[|cs| - 1], upper)]
  }

  lemma {:induction false} ChunksEncode(cs: seq<Spell>, upper: nat -> bool)
    ensures H.Encode(ChunksOf(cs, upper)) == Chunks(cs, upper) && H.Datas(ChunksOf(cs, upper)) == Data(cs)
    decreases |cs|
  {
    hide Hex;
    if cs != [] {
      var p, c := cs[..|cs| - 1], cs[|cs| - 1];
      ChunksEncode(p, upper);
      assert ChunksOf(cs, upper)[..|cs| - 1] == ChunksOf(p, upper);
      assert H.SizeLine(ChunkOf(c, upper)) == Line(c.zeros, |c.data|, upper, c.extension);
      hide Line, H.SizeLine;
    }
  }

  lemma ChunkWellFormed(c: Spell, upper: nat -> bool)
    requires IsExtension(c.extension)
    ensures H.WellFormed(ChunkOf(c, upper))
  {
    HexReads(|c.data|, upper);
    LeadingZeros(c.zeros, Hex(|c.data|, upper));
    hide Hex, H.Value, H.AllDigits;
  }

  /** Decoding a body so written gives its data back, up to the empty chunk and no further. */
  lemma DecodesWritten(cs: seq<Spell>, upper: nat -> bool, zeros: nat, extension: seq<byte>, rest: seq<byte>)
    requires Spells(cs) && IsExtension(extension)
    ensures var body := Chunks(cs, upper) + Line(zeros, 0, upper, extension);
            var f := H.Feed(H.Fresh, body + rest);
            f.dec.mode.Done? && f.out == Data(cs) && f.used == |body|
  {
    hide H.Feed, H.WellFormed, H.Encode, H.Datas, Hex, ChunkOf, Chunks;
    ChunksEncode(cs, upper);
    var last := Spell(zeros, extension, []);
    assert H.SizeLine(ChunkOf(last, upper)) == Line(zeros, 0, upper, extension) && ChunkOf(last, upper).data == [] by {
      LastLine(last, upper);
    }
    hide Line, H.SizeLine;
    ChunkWellFormed(last, upper);
    forall i | 0 <= i < |cs| ensures H.WellFormed(ChunksOf(cs, upper)[i]) && |ChunksOf(cs, upper)[i].data| == |cs[i].data| {
      ChunkWellFormed(cs[i], upper);
      SameData(cs[i], upper);
    }
    H.InvertsEncoding(ChunksOf(cs, upper), ChunkOf(last, upper), rest);
  }

  lemma LastLine(c: Spell, upper: nat -> bool)
    ensures H.SizeLine(ChunkOf(c, upper)) == Line(c.zeros, |c.data|, upper, c.extension) && ChunkOf(c, upper).data == c.data
  {
    hide Hex;
  }

  lemma SameData(c: Spell, upper: nat -> bool)
    ensures ChunkOf(c, upper).data == c.data
  {
    hide Hex;
  }

  // ---- Bytes that do not belong ----

  predicate HexCharacter(c: byte) { 48 <= c <= 57 || 65 <= c <= 70 || 97 <= c <= 102 }

  /** What the decoder skips where it stands: before and in a size line, awaiting a line feed, awaiting the end of a chunk. */
  predicate Stray(m: H.Mode, c: byte) {
    match m
    case NeedSize => !HexCharacter(c) && c != 13 && c != 59
    case SizeSawCr => c != 10
    case DataSawCr => c != 13
    case Done => true
    case Data => false
  }

  lemma {:induction false} StraySkipped(d: H.Decoder, s: seq<byte>)
    requires H.Sound(d) && forall i :: 0 <= i < |s| ==> Stray(d.mode, s[i])
    ensures H.Feed(d, s).dec == d && H.Feed(d, s).out == []
    decreases |s|
  {
    if s != [] { StraySkipped(d, s[..|s| - 1]); }
  }
}
