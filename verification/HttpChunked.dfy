/**
 The resumable chunked transfer decoder: what it makes of a byte stream (section 7.1 of RFC 9112),
 and the loop that runs it inside the buffer it reads.
 */
module HttpChunked {
  import opened Bytes

  const CR: byte := 13
  const LF: byte := 10
  const SEMICOLON: byte := 59

  datatype Mode = NeedSize | SizeSawCr | Data | DataSawCr | Done

  /** Where the decoder stands between two calls. */
  datatype Decoder = Decoder(mode: Mode, acc: u32, ext: bool, left: u32)

  predicate Sound(d: Decoder) { d.mode.Data? ==> d.left > 0 }

  const Fresh: Decoder := Decoder(NeedSize, 0, false, 0)

  function Digit(c: byte): Option<nat> {
    if 48 <= c <= 57 then Some(c - 48)
    else if 97 <= c <= 102 then Some(c - 97 + 10)
    else if 65 <= c <= 70 then Some(c - 65 + 10)
    else None
  }

  function AddDigit(acc: u32, v: nat): u32 { (acc * 16 + v) % 0x1_0000_0000 }

  /** The decoder after one more raw byte. */
  function Step(d: Decoder, c: byte): (r: Decoder)
    requires Sound(d)
    ensures Sound(r)
  {
    match d.mode
    case NeedSize =>
      if c == CR then d.(mode := SizeSawCr)
      else if c == SEMICOLON then d.(ext := true)
      else if !d.ext && Digit(c).Some? then d.(acc := AddDigit(d.acc, Digit(c).value))
      else d
    case SizeSawCr =>
      if c == LF then Decoder(if d.acc == 0 then Done else Data, 0, false, d.acc) else d
    case Data => d.(left := d.left - 1, mode := if d.left == 1 then DataSawCr else Data)
    case DataSawCr => if c == CR then d.(mode := NeedSize) else d
    case Done => d
  }

  /** What a decoder makes of `raw`: its state, the bytes decoded, and how many raw bytes it read. */
  datatype Fed = Fed(dec: Decoder, out: seq<byte>, used: nat)

  function Feed(d: Decoder, raw: seq<byte>): (f: Fed)
    requires Sound(d)
    ensures Sound(f.dec) && |f.out| <= f.used <= |raw|
    decreases |raw|
  {
    if raw == [] then Fed(d, [], 0)
    else
      var f, c := Feed(d, raw[..|raw| - 1]), raw[|raw| - 1];
      if f.dec.mode.Done? then f
      else Fed(Step(f.dec, c), if f.dec.mode.Data? then f.out + [c] else f.out, f.used + 1)
  }

  /** Feeding in two calls is feeding once: nothing depends on where the bytes were split. */
  lemma {:induction false} FeedAppend(d: Decoder, a: seq<byte>, b: seq<byte>)
    requires Sound(d)
    ensures var f := Feed(d, a);
            var g := Feed(f.dec, b);
            Feed(d, a + b) == Fed(g.dec, f.out + g.out, f.used + g.used)
    decreases |b|
  {
    hide Step;
    if b == [] {
      assert a + b == a;
    } else {
      var ab := a + b;
      assert ab[..|ab| - 1] == a + b[..|b| - 1];
      FeedAppend(d, a, b[..|b| - 1]);
    }
  }

  lemma FeedOne(d: Decoder, c: byte)
    requires Sound(d) && !d.mode.Done?
    ensures Feed(d, [c]) == Fed(Step(d, c), if d.mode.Data? then [c] else [], 1)
  {
    assert Feed(d, [c][..0]) == Fed(d, [], 0);
  }

  lemma {:induction false} FeedDone(d: Decoder, raw: seq<byte>)
    requires Sound(d) && d.mode.Done?
    ensures Feed(d, raw) == Fed(d, [], 0)
    decreases |raw|
  {
    if raw != [] { FeedDone(d, raw[..|raw| - 1]); }
  }

  /** A decoder that has not finished has read everything it was given. */
  lemma {:induction false} FeedUsesAll(d: Decoder, raw: seq<byte>)
    requires Sound(d) && !Feed(d, raw).dec.mode.Done?
    ensures Feed(d, raw).used == |raw|
    decreases |raw|
  {
    if raw != [] { FeedUsesAll(d, raw[..|raw| - 1]); }
  }

  /** What was left unread made no difference. */
  lemma {:induction false} FeedUsed(d: Decoder, raw: seq<byte>)
    requires Sound(d)
    ensures Feed(d, raw[..Feed(d, raw).used]) == Feed(d, raw)
    decreases |raw|
  {
    if raw == [] {
      assert raw[..0] == raw;
    } else if !Feed(d, raw).dec.mode.Done? {
      FeedUsesAll(d, raw);
      assert raw[..|raw|] == raw;
    } else {
      var p, f := raw[..|raw| - 1], Feed(d, raw);
      if Feed(d, p).dec.mode.Done? {
        FeedUsed(d, p);
        assert p[..f.used] == raw[..f.used];
      } else {
        FeedUsesAll(d, p);
        assert raw[..|raw|] == raw;
      }
    }
  }

  lemma {:induction false} FeedData(d: Decoder, raw: seq<byte>)
    requires Sound(d) && d.mode.Data? && |raw| <= d.left
    ensures Feed(d, raw) ==
            Fed(d.(left := d.left - |raw|, mode := if |raw| == d.left then DataSawCr else Data), raw, |raw|)
    decreases |raw|
  {
    if raw != [] { FeedData(d, raw[..|raw| - 1]); }
  }

  /** The line feed the data state looks ahead for would have been skipped by the next state as well. */
  lemma SkipsLineFeed(d: Decoder)
    requires d.mode.NeedSize? || d.mode.DataSawCr?
    ensures Step(d, LF) == d
  {
  }

  // ---- The inverse of chunked encoding ----

  function Value(digits: seq<byte>): nat {
    if digits == [] then 0
    else
      var v := Digit(digits[|digits| - 1]);
      Value(digits[..|digits| - 1]) * 16 + (if v.Some? then v.value else 0)
  }

  predicate AllDigits(s: seq<byte>) { forall i :: 0 <= i < |s| ==> Digit(s[i]).Some? }

  predicate Extension(s: seq<byte>) { s == [] || (s[0] == SEMICOLON && CR !in s) }

  /** A chunk as the server wrote it: size digits in either case, optional extension, data. */
  datatype Chunk = Chunk(size: seq<byte>, ext: seq<byte>, data: seq<byte>)

  predicate WellFormed(c: Chunk) { AllDigits(c.size) && Extension(c.ext) && Value(c.size) == |c.data| }

  function SizeLine(c: Chunk): seq<byte> { c.size + c.ext + [CR, LF] }

  function Encode(cs: seq<Chunk>): seq<byte> {
    if cs == [] then []
    else Encode(cs[..|cs| - 1]) + SizeLine(cs[|cs| - 1]) + cs[|cs| - 1].data + [CR, LF]
  }

  function Datas(cs: seq<Chunk>): seq<byte> {
    if cs == [] then [] else Datas(cs[..|cs| - 1]) + cs[|cs| - 1].data
  }

  lemma {:induction false} FeedDigits(s: seq<byte>)
    requires AllDigits(s)
    ensures Feed(Fresh, s) == Fed(Fresh.(acc := Value(s) % 0x1_0000_0000), [], |s|)
    decreases |s|
  {
    if s != [] {
      var p := s[..|s| - 1];
      FeedDigits(p);
      ShiftIn(Value(p), Digit(s[|s| - 1]).value);
      hide Value;
    }
  }

  lemma ShiftIn(n: nat, v: nat)
    ensures AddDigit(n % 0x1_0000_0000, v) == (n * 16 + v) % 0x1_0000_0000
  {
    var q := n / 0x1_0000_0000;
    assert n * 16 + v == (n % 0x1_0000_0000) * 16 + v + 0x1_0000_0000 * (16 * q);
    RingPeriod((n % 0x1_0000_0000) * 16 + v, 16 * q, 0x1_0000_0000);
  }

  lemma {:induction false} FeedExtension(d: Decoder, s: seq<byte>)
    requires d.mode.NeedSize? && Extension(s)
    ensures Feed(d, s) == Fed(d.(ext := d.ext || s != []), [], |s|)
    decreases |s|
  {
    if s != [] {
      var p, c := s[..|s| - 1], s[|s| - 1];
      assert c in s && c != CR;
      FeedExtension(d, p);
    }
  }

  function Sized(n: u32): Decoder { Decoder(if n == 0 then Done else Data, 0, false, n) }

  /** A size line announces its number modulo 2^32, whatever extension follows it. */
  lemma FeedSizeLine(c: Chunk)
    requires AllDigits(c.size) && Extension(c.ext)
    ensures Feed(Fresh, SizeLine(c)) == Fed(Sized(Value(c.size) % 0x1_0000_0000), [], |SizeLine(c)|)
  {
    var n := Value(c.size) % 0x1_0000_0000;
    FeedDigits(c.size);
    var d := Fresh.(acc := n);
    FeedExtension(d, c.ext);
    FeedAppend(Fresh, c.size, c.ext);
    var e := d.(ext := c.ext != []);
    FeedOne(e, CR);
    FeedOne(Step(e, CR), LF);
    FeedAppend(e, [CR], [LF]);
    FeedAppend(Fresh, c.size + c.ext, [CR] + [LF]);
    assert [CR] + [LF] == [CR, LF];
    hide Feed, Value, AllDigits;
  }

  /**
   The size is read as announced exactly when it is below 2^32; a larger one is cut to 32 bits, and
   the decoder then takes chunk data for a size line.
   */
  lemma SizeExactly(c: Chunk)
    requires AllDigits(c.size) && Extension(c.ext)
    ensures Feed(Fresh, SizeLine(c)).dec.left == Value(c.size) <==> Value(c.size) < 0x1_0000_0000
  {
    FeedSizeLine(c);
    hide Feed, Value;
  }

  lemma FeedChunk(c: Chunk)
    requires WellFormed(c) && 0 < |c.data| < 0x1_0000_0000
    ensures Feed(Fresh, SizeLine(c) + c.data + [CR, LF]) ==
            Fed(Fresh, c.data, |SizeLine(c) + c.data + [CR, LF]|)
  {
    hide Feed, Value, AllDigits, SizeLine;
    FeedSizeLine(c);
    var d := Sized(|c.data|);
    FeedData(d, c.data);
    FeedAppend(Fresh, SizeLine(c), c.data);
    var e := Decoder(DataSawCr, 0, false, 0);
    FeedOne(e, CR);
    FeedOne(Fresh, LF);
    FeedAppend(e, [CR], [LF]);
    assert [CR] + [LF] == [CR, LF];
    FeedAppend(Fresh, SizeLine(c) + c.data, [CR, LF]);
  }

  lemma {:induction false} FeedEncode(cs: seq<Chunk>)
    requires forall i :: 0 <= i < |cs| ==> WellFormed(cs[i]) && 0 < |cs[i].data| < 0x1_0000_0000
    ensures Feed(Fresh, Encode(cs)) == Fed(Fresh, Datas(cs), |Encode(cs)|)
    decreases |cs|
  {
    if cs != [] {
      var p, c := cs[..|cs| - 1], cs[|cs| - 1];
      FeedEncode(p);
      FeedChunk(c);
      FeedAppend(Fresh, Encode(p), SizeLine(c) + c.data + [CR, LF]);
      assert Encode(cs) == Encode(p) + (SizeLine(c) + c.data + [CR, LF]);
      hide Feed, SizeLine, WellFormed;
    }
  }

  /** Chunks in, their data out, finished at the zero-size chunk and indifferent to what follows it. */
  lemma InvertsEncoding(cs: seq<Chunk>, last: Chunk, rest: seq<byte>)
    requires forall i :: 0 <= i < |cs| ==> WellFormed(cs[i]) && 0 < |cs[i].data| < 0x1_0000_0000
    requires WellFormed(last) && last.data == []
    ensures var f := Feed(Fresh, Encode(cs) + SizeLine(last) + rest);
            f.dec.mode.Done? && f.out == Datas(cs) && f.used == |Encode(cs)| + |SizeLine(last)|
  {
    FeedEncode(cs);
    FeedSizeLine(last);
    FeedAppend(Fresh, Encode(cs), SizeLine(last));
    FeedDone(Sized(0), rest);
    FeedAppend(Fresh, Encode(cs) + SizeLine(last), rest);
    hide Feed, SizeLine, WellFormed, Encode;
  }

  // ---- In place ----

  /** One turn of the loop in every state but the data one. */
  lemma FeedNext(d: Decoder, raw: seq<byte>, n: nat)
    requires Sound(d) && n < |raw|
    requires var f := Feed(d, raw[..n]); !f.dec.mode.Done? && !f.dec.mode.Data?
    ensures var f := Feed(d, raw[..n]);
            Feed(d, raw[..n + 1]) == Fed(Step(f.dec, raw[n]), f.out, f.used + 1)
  {
    hide Feed, Step;
    FeedAppend(d, raw[..n], [raw[n]]);
    FeedOne(Feed(d, raw[..n]).dec, raw[n]);
    assert raw[..n] + [raw[n]] == raw[..n + 1];
  }

  lemma FeedTake(d: Decoder, raw: seq<byte>, n: nat, take: nat)
    requires Sound(d) && n + take <= |raw|
    requires var f := Feed(d, raw[..n]); f.dec.mode.Data? && take <= f.dec.left
    ensures var f := Feed(d, raw[..n]);
            Feed(d, raw[..n + take]) ==
            Fed(f.dec.(left := f.dec.left - take, mode := if take == f.dec.left then DataSawCr else Data),
                f.out + raw[n..n + take], f.used + take)
  {
    hide Feed;
    var f := Feed(d, raw[..n]);
    FeedData(f.dec, raw[n..n + take]);
    FeedAppend(d, raw[..n], raw[n..n + take]);
    assert raw[..n] + raw[n..n + take] == raw[..n + take];
  }

  lemma FeedStops(d: Decoder, raw: seq<byte>, n: nat)
    requires Sound(d) && n <= |raw| && (n == |raw| || Feed(d, raw[..n]).dec.mode.Done?)
    ensures Feed(d, raw) == Feed(d, raw[..n])
  {
    hide Feed;
    if n == |raw| {
      assert raw[..n] == raw;
    } else {
      assert raw[..n] + raw[n..] == raw;
      FeedAppend(d, raw[..n], raw[n..]);
      FeedDone(Feed(d, raw[..n]).dec, raw[n..]);
    }
  }

  lemma LineFeedNext(d: Decoder, raw: seq<byte>, n: nat)
    requires Sound(d) && n < |raw| && raw[n] == LF
    requires var m := Feed(d, raw[..n]).dec.mode; m.NeedSize? || m.DataSawCr?
    ensures var f := Feed(d, raw[..n]); Feed(d, raw[..n + 1]) == f.(used := f.used + 1)
  {
    hide Feed, Step;
    FeedNext(d, raw, n);
    SkipsLineFeed(Feed(d, raw[..n]).dec);
  }

  lemma SawCrStays(d: Decoder)
    requires d.mode.DataSawCr?
    ensures forall c: byte :: !Step(d, c).mode.Data? && !Step(d, c).mode.Done? && !Step(d, c).mode.SizeSawCr?
  {
  }

  /** What has not been read yet lies past everything written. */
  lemma StillRaw(was: seq<byte>, to: nat, out: seq<byte>, from: nat, n: nat, end: nat)
    requires to + |out| <= from + n <= end <= |was|
    ensures var now := Overwrite(was, to, out);
            forall i :: from + n <= i < end ==> now[i] == was[from..end][i - from]
  {
  }

  lemma Moved(was: seq<byte>, to: nat, out: seq<byte>, from: nat, n: nat, take: nat, end: nat)
    requires to + |out| <= from + n && from + n + take <= end <= |was|
    ensures var now, more := Overwrite(was, to, out), was[from..end][n..n + take];
            && now[from + n..from + n + take] == more
            && Overwrite(now, to + |out|, more) == Overwrite(was, to, out + more)
            && (to + |out| == from + n ==> now == Overwrite(was, to, out + more))
  {
    var now, more := Overwrite(was, to, out), was[from..end][n..n + take];
    OverwriteTwice(was, to, out, more);
    assert forall i :: 0 <= i < take ==> now[from + n..from + n + take][i] == was[from + n + i] == more[i];
    assert now[from + n..from + n + take] == more;
    assert to + |out| == from + n ==> Overwrite(now, to + |out|, more) == now;
  }

  /** The decoder after `n` bytes of chunk data. */
  function Took(d: Decoder, n: nat): (r: Decoder)
    requires n <= d.left && d.mode.Data?
    ensures Sound(r)
  {
    d.(left := d.left - n, mode := if n == d.left then DataSawCr else Data)
  }

  /** `n` raw bytes of `was` from `from` on read, and what they decode to written at `to`. */
  ghost predicate Decoded(was: seq<byte>, to: nat, from: nat, end: nat, d0: Decoder, n: nat, now: seq<byte>, w: nat, d: Decoder)
    requires to <= from && from + n <= end <= |was| && Sound(d0)
  {
    var f := Feed(d0, was[from..end][..n]);
    d == f.dec && n == f.used && w == |f.out| && now == Overwrite(was, to, f.out)
  }

  lemma DecodedTake(was: seq<byte>, to: nat, from: nat, end: nat, d0: Decoder, n: nat,
                    now: seq<byte>, w: nat, d: Decoder, take: nat)
    requires to <= from && from + n + take <= end <= |was| && Sound(d0)
    requires Decoded(was, to, from, end, d0, n, now, w, d) && d.mode.Data? && take <= d.left
    ensures w <= n && |now| == |was|
    ensures var next := if to + w == from + n then now else Overwrite(now, to + w, now[from + n..from + n + take]);
            Decoded(was, to, from, end, d0, n + take, next, w + take, Took(d, take))
  {
    hide Feed;
    FeedTake(d0, was[from..end], n, take);
    Moved(was, to, Feed(d0, was[from..end][..n]).out, from, n, take, end);
    hide Overwrite;
  }

  lemma DecodedNext(was: seq<byte>, to: nat, from: nat, end: nat, d0: Decoder, n: nat,
                    now: seq<byte>, w: nat, d: Decoder, next: Decoder, k: nat)
    requires to <= from && from + n < end <= |was| == |now| && Sound(d0)
    requires Decoded(was, to, from, end, d0, n, now, w, d) && !d.mode.Data? && !d.mode.Done? && Sound(d)
    requires next == Step(d, now[from + n])
    requires k == if d.mode.DataSawCr? && from + n + 1 < end && now[from + n + 1] == LF then 2 else 1
    ensures w <= n && from + n + k <= end && Decoded(was, to, from, end, d0, n + k, now, w, next)
  {
    hide Feed, Step;
    var raw := was[from..end];
    var f := Feed(d0, raw[..n]);
    FeedNext(d0, raw, n);
    StillRaw(was, to, f.out, from, n, end);
    if d.mode.DataSawCr? && from + n + 1 < end && now[from + n + 1] == LF {
      SawCrStays(d);
      LineFeedNext(d0, raw, n + 1);
    }
    hide Overwrite;
  }

  lemma DecodedAll(was: seq<byte>, to: nat, from: nat, end: nat, d0: Decoder, n: nat,
                   now: seq<byte>, w: nat, d: Decoder)
    requires to <= from && from + n <= end <= |was| && Sound(d0)
    requires Decoded(was, to, from, end, d0, n, now, w, d) && (from + n == end || d.mode.Done?)
    ensures var f := Feed(d0, was[from..end]);
            d == f.dec && n == f.used && w == |f.out| && now == Overwrite(was, to, f.out)
  {
    hide Feed, Overwrite;
    FeedStops(d0, was[from..end], n);
  }

  lemma Behind(was: seq<byte>, to: nat, from: nat, end: nat, d0: Decoder, n: nat, now: seq<byte>, w: nat, d: Decoder)
    requires to <= from && from + n <= end <= |was| && Sound(d0)
    requires Decoded(was, to, from, end, d0, n, now, w, d)
    ensures w <= n && |now| == |was| && Sound(d)
  {
    hide Feed, Overwrite;
  }

  lemma DecodedNone(was: seq<byte>, to: nat, from: nat, end: nat, d0: Decoder)
    requires to <= from <= end <= |was| && Sound(d0)
    ensures Decoded(was, to, from, end, d0, 0, was, 0, d0)
  {
  }

  /** One byte of framing, and the line feed after the carriage return that ends a chunk's data. */
  method TakeFraming(buf: array<byte>, from: nat, end: nat, d0: Decoder) returns (n: nat, d: Decoder)
    requires from < end <= buf.Length && Sound(d0)
    ensures d == Step(d0, buf[..][from])
    ensures n == if d0.mode.DataSawCr? && from + 1 < end && buf[..][from + 1] == LF then 2 else 1
  {
    n, d := 1, Step(d0, buf[from]);
    if d0.mode.DataSawCr? && from + n < end && buf[from + n] == LF {
      n := 2;
    }
  }

  /** Chunk data moved down over the framing already read, unless there was none. */
  method MoveDown(buf: array<byte>, to: nat, from: nat, n: nat)
    requires to <= from && from + n <= buf.Length
    modifies buf
    ensures buf[..] == if to == from then old(buf[..]) else Overwrite(old(buf[..]), to, old(buf[..])[from..from + n])
  {
    if to != from {
      Memmove(buf, to, from, n);
    }
  }

  /** All that is at hand of a chunk's data. */
  method TakeData(buf: array<byte>, to: nat, from: nat, end: nat, d0: Decoder) returns (n: nat, d: Decoder)
    requires to <= from < end <= buf.Length && Sound(d0) && d0.mode.Data?
    modifies buf
    ensures 0 < n <= d0.left && from + n <= end
    ensures d == Took(d0, n)
    ensures buf[..] == if to == from then old(buf[..]) else Overwrite(old(buf[..]), to, old(buf[..])[from..from + n])
  {
    var avail := end - from;
    n := if avail < d0.left then avail else d0.left;
    MoveDown(buf, to, from, n);
    d := d0.(left := d0.left - n, mode := if n == d0.left then DataSawCr else Data);
  }

  /** One turn of the loop: `n` raw bytes were read and `w` bytes written since the call. */
  method Turn(buf: array<byte>, to: nat, from: nat, end: nat, n: nat, w: nat, d0: Decoder,
              ghost was: seq<byte>, ghost first: Decoder)
    returns (k: nat, v: nat, d: Decoder)
    requires to <= from && from + n < end <= buf.Length == |was| && Sound(d0) && Sound(first)
    requires Decoded(was, to, from, end, first, n, buf[..], w, d0) && !d0.mode.Done?
    modifies buf
    ensures 0 < k && from + n + k <= end && Sound(d)
    ensures Decoded(was, to, from, end, first, n + k, buf[..], w + v, d)
  {
    hide Feed, Step, Decoded, Overwrite, Took;
    ghost var now := buf[..];
    if d0.mode.Data? {
      Behind(was, to, from, end, first, n, now, w, d0);
      k, d := TakeData(buf, to + w, from + n, end, d0);
      v := k;
      DecodedTake(was, to, from, end, first, n, now, w, d0, k);
    } else {
      k, d := TakeFraming(buf, from + n, end, d0);
      v := 0;
      DecodedNext(was, to, from, end, first, n, now, w, d0, d, k);
    }
  }

  /**
   The loop of http_chunked_decode_in_place: the buffer's bytes from `from` to `end` are read and the
   decoded ones written from `to` on, in the same buffer. Everything else stands as it was.
   */
  method Turns(buf: array<byte>, to: nat, from: nat, end: nat, d0: Decoder) returns (n: nat, w: nat, d: Decoder)
    requires to <= from <= end <= buf.Length && Sound(d0)
    modifies buf
    ensures from + n <= end && Decoded(old(buf[..]), to, from, end, d0, n, buf[..], w, d)
    ensures from + n == end || d.mode.Done?
  {
    ghost var was := buf[..];
    DecodedNone(was, to, from, end, d0);
    hide Feed, Step, Decoded, Overwrite;
    n, w, d := 0, 0, d0;
    while from + n < end && !d.mode.Done?
      invariant from + n <= end && Sound(d) && Decoded(was, to, from, end, d0, n, buf[..], w, d)
      decreases end - n
    {
      var k, v;
      k, v, d := Turn(buf, to, from, end, n, w, d, was, d0);
      n, w := n + k, w + v;
    }
  }

  /** http_chunked_decode_in_place on the body in `buf[base..end]`, resuming at the two offsets into it. */
  method DecodeInPlace(buf: array<byte>, base: nat, end: nat, read0: nat, write0: nat, d0: Decoder)
    returns (read: nat, write: nat, d: Decoder)
    requires base + write0 <= base + read0 <= end <= buf.Length && Sound(d0)
    modifies buf
    ensures var f := Feed(d0, old(buf[..])[base + read0..end]);
            && d == f.dec && read == read0 + f.used && write == write0 + |f.out|
            && buf[..] == Overwrite(old(buf[..]), base + write0, f.out)
  {
    hide Feed, Decoded, Overwrite;
    ghost var was := buf[..];
    var n, w;
    n, w, d := Turns(buf, base + write0, base + read0, end, d0);
    DecodedAll(was, base + write0, base + read0, end, d0, n, buf[..], w, d);
    read, write := read0 + n, write0 + w;
  }
}
