/** The CRC of IEEE 802.3, bit by bit and by table, and what it can tell apart. */
module Crc32 {
  import opened Bytes

  const POLY: bv32 := 0xEDB88320
  const ONES: bv32 := 0xFFFFFFFF

  function BitStep(c: bv32): bv32 { (c >> 1) ^ (POLY & (0 - (c & 1))) }

  function EightSteps(c: bv32): bv32 {
    BitStep(BitStep(BitStep(BitStep(BitStep(BitStep(BitStep(BitStep(c))))))))
  }

  function Wide(b: byte): bv32 { Octet(b) as bv32 }

  function Xor(a: bv32, b: bv32): bv32 { a ^ b }

  function ByteStep(c: bv32, b: byte): bv32 { EightSteps(Xor(c, Wide(b))) }

  /** The register after `data`. */
  function Run(c: bv32, data: seq<byte>): bv32
    decreases |data|
  {
    if data == [] then c else ByteStep(Run(c, data[..|data| - 1]), data[|data| - 1])
  }

  function Crc(data: seq<byte>): bv32 { Xor(Run(ONES, data), ONES) }

  // ---- The table, sixteen entries a row ----

  const ROW0: seq<bv32> := [
    0x00000000, 0x77073096, 0xee0e612c, 0x990951ba, 0x076dc419, 0x706af48f, 0xe963a535, 0x9e6495a3,
    0x0edb8832, 0x79dcb8a4, 0xe0d5e91e, 0x97d2d988, 0x09b64c2b, 0x7eb17cbd, 0xe7b82d07, 0x90bf1d91]
  const ROW1: seq<bv32> := [
    0x1db71064, 0x6ab020f2, 0xf3b97148, 0x84be41de, 0x1adad47d, 0x6ddde4eb, 0xf4d4b551, 0x83d385c7,
    0x136c9856, 0x646ba8c0, 0xfd62f97a, 0x8a65c9ec, 0x14015c4f, 0x63066cd9, 0xfa0f3d63, 0x8d080df5]
  const ROW2: seq<bv32> := [
    0x3b6e20c8, 0x4c69105e, 0xd56041e4, 0xa2677172, 0x3c03e4d1, 0x4b04d447, 0xd20d85fd, 0xa50ab56b,
    0x35b5a8fa, 0x42b2986c, 0xdbbbc9d6, 0xacbcf940, 0x32d86ce3, 0x45df5c75, 0xdcd60dcf, 0xabd13d59]
  const ROW3: seq<bv32> := [
    0x26d930ac, 0x51de003a, 0xc8d75180, 0xbfd06116, 0x21b4f4b5, 0x56b3c423, 0xcfba9599, 0xb8bda50f,
    0x2802b89e, 0x5f058808, 0xc60cd9b2, 0xb10be924, 0x2f6f7c87, 0x58684c11, 0xc1611dab, 0xb6662d3d]
  const ROW4: seq<bv32> := [
    0x76dc4190, 0x01db7106, 0x98d220bc, 0xefd5102a, 0x71b18589, 0x06b6b51f, 0x9fbfe4a5, 0xe8b8d433,
    0x7807c9a2, 0x0f00f934, 0x9609a88e, 0xe10e9818, 0x7f6a0dbb, 0x086d3d2d, 0x91646c97, 0xe6635c01]
  const ROW5: seq<bv32> := [
    0x6b6b51f4, 0x1c6c6162, 0x856530d8, 0xf262004e, 0x6c0695ed, 0x1b01a57b, 0x8208f4c1, 0xf50fc457,
    0x65b0d9c6, 0x12b7e950, 0x8bbeb8ea, 0xfcb9887c, 0x62dd1ddf, 0x15da2d49, 0x8cd37cf3, 0xfbd44c65]
  const ROW6: seq<bv32> := [
    0x4db26158, 0x3ab551ce, 0xa3bc0074, 0xd4bb30e2, 0x4adfa541, 0x3dd895d7, 0xa4d1c46d, 0xd3d6f4fb,
    0x4369e96a, 0x346ed9fc, 0xad678846, 0xda60b8d0, 0x44042d73, 0x33031de5, 0xaa0a4c5f, 0xdd0d7cc9]
  const ROW7: seq<bv32> := [
    0x5005713c, 0x270241aa, 0xbe0b1010, 0xc90c2086, 0x5768b525, 0x206f85b3, 0xb966d409, 0xce61e49f,
    0x5edef90e, 0x29d9c998, 0xb0d09822, 0xc7d7a8b4, 0x59b33d17, 0x2eb40d81, 0xb7bd5c3b, 0xc0ba6cad]
  const ROW8: seq<bv32> := [
    0xedb88320, 0x9abfb3b6, 0x03b6e20c, 0x74b1d29a, 0xead54739, 0x9dd277af, 0x04db2615, 0x73dc1683,
    0xe3630b12, 0x94643b84, 0x0d6d6a3e, 0x7a6a5aa8, 0xe40ecf0b, 0x9309ff9d, 0x0a00ae27, 0x7d079eb1]
  const ROW9: seq<bv32> := [
    0xf00f9344, 0x8708a3d2, 0x1e01f268, 0x6906c2fe, 0xf762575d, 0x806567cb, 0x196c3671, 0x6e6b06e7,
    0xfed41b76, 0x89d32be0, 0x10da7a5a, 0x67dd4acc, 0xf9b9df6f, 0x8ebeeff9, 0x17b7be43, 0x60b08ed5]
  const ROW10: seq<bv32> := [
    0xd6d6a3e8, 0xa1d1937e, 0x38d8c2c4, 0x4fdff252, 0xd1bb67f1, 0xa6bc5767, 0x3fb506dd, 0x48b2364b,
    0xd80d2bda, 0xaf0a1b4c, 0x36034af6, 0x41047a60, 0xdf60efc3, 0xa867df55, 0x316e8eef, 0x4669be79]
  const ROW11: seq<bv32> := [
    0xcb61b38c, 0xbc66831a, 0x256fd2a0, 0x5268e236, 0xcc0c7795, 0xbb0b4703, 0x220216b9, 0x5505262f,
    0xc5ba3bbe, 0xb2bd0b28, 0x2bb45a92, 0x5cb36a04, 0xc2d7ffa7, 0xb5d0cf31, 0x2cd99e8b, 0x5bdeae1d]
  const ROW12: seq<bv32> := [
    0x9b64c2b0, 0xec63f226, 0x756aa39c, 0x026d930a, 0x9c0906a9, 0xeb0e363f, 0x72076785, 0x05005713,
    0x95bf4a82, 0xe2b87a14, 0x7bb12bae, 0x0cb61b38, 0x92d28e9b, 0xe5d5be0d, 0x7cdcefb7, 0x0bdbdf21]
  const ROW13: seq<bv32> := [
    0x86d3d2d4, 0xf1d4e242, 0x68ddb3f8, 0x1fda836e, 0x81be16cd, 0xf6b9265b, 0x6fb077e1, 0x18b74777,
    0x88085ae6, 0xff0f6a70, 0x66063bca, 0x11010b5c, 0x8f659eff, 0xf862ae69, 0x616bffd3, 0x166ccf45]
  const ROW14: seq<bv32> := [
    0xa00ae278, 0xd70dd2ee, 0x4e048354, 0x3903b3c2, 0xa7672661, 0xd06016f7, 0x4969474d, 0x3e6e77db,
    0xaed16a4a, 0xd9d65adc, 0x40df0b66, 0x37d83bf0, 0xa9bcae53, 0xdebb9ec5, 0x47b2cf7f, 0x30b5ffe9]
  const ROW15: seq<bv32> := [
    0xbdbdf21c, 0xcabac28a, 0x53b39330, 0x24b4a3a6, 0xbad03605, 0xcdd70693, 0x54de5729, 0x23d967bf,
    0xb3667a2e, 0xc4614ab8, 0x5d681b02, 0x2a6f2b94, 0xb40bbe37, 0xc30c8ea1, 0x5a05df1b, 0x2d02ef8d]

  const ROWS: seq<seq<bv32>> := [
    ROW0, ROW1, ROW2, ROW3, ROW4, ROW5, ROW6, ROW7, ROW8, ROW9, ROW10, ROW11, ROW12, ROW13, ROW14, ROW15]

  function Entry(row: seq<bv32>, j: bv8): bv32
    requires |row| == 16 && j < 16
  {
    row[j as int]
  }

  /** The row holds what eight bit steps make of the sixteen indices that start with `high`. */
  ghost predicate RowOk(row: seq<bv32>, high: bv32) {
    |row| == 16 && forall j: bv8 :: j < 16 ==> Entry(row, j) == EightSteps(high ^ (j as bv32))
  }

  lemma Rows0() ensures RowOk(ROW0, 0x00) && RowOk(ROW1, 0x10) { }
  lemma Rows2() ensures RowOk(ROW2, 0x20) && RowOk(ROW3, 0x30) { }
  lemma Rows4() ensures RowOk(ROW4, 0x40) && RowOk(ROW5, 0x50) { }
  lemma Rows6() ensures RowOk(ROW6, 0x60) && RowOk(ROW7, 0x70) { }
  lemma Rows8() ensures RowOk(ROW8, 0x80) && RowOk(ROW9, 0x90) { }
  lemma Rows10() ensures RowOk(ROW10, 0xA0) && RowOk(ROW11, 0xB0) { }
  lemma Rows12() ensures RowOk(ROW12, 0xC0) && RowOk(ROW13, 0xD0) { }
  lemma Rows14() ensures RowOk(ROW14, 0xE0) && RowOk(ROW15, 0xF0) { }

  /** CRC32_TABLE */
  function Table(i: bv8): bv32 {
    RowsShape();
    Entry(ROWS[(i >> 4) as int], i & 0x0F)
  }

  lemma RowsShape()
    ensures |ROWS| == 16 && forall h :: 0 <= h < 16 ==> |ROWS[h]| == 16
  {
  }

  /** Every entry of the table is eight bit steps of its index. */
  lemma TableIsEightSteps(i: bv8)
    ensures Table(i) == EightSteps(i as bv32)
  {
    hide EightSteps, RowOk;
    Nibbles(i);
    RowsAll(i >> 4);
    RowAt(ROWS[(i >> 4) as int], (i >> 4) as bv32 << 4, i & 0x0F);
  }

  lemma RowAt(row: seq<bv32>, high: bv32, j: bv8)
    requires RowOk(row, high) && j < 16
    ensures |row| == 16 && Entry(row, j) == EightSteps(high ^ (j as bv32))
  {
  }

  lemma RowsAll(h: bv8)
    requires h < 16
    ensures RowOk(ROWS[h as int], h as bv32 << 4)
  {
    hide RowOk;
    Rows0(); Rows2(); Rows4(); Rows6(); Rows8(); Rows10(); Rows12(); Rows14();
  }

  lemma Nibbles(i: bv8)
    ensures i & 0x0F < 16 && i >> 4 < 16 && ((i >> 4) as bv32 << 4) ^ ((i & 0x0F) as bv32) == i as bv32
  {
  }

  // ---- One step as arithmetic over bits ----

  function Shifted(c: bv32): bv32 { if c & 1 == 1 then (c >> 1) ^ POLY else c >> 1 }

  lemma LowBit(b: bv32)
    ensures b == 0 || b == 1 ==> POLY & (0 - b) == if b == 1 then POLY else 0
  {
  }

  lemma LowBitOf(c: bv32)
    ensures c & 1 == 0 || c & 1 == 1
  {
  }

  lemma XorNothing(x: bv32)
    ensures x ^ 0 == x
  {
  }

  lemma BitStepIs(c: bv32)
    ensures BitStep(c) == Shifted(c)
  {
    LowBitOf(c);
    LowBit(c & 1);
    XorNothing(c >> 1);
  }

  lemma XorLow(a: bv32, b: bv32)
    ensures (a ^ b) & 1 == (a & 1) ^ (b & 1)
    ensures (a ^ b) >> 1 == (a >> 1) ^ (b >> 1)
    ensures a & 1 == 0 || a & 1 == 1
  {
  }

  lemma XorSwap(x: bv32, y: bv32, p: bv32)
    ensures (x ^ p) ^ y == (x ^ y) ^ p && x ^ (y ^ p) == (x ^ y) ^ p && (x ^ p) ^ (y ^ p) == x ^ y
  {
  }

  lemma ShiftedXor(a: bv32, b: bv32)
    ensures Shifted(a ^ b) == Shifted(a) ^ Shifted(b)
  {
    XorLow(a, b);
    XorLow(b, a);
    XorSwap(a >> 1, b >> 1, POLY);
  }

  lemma BitStepXor(a: bv32, b: bv32)
    ensures BitStep(Xor(a, b)) == Xor(BitStep(a), BitStep(b))
  {
    hide BitStep, Shifted;
    BitStepIs(a);
    BitStepIs(b);
    BitStepIs(Xor(a, b));
    ShiftedXor(a, b);
  }

  lemma EightStepsXor(a: bv32, b: bv32)
    ensures EightSteps(Xor(a, b)) == Xor(EightSteps(a), EightSteps(b))
  {
    hide BitStep, Xor;
    var a1, b1 := BitStep(a), BitStep(b);
    BitStepXor(a, b);
    var a2, b2 := BitStep(a1), BitStep(b1);
    BitStepXor(a1, b1);
    var a3, b3 := BitStep(a2), BitStep(b2);
    BitStepXor(a2, b2);
    var a4, b4 := BitStep(a3), BitStep(b3);
    BitStepXor(a3, b3);
    var a5, b5 := BitStep(a4), BitStep(b4);
    BitStepXor(a4, b4);
    var a6, b6 := BitStep(a5), BitStep(b5);
    BitStepXor(a5, b5);
    var a7, b7 := BitStep(a6), BitStep(b6);
    BitStepXor(a6, b6);
    BitStepXor(a7, b7);
  }

  function Low(c: bv32): bv32 { c & 0xFF }

  function High(c: bv32): bv32 { c & 0xFFFFFF00 }

  function Down(c: bv32): bv32 { c >> 8 }

  function Index(c: bv32): bv8 { (c & 0xFF) as bv8 }

  lemma EightStepsOfHigh(c: bv32)
    ensures EightSteps(High(c)) == Down(c)
  {
  }

  /** The table's step: one lookup for the low byte, the rest shifted down. */
  function TableStep(c: bv32, b: byte): bv32 { Xor(Table(Index(Xor(c, Wide(b)))), Down(c)) }

  lemma Halves(x: bv32)
    ensures Xor(Low(x), High(x)) == x && (Index(x) as bv32) == Low(x)
  {
  }

  lemma DownOfXor(c: bv32, x: bv8)
    ensures Down(Xor(c, x as bv32)) == Down(c)
  {
  }

  lemma TableStepIsByteStep(c: bv32, b: byte)
    ensures TableStep(c, b) == ByteStep(c, b)
  {
    var x := Xor(c, Wide(b));
    DownOfXor(c, Octet(b));
    assert Down(x) == Down(c);
    hide EightSteps, Table, Wide, Xor, Low, High, Down, Index;
    Halves(x);
    EightStepsXor(Low(x), High(x));
    EightStepsOfHigh(x);
    TableIsEightSteps(Index(x));
  }

  function TableRun(c: bv32, data: seq<byte>): bv32
    decreases |data|
  {
    if data == [] then c else TableStep(TableRun(c, data[..|data| - 1]), data[|data| - 1])
  }

  /** The two forms agree on every message, from every register. */
  lemma {:induction false} TableRunIsRun(c: bv32, data: seq<byte>)
    ensures TableRun(c, data) == Run(c, data)
    decreases |data|
  {
    hide TableStep, ByteStep;
    if data != [] {
      TableRunIsRun(c, data[..|data| - 1]);
      TableStepIsByteStep(Run(c, data[..|data| - 1]), data[|data| - 1]);
    }
  }

  // ---- What a change does ----

  lemma ShiftedInjective(a: bv32, b: bv32)
    requires Shifted(a) == Shifted(b)
    ensures a == b
  {
  }

  lemma BitStepInjective(a: bv32, b: bv32)
    requires BitStep(a) == BitStep(b)
    ensures a == b
  {
    hide BitStep, Shifted;
    BitStepIs(a);
    BitStepIs(b);
    ShiftedInjective(a, b);
  }

  lemma EightStepsInjective(a: bv32, b: bv32)
    requires EightSteps(a) == EightSteps(b)
    ensures a == b
  {
    hide BitStep;
    var a1, b1 := BitStep(a), BitStep(b);
    var a2, b2 := BitStep(a1), BitStep(b1);
    var a3, b3 := BitStep(a2), BitStep(b2);
    var a4, b4 := BitStep(a3), BitStep(b3);
    var a5, b5 := BitStep(a4), BitStep(b4);
    var a6, b6 := BitStep(a5), BitStep(b5);
    var a7, b7 := BitStep(a6), BitStep(b6);
    BitStepInjective(a7, b7);
    BitStepInjective(a6, b6);
    BitStepInjective(a5, b5);
    BitStepInjective(a4, b4);
    BitStepInjective(a3, b3);
    BitStepInjective(a2, b2);
    BitStepInjective(a1, b1);
    BitStepInjective(a, b);
  }

  lemma WideInjective(a: byte, b: byte)
    requires Wide(a) == Wide(b)
    ensures a == b
  {
    Narrow(Octet(a), Octet(b));
    hide Wide;
  }

  lemma Narrow(x: bv8, y: bv8)
    requires x as bv32 == y as bv32
    ensures x == y
  {
  }

  lemma XorCancels(a: bv32, b: bv32, c: bv32)
    ensures Xor(a, c) == Xor(b, c) <==> a == b
    ensures Xor(c, a) == Xor(c, b) <==> a == b
  {
  }

  /** For a fixed byte the register is permuted; for a fixed register, different bytes lead apart. */
  lemma ByteStepInjective(c: bv32, d: bv32, x: byte, y: byte)
    requires ByteStep(c, x) == ByteStep(d, y)
    ensures x == y ==> c == d
    ensures c == d ==> x == y
  {
    hide EightSteps, Wide, Xor;
    EightStepsInjective(Xor(c, Wide(x)), Xor(d, Wide(y)));
    XorCancels(c, d, Wide(x));
    XorCancels(Wide(x), Wide(y), c);
    if c == d { WideInjective(x, y); }
  }

  lemma {:induction false} RunInjective(c: bv32, d: bv32, data: seq<byte>)
    requires Run(c, data) == Run(d, data)
    ensures c == d
    decreases |data|
  {
    hide ByteStep;
    if data != [] {
      var p := data[..|data| - 1];
      ByteStepInjective(Run(c, p), Run(d, p), data[|data| - 1], data[|data| - 1]);
      RunInjective(c, d, p);
    }
  }

  lemma {:induction false} RunAppend(c: bv32, a: seq<byte>, b: seq<byte>)
    ensures Run(c, a + b) == Run(Run(c, a), b)
    decreases |b|
  {
    hide ByteStep;
    if b == [] {
      assert a + b == a;
    } else {
      assert (a + b)[..|a + b| - 1] == a + b[..|b| - 1];
      RunAppend(c, a, b[..|b| - 1]);
    }
  }

  lemma RunAt(c: bv32, data: seq<byte>, k: nat)
    requires k < |data|
    ensures Run(c, data) == Run(ByteStep(Run(c, data[..k]), data[k]), data[k + 1..])
  {
    assert data == data[..k + 1] + data[k + 1..] && data[..k + 1][..k] == data[..k];
    RunAppend(c, data[..k + 1], data[k + 1..]);
    hide ByteStep;
  }

  /** A message changed in one byte has another CRC, whatever the change and wherever it is. */
  lemma OneByteChangesCrc(data: seq<byte>, k: nat, b: byte)
    requires k < |data| && b != data[k]
    ensures Crc(data[k := b]) != Crc(data)
  {
    var e, c := data[k := b], Run(ONES, data[..k]);
    RunAt(ONES, data, k);
    RunAt(ONES, e, k);
    assert e[..k] == data[..k] && e[k + 1..] == data[k + 1..];
    hide Run, ByteStep, Xor;
    XorCancels(Run(ONES, data), Run(ONES, e), ONES);
    if Run(ONES, data) == Run(ONES, e) {
      RunInjective(ByteStep(c, data[k]), ByteStep(c, b), data[k + 1..]);
      ByteStepInjective(c, c, data[k], b);
    }
  }

  // ---- The two loops ----

  function Steps(c: bv32, n: nat): bv32 { if n == 0 then c else BitStep(Steps(c, n - 1)) }

  lemma StepsOfEight(c: bv32)
    ensures Steps(c, 8) == EightSteps(c)
  {
    hide BitStep;
    var c1 := BitStep(c);
    assert Steps(c, 1) == c1;
    var c2 := BitStep(c1);
    assert Steps(c, 2) == c2;
    var c3 := BitStep(c2);
    assert Steps(c, 3) == c3;
    var c4 := BitStep(c3);
    assert Steps(c, 4) == c4;
    assert Steps(c, 6) == BitStep(BitStep(c4));
  }

  /** crc32 of the credentials store: eight shifts a byte. */
  method BitwiseCrc(data: seq<byte>) returns (r: bv32)
    ensures r == Crc(data)
  {
    hide EightSteps, BitStep, Wide;
    var c: bv32 := ONES;
    for i := 0 to |data|
      invariant c == Run(ONES, data[..i])
    {
      c := Xor(c, Wide(data[i]));
      ghost var start := c;
      for j := 0 to 8
        invariant c == Steps(start, j)
      {
        c := ShiftOnce(c);
      }
      StepsOfEight(start);
      assert data[..i + 1][..i] == data[..i];
    }
    assert data[..|data|] == data;
    r := Xor(c, ONES);
  }

  /** The inner statement of the bitwise form. */
  method ShiftOnce(c: bv32) returns (r: bv32)
    ensures r == BitStep(c)
  {
    r := (c >> 1) ^ (POLY & (0 - (c & 1)));
  }

  /** The loop of stun_calculate_fingerprint, before its final XOR: one lookup a byte. */
  method TableCrc(data: seq<byte>) returns (r: bv32)
    ensures r == Crc(data)
  {
    hide Table, ByteStep, Xor, Down, Index, Wide;
    var c: bv32 := ONES;
    for i := 0 to |data|
      invariant c == TableRun(ONES, data[..i])
    {
      c := Xor(Table(Index(Xor(c, Wide(data[i])))), Down(c));
      assert data[..i + 1][..i] == data[..i];
    }
    assert data[..|data|] == data;
    TableRunIsRun(ONES, data);
    r := Xor(c, ONES);
  }

  // ---- The check value ----

  /** One byte takes the register from `c` to `r`. */
  ghost predicate Goes(c: bv32, x: byte, r: bv32) { ByteStep(c, x) == r }

  lemma RunFront(data: seq<byte>, k: nat)
    requires k < |data|
    ensures Run(ONES, data[..k + 1]) == ByteStep(Run(ONES, data[..k]), data[k])
  {
    assert data[..k + 1][..k] == data[..k];
    hide ByteStep;
  }

  lemma WideStep(c: bv32, x: bv8)
    ensures ByteStep(c, x as int) == EightSteps(c ^ (x as bv32))
  {
    OctetBack(x);
    hide EightSteps, Octet;
  }

  ghost predicate After(data: seq<byte>, k: nat, c: bv32) { k <= |data| && Run(ONES, data[..k]) == c }

  lemma OneMore(data: seq<byte>, k: nat, c: bv32, r: bv32)
    requires After(data, k, c) && k < |data| && Goes(c, data[k], r)
    ensures After(data, k + 1, r)
  {
    hide EightSteps, ByteStep, Run;
    RunFront(data, k);
  }

  lemma OneDigit(c: bv32, x: bv8, r: bv32)
    requires EightSteps(c ^ (x as bv32)) == r
    ensures Goes(c, x as int, r)
  {
    WideStep(c, x);
  }

  lemma NineDigits()
    ensures Goes(0xFFFFFFFF, 49, 0x7C231048)
    ensures Goes(0x7C231048, 50, 0xB0ACBB32)
    ensures Goes(0xB0ACBB32, 51, 0x77B79C2D)
    ensures Goes(0x77B79C2D, 52, 0x641C1F5C)
    ensures Goes(0x641C1F5C, 53, 0x340AC5E3)
    ensures Goes(0x340AC5E3, 54, 0xF68D2C9E)
    ensures Goes(0xF68D2C9E, 55, 0xAFFC9660)
    ensures Goes(0xAFFC9660, 56, 0x651F2550)
    ensures Goes(0x651F2550, 57, 0x340BC6D9)
  {
    hide Goes;
    OneDigit(0xFFFFFFFF, 49, 0x7C231048);
    OneDigit(0x7C231048, 50, 0xB0ACBB32);
    OneDigit(0xB0ACBB32, 51, 0x77B79C2D);
    OneDigit(0x77B79C2D, 52, 0x641C1F5C);
    OneDigit(0x641C1F5C, 53, 0x340AC5E3);
    OneDigit(0x340AC5E3, 54, 0xF68D2C9E);
    OneDigit(0xF68D2C9E, 55, 0xAFFC9660);
    OneDigit(0xAFFC9660, 56, 0x651F2550);
    OneDigit(0x651F2550, 57, 0x340BC6D9);
  }

  /** The characters "123456789". */
  const NINE: seq<byte> := [49, 50, 51, 52, 53, 54, 55, 56, 57]

  lemma FirstThree(data: seq<byte>)
    requires data == NINE && After(data, 0, 0xFFFFFFFF)
    ensures After(data, 3, 0x77B79C2D)
  {
    hide After, Goes;
    NineDigits();
    OneMore(data, 0, 0xFFFFFFFF, 0x7C231048);
    OneMore(data, 1, 0x7C231048, 0xB0ACBB32);
    OneMore(data, 2, 0xB0ACBB32, 0x77B79C2D);
  }

  lemma NextThree(data: seq<byte>)
    requires data == NINE && After(data, 3, 0x77B79C2D)
    ensures After(data, 6, 0xF68D2C9E)
  {
    hide After, Goes;
    NineDigits();
    OneMore(data, 3, 0x77B79C2D, 0x641C1F5C);
    OneMore(data, 4, 0x641C1F5C, 0x340AC5E3);
    OneMore(data, 5, 0x340AC5E3, 0xF68D2C9E);
  }

  lemma LastThree(data: seq<byte>)
    requires data == NINE && After(data, 6, 0xF68D2C9E)
    ensures After(data, 9, 0x340BC6D9)
  {
    hide After, Goes;
    NineDigits();
    OneMore(data, 6, 0xF68D2C9E, 0xAFFC9660);
    OneMore(data, 7, 0xAFFC9660, 0x651F2550);
    OneMore(data, 8, 0x651F2550, 0x340BC6D9);
  }

  lemma AfterNone(data: seq<byte>)
    ensures After(data, 0, 0xFFFFFFFF)
  {
  }

  /** The CRC of the nine digits is the check value its catalogues give. */
  lemma CheckValue()
    ensures Crc(NINE) == 0xCBF43926
  {
    hide After, Crc;
    AfterNone(NINE);
    FirstThree(NINE);
    NextThree(NINE);
    LastThree(NINE);
    AfterAll(NINE, 0x340BC6D9);
  }

  lemma AfterAll(data: seq<byte>, c: bv32)
    requires After(data, |data|, c)
    ensures Crc(data) == c ^ 0xFFFFFFFF
  {
    assert data[..|data|] == data;
    hide Run;
  }
}
