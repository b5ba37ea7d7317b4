// src/util/crc16.c: CRC-16 with polynomial 0x8005, bit-serial and through a 16-entry and a 256-entry
// table.
module Crc16 {
  /** s_crc16_table_small */
  function SmallTable(i: bv16): bv16 {
    if i == 0 then 0x0000 else if i == 1 then 0x8005 else if i == 2 then 0x800F else if i == 3 then 0x000A else
    if i == 4 then 0x801B else if i == 5 then 0x001E else if i == 6 then 0x0014 else if i == 7 then 0x8011 else
    if i == 8 then 0x8033 else if i == 9 then 0x0036 else if i == 10 then 0x003C else if i == 11 then 0x8039 else
    if i == 12 then 0x0028 else if i == 13 then 0x802D else if i == 14 then 0x8027 else 0x0022
  }

  function Row0(i: bv16): bv16 {
    if i == 0 then 0x0000 else if i == 1 then 0x8005 else if i == 2 then 0x800F else if i == 3 then 0x000A else
    if i == 4 then 0x801B else if i == 5 then 0x001E else if i == 6 then 0x0014 else if i == 7 then 0x8011 else
    if i == 8 then 0x8033 else if i == 9 then 0x0036 else if i == 10 then 0x003C else if i == 11 then 0x8039 else
    if i == 12 then 0x0028 else if i == 13 then 0x802D else if i == 14 then 0x8027 else 0x0022
  }

  function Row1(i: bv16): bv16 {
    if i == 0 then 0x8063 else if i == 1 then 0x0066 else if i == 2 then 0x006C else if i == 3 then 0x8069 else
    if i == 4 then 0x0078 else if i == 5 then 0x807D else if i == 6 then 0x8077 else if i == 7 then 0x0072 else
    if i == 8 then 0x0050 else if i == 9 then 0x8055 else if i == 10 then 0x805F else if i == 11 then 0x005A else
    if i == 12 then 0x804B else if i == 13 then 0x004E else if i == 14 then 0x0044 else 0x8041
  }

  function Row2(i: bv16): bv16 {
    if i == 0 then 0x80C3 else if i == 1 then 0x00C6 else if i == 2 then 0x00CC else if i == 3 then 0x80C9 else
    if i == 4 then 0x00D8 else if i == 5 then 0x80DD else if i == 6 then 0x80D7 else if i == 7 then 0x00D2 else
    if i == 8 then 0x00F0 else if i == 9 then 0x80F5 else if i == 10 then 0x80FF else if i == 11 then 0x00FA else
    if i == 12 then 0x80EB else if i == 13 then 0x00EE else if i == 14 then 0x00E4 else 0x80E1
  }

  function Row3(i: bv16): bv16 {
    if i == 0 then 0x00A0 else if i == 1 then 0x80A5 else if i == 2 then 0x80AF else if i == 3 then 0x00AA else
    if i == 4 then 0x80BB else if i == 5 then 0x00BE else if i == 6 then 0x00B4 else if i == 7 then 0x80B1 else
    if i == 8 then 0x8093 else if i == 9 then 0x0096 else if i == 10 then 0x009C else if i == 11 then 0x8099 else
    if i == 12 then 0x0088 else if i == 13 then 0x808D else if i == 14 then 0x8087 else 0x0082
  }

  function Row4(i: bv16): bv16 {
    if i == 0 then 0x8183 else if i == 1 then 0x0186 else if i == 2 then 0x018C else if i == 3 then 0x8189 else
    if i == 4 then 0x0198 else if i == 5 then 0x819D else if i == 6 then 0x8197 else if i == 7 then 0x0192 else
    if i == 8 then 0x01B0 else if i == 9 then 0x81B5 else if i == 10 then 0x81BF else if i == 11 then 0x01BA else
    if i == 12 then 0x81AB else if i == 13 then 0x01AE else if i == 14 then 0x01A4 else 0x81A1
  }

  function Row5(i: bv16): bv16 {
    if i == 0 then 0x01E0 else if i == 1 then 0x81E5 else if i == 2 then 0x81EF else if i == 3 then 0x01EA else
    if i == 4 then 0x81FB else if i == 5 then 0x01FE else if i == 6 then 0x01F4 else if i == 7 then 0x81F1 else
    if i == 8 then 0x81D3 else if i == 9 then 0x01D6 else if i == 10 then 0x01DC else if i == 11 then 0x81D9 else
    if i == 12 then 0x01C8 else if i == 13 then 0x81CD else if i == 14 then 0x81C7 else 0x01C2
  }

  function Row6(i: bv16): bv16 {
    if i == 0 then 0x0140 else if i == 1 then 0x8145 else if i == 2 then 0x814F else if i == 3 then 0x014A else
    if i == 4 then 0x815B else if i == 5 then 0x015E else if i == 6 then 0x0154 else if i == 7 then 0x8151 else
    if i == 8 then 0x8173 else if i == 9 then 0x0176 else if i == 10 then 0x017C else if i == 11 then 0x8179 else
    if i == 12 then 0x0168 else if i == 13 then 0x816D else if i == 14 then 0x8167 else 0x0162
  }

  function Row7(i: bv16): bv16 {
    if i == 0 then 0x8123 else if i == 1 then 0x0126 else if i == 2 then 0x012C else if i == 3 then 0x8129 else
    if i == 4 then 0x0138 else if i == 5 then 0x813D else if i == 6 then 0x8137 else if i == 7 then 0x0132 else
    if i == 8 then 0x0110 else if i == 9 then 0x8115 else if i == 10 then 0x811F else if i == 11 then 0x011A else
    if i == 12 then 0x810B else if i == 13 then 0x010E else if i == 14 then 0x0104 else 0x8101
  }

  function Row8(i: bv16): bv16 {
    if i == 0 then 0x8303 else if i == 1 then 0x0306 else if i == 2 then 0x030C else if i == 3 then 0x8309 else
    if i == 4 then 0x0318 else if i == 5 then 0x831D else if i == 6 then 0x8317 else if i == 7 then 0x0312 else
    if i == 8 then 0x0330 else if i == 9 then 0x8335 else if i == 10 then 0x833F else if i == 11 then 0x033A else
    if i == 12 then 0x832B else if i == 13 then 0x032E else if i == 14 then 0x0324 else 0x8321
  }

  function Row9(i: bv16): bv16 {
    if i == 0 then 0x0360 else if i == 1 then 0x8365 else if i == 2 then 0x836F else if i == 3 then 0x036A else
    if i == 4 then 0x837B else if i == 5 then 0x037E else if i == 6 then 0x0374 else if i == 7 then 0x8371 else
    if i == 8 then 0x8353 else if i == 9 then 0x0356 else if i == 10 then 0x035C else if i == 11 then 0x8359 else
    if i == 12 then 0x0348 else if i == 13 then 0x834D else if i == 14 then 0x8347 else 0x0342
  }

  function RowA(i: bv16): bv16 {
    if i == 0 then 0x03C0 else if i == 1 then 0x83C5 else if i == 2 then 0x83CF else if i == 3 then 0x03CA else
    if i == 4 then 0x83DB else if i == 5 then 0x03DE else if i == 6 then 0x03D4 else if i == 7 then 0x83D1 else
    if i == 8 then 0x83F3 else if i == 9 then 0x03F6 else if i == 10 then 0x03FC else if i == 11 then 0x83F9 else
    if i == 12 then 0x03E8 else if i == 13 then 0x83ED else if i == 14 then 0x83E7 else 0x03E2
  }

  function RowB(i: bv16): bv16 {
    if i == 0 then 0x83A3 else if i == 1 then 0x03A6 else if i == 2 then 0x03AC else if i == 3 then 0x83A9 else
    if i == 4 then 0x03B8 else if i == 5 then 0x83BD else if i == 6 then 0x83B7 else if i == 7 then 0x03B2 else
    if i == 8 then 0x0390 else if i == 9 then 0x8395 else if i == 10 then 0x839F else if i == 11 then 0x039A else
    if i == 12 then 0x838B else if i == 13 then 0x038E else if i == 14 then 0x0384 else 0x8381
  }

  function RowC(i: bv16): bv16 {
    if i == 0 then 0x0280 else if i == 1 then 0x8285 else if i == 2 then 0x828F else if i == 3 then 0x028A else
    if i == 4 then 0x829B else if i == 5 then 0x029E else if i == 6 then 0x0294 else if i == 7 then 0x8291 else
    if i == 8 then 0x82B3 else if i == 9 then 0x02B6 else if i == 10 then 0x02BC else if i == 11 then 0x82B9 else
    if i == 12 then 0x02A8 else if i == 13 then 0x82AD else if i == 14 then 0x82A7 else 0x02A2
  }

  function RowD(i: bv16): bv16 {
    if i == 0 then 0x82E3 else if i == 1 then 0x02E6 else if i == 2 then 0x02EC else if i == 3 then 0x82E9 else
    if i == 4 then 0x02F8 else if i == 5 then 0x82FD else if i == 6 then 0x82F7 else if i == 7 then 0x02F2 else
    if i == 8 then 0x02D0 else if i == 9 then 0x82D5 else if i == 10 then 0x82DF else if i == 11 then 0x02DA else
    if i == 12 then 0x82CB else if i == 13 then 0x02CE else if i == 14 then 0x02C4 else 0x82C1
  }

  function RowE(i: bv16): bv16 {
    if i == 0 then 0x8243 else if i == 1 then 0x0246 else if i == 2 then 0x024C else if i == 3 then 0x8249 else
    if i == 4 then 0x0258 else if i == 5 then 0x825D else if i == 6 then 0x8257 else if i == 7 then 0x0252 else
    if i == 8 then 0x0270 else if i == 9 then 0x8275 else if i == 10 then 0x827F else if i == 11 then 0x027A else
    if i == 12 then 0x826B else if i == 13 then 0x026E else if i == 14 then 0x0264 else 0x8261
  }

  function RowF(i: bv16): bv16 {
    if i == 0 then 0x0220 else if i == 1 then 0x8225 else if i == 2 then 0x822F else if i == 3 then 0x022A else
    if i == 4 then 0x823B else if i == 5 then 0x023E else if i == 6 then 0x0234 else if i == 7 then 0x8231 else
    if i == 8 then 0x8213 else if i == 9 then 0x0216 else if i == 10 then 0x021C else if i == 11 then 0x8219 else
    if i == 12 then 0x0208 else if i == 13 then 0x820D else if i == 14 then 0x8207 else 0x0202
  }

  /** s_crc16_table, one row for each upper nibble of the index */
  function Table(i: bv16): bv16 {
    var row, col := i >> 4, i & 0xF;
    if row == 0 then Row0(col) else
    if row == 1 then Row1(col) else
    if row == 2 then Row2(col) else
    if row == 3 then Row3(col) else
    if row == 4 then Row4(col) else
    if row == 5 then Row5(col) else
    if row == 6 then Row6(col) else
    if row == 7 then Row7(col) else
    if row == 8 then Row8(col) else
    if row == 9 then Row9(col) else
    if row == 10 then RowA(col) else
    if row == 11 then RowB(col) else
    if row == 12 then RowC(col) else
    if row == 13 then RowD(col) else
    if row == 14 then RowE(col) else
    RowF(col)
  }

  // ---- The register ----

  /** The 16-bit CRC state. The wrapper keeps bit-level facts inside the lemmas that need them. */
  datatype Reg = Reg(v: bv16)

  const ZERO := Reg(0)

  function Xor(a: Reg, b: Reg): Reg { Reg(a.v ^ b.v) }
  function Left8(a: Reg): Reg { Reg(a.v << 8) }
  function Left4(a: Reg): Reg { Reg(a.v << 4) }
  function High(d: bv8): Reg { Reg(d as bv16 << 8) }
  function Low(d: bv8): Reg { Reg(d as bv16) }

  function Left1(a: Reg): Reg { Reg(a.v << 1) }

  // The bit shifted out comes back into bits 15, 2 and 0
  function Feedback16(top: bv16): bv16 { top ^ (top << 2) ^ (top << 15) }
  function Feedback(a: Reg): Reg { Reg(Feedback16(a.v >> 15)) }

  /** One zero bit through the register. */
  function Bit(r: Reg): Reg { Xor(Left1(r), Feedback(r)) }

  lemma FeedbackIsPolynomial(crc: bv16)
    ensures crc & 0x8000 != 0 ==> Feedback16(crc >> 15) == 0x8005
    ensures crc & 0x8000 == 0 ==> Feedback16(crc >> 15) == 0
  {
  }

  /** ... which is the conditional subtraction of the polynomial 0x8005 in the source. */
  lemma BitIsConditional(crc: bv16)
    ensures Bit(Reg(crc)) == Reg(if crc & 0x8000 != 0 then (crc << 1) ^ 0x8005 else crc << 1)
  {
    FeedbackIsPolynomial(crc);
  }

  function Bits(r: Reg, n: nat): Reg
    decreases n, r
  {
    if n == 0 then r else Bits(Bit(r), n - 1)
  }

  /** crc16_update_serial: a data byte is added to the upper half, then eight bits are shifted. */
  function Serial(crc: Reg, data: bv8): Reg { Bits(Xor(crc, High(data)), 8) }

  /** The CRC of a block, byte by byte. */
  function Crc(crc: Reg, data: seq<bv8>): Reg
    decreases |data|
  {
    if data == [] then crc else Crc(Serial(crc, data[0]), data[1..])
  }

  // ---- Algebra of the register ----

  lemma LeftIsLinear(a: Reg, b: Reg)
    ensures Left1(Xor(a, b)) == Xor(Left1(a), Left1(b))
  {
  }

  lemma FeedbackIsLinear(a: Reg, b: Reg)
    ensures Feedback(Xor(a, b)) == Xor(Feedback(a), Feedback(b))
  {
  }

  lemma XorSwap(a: Reg, b: Reg, c: Reg, d: Reg)
    ensures Xor(Xor(a, b), Xor(c, d)) == Xor(Xor(a, c), Xor(b, d))
  {
  }

  lemma BitIsLinear(a: Reg, b: Reg)
    ensures Bit(Xor(a, b)) == Xor(Bit(a), Bit(b))
  {
    LeftIsLinear(a, b);
    FeedbackIsLinear(a, b);
    XorSwap(Left1(a), Left1(b), Feedback(a), Feedback(b));
  }

  lemma XorAssoc(a: Reg, b: Reg, c: Reg)
    ensures Xor(Xor(a, b), c) == Xor(a, Xor(b, c))
  {
  }

  lemma XorComm(a: Reg, b: Reg)
    ensures Xor(a, b) == Xor(b, a)
  {
  }

  lemma XorIsZero(a: Reg, b: Reg)
    ensures Xor(a, b) == ZERO <==> a == b
  {
  }

  lemma XorCancels(a: Reg, b: Reg, c: Reg)
    ensures Xor(Xor(a, c), Xor(b, c)) == Xor(a, b)
  {
  }

  lemma OnlyZeroGivesZero(a: Reg)
    requires Bit(a) == ZERO
    ensures a == ZERO
  {
  }

  lemma {:induction false} BitsAreLinear(a: Reg, b: Reg, n: nat)
    ensures Bits(Xor(a, b), n) == Xor(Bits(a, n), Bits(b, n))
    decreases n
  {
    if n > 0 {
      BitIsLinear(a, b);
      BitsAreLinear(Bit(a), Bit(b), n - 1);
    }
  }

  lemma {:induction false} BitsAdd(r: Reg, m: nat, n: nat)
    ensures Bits(r, m + n) == Bits(Bits(r, m), n)
    decreases m
  {
    if m > 0 {
      BitsAdd(Bit(r), m - 1, n);
    }
  }

  /** Shifting bits through the register loses nothing: different states stay different. */
  lemma {:induction false} BitsAreInjective(a: Reg, b: Reg, n: nat)
    requires Bits(a, n) == Bits(b, n)
    ensures a == b
    decreases n
  {
    if n > 0 {
      BitsAreInjective(Bit(a), Bit(b), n - 1);
      BitIsLinear(a, b);
      XorIsZero(Bit(a), Bit(b));
      OnlyZeroGivesZero(Xor(a, b));
      XorIsZero(a, b);
    }
  }

  lemma Unroll4(r: Reg)
    ensures Bits(r, 4) == Bit(Bit(Bit(Bit(r))))
  {
    var a := Bit(r);
    var b := Bit(a);
    var c := Bit(b);
    assert Bits(c, 1) == Bits(Bit(c), 0);
    assert Bits(b, 2) == Bits(c, 1);
    assert Bits(a, 3) == Bits(b, 2);
  }

  function Bit16(crc: bv16): bv16 { (crc << 1) ^ Feedback16(crc >> 15) }

  // Four zero bits through the register, all at once
  lemma Nibble(x: bv16)
    ensures x < 0x1000 ==> Bit16(Bit16(Bit16(Bit16(x)))) == x << 4
  {
  }

  lemma FourBits(r: Reg)
    ensures Bits(r, 4) == Reg(Bit16(Bit16(Bit16(Bit16(r.v)))))
  {
    Unroll4(r);
  }

  function LowByte(r: Reg): Reg { Reg(r.v & 0xFF) }
  function LowBits(r: Reg): Reg { Reg(r.v & 0xFFF) }

  // Bits that are not at the top are only moved
  lemma MovedNibble(r: Reg)
    requires r.v < 0x1000
    ensures Bits(r, 4) == Left4(r)
  {
    FourBits(r);
    Nibble(r.v);
  }

  lemma ByteIsSmall(r: Reg)
    ensures r.v < 0x100 ==> r.v < 0x1000 && Left4(r).v < 0x1000 && Left4(Left4(r)) == Left8(r)
  {
  }

  lemma MovedByte(r: Reg)
    requires r.v < 0x100
    ensures Bits(r, 8) == Left8(r)
  {
    ByteIsSmall(r);
    MovedNibble(r);
    MovedNibble(Left4(r));
    BitsAdd(r, 4, 4);
  }

  // ---- The tables: each entry is its index shifted through an empty register ----

  function SmallEntry(i: Reg): Reg { Reg(SmallTable(i.v)) }
  function Entry(i: Reg): Reg { Reg(Table(i.v)) }
  function Left12(i: Reg): Reg { Reg(i.v << 12) }

  lemma SmallTableBits(i: bv16)
    requires i < 16
    ensures SmallTable(i) == Bit16(Bit16(Bit16(Bit16(i << 12))))
  {
  }

  lemma TableBits(i: bv16)
    requires i < 256
    ensures Table(i) == Bit16(Bit16(Bit16(Bit16(Bit16(Bit16(Bit16(Bit16(i << 8))))))))
  {
  }

  /** Every entry of the small table is four bits of the register. */
  lemma SmallTableIsSerial(i: Reg)
    requires i.v < 16
    ensures SmallEntry(i) == Bits(Left12(i), 4)
  {
    FourBits(Left12(i));
    SmallTableBits(i.v);
  }

  /** Every entry of the big table is eight bits of the register. */
  lemma TableIsSerial(i: Reg)
    requires i.v < 256
    ensures Entry(i) == Bits(Left8(i), 8)
  {
    BitsAdd(Left8(i), 4, 4);
    FourBits(Left8(i));
    FourBits(Bits(Left8(i), 4));
    TableBits(i.v);
  }

  // ---- One byte, one nibble ----

  // Where the table is looked up for a data byte and for a nibble
  function ByteIndex(crc: Reg, d: bv8): Reg { Reg((crc.v >> 8) ^ (d as bv16)) }
  function NibbleIndex(crc: Reg, d: bv16): Reg { Reg(((crc.v >> 12) ^ d) & 0xF) }
  function TopNibble(d: bv16): Reg { Reg((d & 0xF) << 12) }

  lemma SplitByte(crc: Reg, d: bv8)
    ensures Xor(crc, High(d)) == Xor(LowByte(crc), Left8(ByteIndex(crc, d)))
    ensures LowByte(crc).v < 0x100
    ensures ByteIndex(crc, d).v < 256
    ensures Left8(LowByte(crc)) == Left8(crc)
  {
  }

  /** A byte step is the table entry of the upper byte over the moved lower byte. */
  lemma ByteStep(crc: Reg, d: bv8)
    ensures Serial(crc, d) == Xor(Left8(crc), Entry(ByteIndex(crc, d)))
  {
    var i := ByteIndex(crc, d);
    SplitByte(crc, d);
    BitsAreLinear(LowByte(crc), Left8(i), 8);
    MovedByte(LowByte(crc));
    TableIsSerial(i);
  }

  lemma SplitNibble(crc: Reg, d: bv16)
    ensures Xor(crc, TopNibble(d)) == Xor(LowBits(crc), Left12(NibbleIndex(crc, d)))
    ensures LowBits(crc).v < 0x1000
    ensures NibbleIndex(crc, d).v < 16
    ensures Left4(LowBits(crc)) == Left4(crc)
  {
  }

  // What the small-table loop does for the low nibble of d
  function NibbleStep(crc: Reg, d: bv16): Reg { Xor(SmallEntry(NibbleIndex(crc, d)), Left4(crc)) }

  lemma NibbleStepIsSerial(crc: Reg, d: bv16)
    ensures NibbleStep(crc, d) == Bits(Xor(crc, TopNibble(d)), 4)
  {
    var i := NibbleIndex(crc, d);
    SplitNibble(crc, d);
    BitsAreLinear(LowBits(crc), Left12(i), 4);
    MovedNibble(LowBits(crc));
    SmallTableIsSerial(i);
    XorComm(SmallEntry(i), Left4(crc));
  }

  function LowNibble(d: bv8): Reg { Reg(((d as bv16) & 0xF) << 8) }

  lemma SplitNibbles(crc: Reg, d: bv8)
    ensures Xor(crc, High(d)) == Xor(Xor(crc, TopNibble((d as bv16) >> 4)), LowNibble(d))
    ensures LowNibble(d).v < 0x1000
    ensures Left4(LowNibble(d)) == TopNibble(d as bv16)
  {
  }

  /** A byte is its upper nibble, then its lower nibble. */
  lemma TwoNibbles(crc: Reg, d: bv8)
    ensures Serial(crc, d) == NibbleStep(NibbleStep(crc, (d as bv16) >> 4), d as bv16)
  {
    var high := Xor(crc, TopNibble((d as bv16) >> 4));
    SplitNibbles(crc, d);
    BitsAreLinear(high, LowNibble(d), 4);
    MovedNibble(LowNibble(d));
    BitsAdd(Xor(high, LowNibble(d)), 4, 4);
    NibbleStepIsSerial(crc, (d as bv16) >> 4);
    NibbleStepIsSerial(Bits(high, 4), d as bv16);
  }

  /** crc16_update_serial */
  method UpdateSerial(crc0: bv16, data: bv8) returns (crc: bv16)
    ensures Reg(crc) == Serial(Reg(crc0), data)
  {
    crc := crc0 ^ (data as bv16 << 8);
    for i := 0 to 8
      invariant Bits(Reg(crc), 8 - i) == Serial(Reg(crc0), data)
    {
      BitIsConditional(crc);
      if crc & 0x8000 != 0 {
        crc := (crc << 1) ^ 0x8005;
      } else {
        crc := crc << 1;
      }
    }
  }

  // crc ^ table[i], for either table
  method AddEntry(crc: bv16, i: bv16) returns (r: bv16)
    ensures Reg(r) == Xor(Left8(Reg(crc)), Entry(Reg(i)))
  {
    r := (crc << 8) ^ Table(i);
  }

  method AddSmallEntry(crc: bv16, i: bv16) returns (r: bv16)
    ensures Reg(r) == Xor(SmallEntry(Reg(i)), Left4(Reg(crc)))
  {
    r := SmallTable(i) ^ (crc << 4);
  }

  method IndexOfByte(crc: bv16, d: bv8) returns (i: bv16)
    ensures Reg(i) == ByteIndex(Reg(crc), d)
  {
    var top := crc >> 8;
    i := top ^ (d as bv16);
  }

  method IndexOfNibble(crc: bv16, d: bv16) returns (i: bv16)
    ensures Reg(i) == NibbleIndex(Reg(crc), d)
  {
    var ix := (crc >> 12) ^ d;
    i := ix & 0xF;
  }

  /** crc16_update */
  method Update(crc: bv16, data: bv8) returns (r: bv16)
    ensures Reg(r) == Serial(Reg(crc), data)
  {
    ByteStep(Reg(crc), data);
    var i := IndexOfByte(crc, data);
    r := AddEntry(crc, i);
  }

  // One byte of crc16_update_small_block: two lookups
  method UpdateSmall(crc: bv16, d8: bv8) returns (r: bv16)
    ensures Reg(r) == Serial(Reg(crc), d8)
  {
    TwoNibbles(Reg(crc), d8);
    var ix := IndexOfNibble(crc, (d8 as bv16) >> 4);
    r := AddSmallEntry(crc, ix);
    ix := IndexOfNibble(r, d8 as bv16);
    r := AddSmallEntry(r, ix);
  }

  // ---- The block updates ----

  lemma {:induction false} CrcAppend(crc: Reg, a: seq<bv8>, b: seq<bv8>)
    ensures Crc(crc, a + b) == Crc(Crc(crc, a), b)
    decreases |a|
  {
    if a == [] {
      assert a + b == b;
    } else {
      assert (a + b)[1..] == a[1..] + b;
      CrcAppend(Serial(crc, a[0]), a[1..], b);
    }
  }

  lemma CrcNext(crc: Reg, data: seq<bv8>, i: nat)
    requires i < |data|
    ensures Crc(crc, data[..i + 1]) == Serial(Crc(crc, data[..i]), data[i])
  {
    assert data[..i + 1] == data[..i] + [data[i]];
    CrcAppend(crc, data[..i], [data[i]]);
    assert [data[i]][1..] == [];
  }

  /** crc16_update_serial_block */
  method UpdateSerialBlock(crc0: bv16, data: seq<bv8>) returns (crc: bv16)
    ensures Reg(crc) == Crc(Reg(crc0), data)
  {
    crc := crc0;
    for i := 0 to |data|
      invariant Reg(crc) == Crc(Reg(crc0), data[..i])
    {
      CrcNext(Reg(crc0), data, i);
      crc := UpdateSerial(crc, data[i]);
    }
    assert data[..|data|] == data;
  }

  /** crc16_update_small_block */
  method UpdateSmallBlock(crc0: bv16, data: seq<bv8>) returns (crc: bv16)
    ensures Reg(crc) == Crc(Reg(crc0), data)
  {
    crc := crc0;
    for i := 0 to |data|
      invariant Reg(crc) == Crc(Reg(crc0), data[..i])
    {
      CrcNext(Reg(crc0), data, i);
      crc := UpdateSmall(crc, data[i]);
    }
    assert data[..|data|] == data;
  }

  /** crc16_update_block */
  method UpdateBlock(crc0: bv16, data: seq<bv8>) returns (crc: bv16)
    ensures Reg(crc) == Crc(Reg(crc0), data)
  {
    crc := crc0;
    for i := 0 to |data|
      invariant Reg(crc) == Crc(Reg(crc0), data[..i])
    {
      CrcNext(Reg(crc0), data, i);
      crc := Update(crc, data[i]);
    }
    assert data[..|data|] == data;
  }

  // ---- What the CRC detects ----

  /** For a fixed block the CRC is a bijection of the states. */
  lemma {:induction false} CrcIsInjective(a: Reg, b: Reg, data: seq<bv8>)
    requires Crc(a, data) == Crc(b, data)
    ensures a == b
    decreases |data|
  {
    if data != [] {
      var d := High(data[0]);
      CrcIsInjective(Serial(a, data[0]), Serial(b, data[0]), data[1..]);
      BitsAreInjective(Xor(a, d), Xor(b, d), 8);
      XorCancels(a, b, d);
      XorIsZero(Xor(a, d), Xor(b, d));
      XorIsZero(a, b);
    }
  }

  // Two bytes together are one 16-bit word shifted through
  lemma TwoBytes(crc: Reg, x: bv8, y: bv8)
    ensures Crc(crc, [x, y]) == Bits(Xor(crc, Xor(High(x), Low(y))), 16)
  {
    var s := Xor(crc, High(x));
    CrcOfTwo(crc, x, y);
    LowIsSmall(y);
    MovedByte(Low(y));
    BitsAreLinear(s, Low(y), 8);
    BitsAdd(Xor(s, Low(y)), 8, 8);
    XorAssoc(crc, High(x), Low(y));
  }

  lemma CrcOfTwo(crc: Reg, x: bv8, y: bv8)
    ensures Crc(crc, [x, y]) == Serial(Serial(crc, x), y)
  {
    assert [x, y][1..] == [y] && [y][1..] == [];
    assert Crc(Serial(crc, x), [y]) == Crc(Serial(Serial(crc, x), y), []);
  }

  lemma LowIsSmall(y: bv8)
    ensures Low(y).v < 0x100 && Left8(Low(y)) == High(y)
  {
  }

  lemma WordIsItsBytes(x: bv8, y: bv8, x': bv8, y': bv8)
    requires Xor(High(x), Low(y)) == Xor(High(x'), Low(y'))
    ensures x == x' && y == y'
  {
  }

  /** Two blocks of equal length that differ only within two adjacent bytes have different CRCs. */
  lemma DetectsTwoBytes(crc: Reg, before: seq<bv8>, x: bv8, y: bv8, x': bv8, y': bv8, after: seq<bv8>)
    requires Crc(crc, before + [x, y] + after) == Crc(crc, before + [x', y'] + after)
    ensures x == x' && y == y'
  {
    var s := Crc(crc, before);
    CrcAppend(crc, before + [x, y], after);
    CrcAppend(crc, before + [x', y'], after);
    CrcAppend(crc, before, [x, y]);
    CrcAppend(crc, before, [x', y']);
    CrcIsInjective(Crc(s, [x, y]), Crc(s, [x', y']), after);
    SameWord(s, x, y, x', y');
  }

  lemma SameWord(s: Reg, x: bv8, y: bv8, x': bv8, y': bv8)
    requires Crc(s, [x, y]) == Crc(s, [x', y'])
    ensures x == x' && y == y'
  {
    var u, v := Xor(High(x), Low(y)), Xor(High(x'), Low(y'));
    TwoBytes(s, x, y);
    TwoBytes(s, x', y');
    BitsAreInjective(Xor(s, u), Xor(s, v), 16);
    XorComm(s, u);
    XorComm(s, v);
    XorCancels(u, v, s);
    XorIsZero(Xor(u, s), Xor(v, s));
    XorIsZero(u, v);
    WordIsItsBytes(x, y, x', y');
  }
}
