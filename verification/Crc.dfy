/** The table-driven CRC-32 of files, against the bitwise form of section 8 of RFC 1952. */
module Crc {

  import opened XorLaws

  const POLYNOMIAL: bv32 := 0xEDB8_8320

  // ---------- One bit at a time ----------

  /** One step of the division. */
  function Shift(crc: bv32): bv32 {
    if crc & 1 == 1 then (crc >> 1) ^ POLYNOMIAL else crc >> 1
  }

  /** The register after one bit of the message. */
  function FeedBit(crc: bv32, bit: bool): bv32 {
    Shift(if bit then Xor(crc, 1) else crc)
  }

  /** The register after the first `n` bits. */
  function Feed(crc: bv32, bits: seq<bool>, n: nat): bv32
    requires n <= |bits|
  {
    if n == 0 then crc else FeedBit(Feed(crc, bits, n - 1), bits[n - 1])
  }

  /** The bits of a byte, the lowest one first. */
  function BitsOf(b: bv8): (bits: seq<bool>)
    ensures |bits| == 8
  {
    [b & 1 != 0, b & 2 != 0, b & 4 != 0, b & 8 != 0, b & 16 != 0, b & 32 != 0, b & 64 != 0, b & 128 != 0]
  }

  /** The bits of a message, in the order they are divided. */
  function Message(bytes: seq<bv8>): (bits: seq<bool>)
    ensures |bits| == 8 * |bytes|
  {
    if bytes == [] then [] else Message(bytes[..|bytes| - 1]) + BitsOf(bytes[|bytes| - 1])
  }

  /** The bitwise CRC of a message, from a register's value. */
  function Bitwise(crc: bv32, bytes: seq<bv8>): bv32 {
    Feed(crc, Message(bytes), |Message(bytes)|)
  }

  // ---------- The table ----------

  /** The table, in rows of sixteen. */
  function Row(r: bv8): (row: seq<bv32>)
    ensures |row| == 16
  {
    if r < 8 then
      if r == 0 then [0x0000_0000, 0x7707_3096, 0xEE0E_612C, 0x9909_51BA, 0x076D_C419, 0x706A_F48F, 0xE963_A535, 0x9E64_95A3,
        0x0EDB_8832, 0x79DC_B8A4, 0xE0D5_E91E, 0x97D2_D988, 0x09B6_4C2B, 0x7EB1_7CBD, 0xE7B8_2D07, 0x90BF_1D91]
      else if r == 1 then [0x1DB7_1064, 0x6AB0_20F2, 0xF3B9_7148, 0x84BE_41DE, 0x1ADA_D47D, 0x6DDD_E4EB, 0xF4D4_B551, 0x83D3_85C7,
        0x136C_9856, 0x646B_A8C0, 0xFD62_F97A, 0x8A65_C9EC, 0x1401_5C4F, 0x6306_6CD9, 0xFA0F_3D63, 0x8D08_0DF5]
      else if r == 2 then [0x3B6E_20C8, 0x4C69_105E, 0xD560_41E4, 0xA267_7172, 0x3C03_E4D1, 0x4B04_D447, 0xD20D_85FD, 0xA50A_B56B,
        0x35B5_A8FA, 0x42B2_986C, 0xDBBB_C9D6, 0xACBC_F940, 0x32D8_6CE3, 0x45DF_5C75, 0xDCD6_0DCF, 0xABD1_3D59]
      else if r == 3 then [0x26D9_30AC, 0x51DE_003A, 0xC8D7_5180, 0xBFD0_6116, 0x21B4_F4B5, 0x56B3_C423, 0xCFBA_9599, 0xB8BD_A50F,
        0x2802_B89E, 0x5F05_8808, 0xC60C_D9B2, 0xB10B_E924, 0x2F6F_7C87, 0x5868_4C11, 0xC161_1DAB, 0xB666_2D3D]
      else if r == 4 then [0x76DC_4190, 0x01DB_7106, 0x98D2_20BC, 0xEFD5_102A, 0x71B1_8589, 0x06B6_B51F, 0x9FBF_E4A5, 0xE8B8_D433,
        0x7807_C9A2, 0x0F00_F934, 0x9609_A88E, 0xE10E_9818, 0x7F6A_0DBB, 0x086D_3D2D, 0x9164_6C97, 0xE663_5C01]
      else if r == 5 then [0x6B6B_51F4, 0x1C6C_6162, 0x8565_30D8, 0xF262_004E, 0x6C06_95ED, 0x1B01_A57B, 0x8208_F4C1, 0xF50F_C457,
        0x65B0_D9C6, 0x12B7_E950, 0x8BBE_B8EA, 0xFCB9_887C, 0x62DD_1DDF, 0x15DA_2D49, 0x8CD3_7CF3, 0xFBD4_4C65]
      else if r == 6 then [0x4DB2_6158, 0x3AB5_51CE, 0xA3BC_0074, 0xD4BB_30E2, 0x4ADF_A541, 0x3DD8_95D7, 0xA4D1_C46D, 0xD3D6_F4FB,
        0x4369_E96A, 0x346E_D9FC, 0xAD67_8846, 0xDA60_B8D0, 0x4404_2D73, 0x3303_1DE5, 0xAA0A_4C5F, 0xDD0D_7CC9]
      else [0x5005_713C, 0x2702_41AA, 0xBE0B_1010, 0xC90C_2086, 0x5768_B525, 0x206F_85B3, 0xB966_D409, 0xCE61_E49F,
        0x5EDE_F90E, 0x29D9_C998, 0xB0D0_9822, 0xC7D7_A8B4, 0x59B3_3D17, 0x2EB4_0D81, 0xB7BD_5C3B, 0xC0BA_6CAD]
    else
      if r == 8 then [0xEDB8_8320, 0x9ABF_B3B6, 0x03B6_E20C, 0x74B1_D29A, 0xEAD5_4739, 0x9DD2_77AF, 0x04DB_2615, 0x73DC_1683,
        0xE363_0B12, 0x9464_3B84, 0x0D6D_6A3E, 0x7A6A_5AA8, 0xE40E_CF0B, 0x9309_FF9D, 0x0A00_AE27, 0x7D07_9EB1]
      else if r == 9 then [0xF00F_9344, 0x8708_A3D2, 0x1E01_F268, 0x6906_C2FE, 0xF762_575D, 0x8065_67CB, 0x196C_3671, 0x6E6B_06E7,
        0xFED4_1B76, 0x89D3_2BE0, 0x10DA_7A5A, 0x67DD_4ACC, 0xF9B9_DF6F, 0x8EBE_EFF9, 0x17B7_BE43, 0x60B0_8ED5]
      else if r == 10 then [0xD6D6_A3E8, 0xA1D1_937E, 0x38D8_C2C4, 0x4FDF_F252, 0xD1BB_67F1, 0xA6BC_5767, 0x3FB5_06DD, 0x48B2_364B,
        0xD80D_2BDA, 0xAF0A_1B4C, 0x3603_4AF6, 0x4104_7A60, 0xDF60_EFC3, 0xA867_DF55, 0x316E_8EEF, 0x4669_BE79]
      else if r == 11 then [0xCB61_B38C, 0xBC66_831A, 0x256F_D2A0, 0x5268_E236, 0xCC0C_7795, 0xBB0B_4703, 0x2202_16B9, 0x5505_262F,
        0xC5BA_3BBE, 0xB2BD_0B28, 0x2BB4_5A92, 0x5CB3_6A04, 0xC2D7_FFA7, 0xB5D0_CF31, 0x2CD9_9E8B, 0x5BDE_AE1D]
      else if r == 12 then [0x9B64_C2B0, 0xEC63_F226, 0x756A_A39C, 0x026D_930A, 0x9C09_06A9, 0xEB0E_363F, 0x7207_6785, 0x0500_5713,
        0x95BF_4A82, 0xE2B8_7A14, 0x7BB1_2BAE, 0x0CB6_1B38, 0x92D2_8E9B, 0xE5D5_BE0D, 0x7CDC_EFB7, 0x0BDB_DF21]
      else if r == 13 then [0x86D3_D2D4, 0xF1D4_E242, 0x68DD_B3F8, 0x1FDA_836E, 0x81BE_16CD, 0xF6B9_265B, 0x6FB0_77E1, 0x18B7_4777,
        0x8808_5AE6, 0xFF0F_6A70, 0x6606_3BCA, 0x1101_0B5C, 0x8F65_9EFF, 0xF862_AE69, 0x616B_FFD3, 0x166C_CF45]
      else if r == 14 then [0xA00A_E278, 0xD70D_D2EE, 0x4E04_8354, 0x3903_B3C2, 0xA767_2661, 0xD060_16F7, 0x4969_474D, 0x3E6E_77DB,
        0xAED1_6A4A, 0xD9D6_5ADC, 0x40DF_0B66, 0x37D8_3BF0, 0xA9BC_AE53, 0xDEBB_9EC5, 0x47B2_CF7F, 0x30B5_FFE9]
      else [0xBDBD_F21C, 0xCABA_C28A, 0x53B3_9330, 0x24B4_A3A6, 0xBAD0_3605, 0xCDD7_0693, 0x54DE_5729, 0x23D9_67BF,
        0xB366_7A2E, 0xC461_4AB8, 0x5D68_1B02, 0x2A6F_2B94, 0xB40B_BE37, 0xC30C_8EA1, 0x5A05_DF1B, 0x2D02_EF8D]
  }

  function Entry(row: seq<bv32>, j: bv8): bv32
    requires |row| == 16
  {
    if j == 0 then row[0]
    else if j == 1 then row[1]
    else if j == 2 then row[2]
    else if j == 3 then row[3]
    else if j == 4 then row[4]
    else if j == 5 then row[5]
    else if j == 6 then row[6]
    else if j == 7 then row[7]
    else if j == 8 then row[8]
    else if j == 9 then row[9]
    else if j == 10 then row[10]
    else if j == 11 then row[11]
    else if j == 12 then row[12]
    else if j == 13 then row[13]
    else if j == 14 then row[14]
    else row[15]
  }

  /** `ulCRCTable[i]`. */
  function Table(i: bv8): bv32 {
    Entry(Row(i >> 4), i & 15)
  }

  function Eight(crc: bv32): bv32 {
    Shift(Shift(Shift(Shift(Shift(Shift(Shift(Shift(crc))))))))
  }

  /** A row is its first entry combined with the first row. */
  ghost predicate IsRow(row: seq<bv32>, first: seq<bv32>)
    requires |row| == |first| == 16
  {
    row[0] == Xor(row[0], first[0]) && row[1] == Xor(row[0], first[1]) &&
    row[2] == Xor(row[0], first[2]) && row[3] == Xor(row[0], first[3]) &&
    row[4] == Xor(row[0], first[4]) && row[5] == Xor(row[0], first[5]) &&
    row[6] == Xor(row[0], first[6]) && row[7] == Xor(row[0], first[7]) &&
    row[8] == Xor(row[0], first[8]) && row[9] == Xor(row[0], first[9]) &&
    row[10] == Xor(row[0], first[10]) && row[11] == Xor(row[0], first[11]) &&
    row[12] == Xor(row[0], first[12]) && row[13] == Xor(row[0], first[13]) &&
    row[14] == Xor(row[0], first[14]) && row[15] == Xor(row[0], first[15])
  }

  lemma Rows0(r: bv8)
    requires r == 0 || r == 1
    ensures IsRow(Row(r), Row(0))
  {
  }

  lemma Rows1(r: bv8)
    requires r == 2 || r == 3
    ensures IsRow(Row(r), Row(0))
  {
  }

  lemma Rows2(r: bv8)
    requires r == 4 || r == 5
    ensures IsRow(Row(r), Row(0))
  {
  }

  lemma Rows3(r: bv8)
    requires r == 6 || r == 7
    ensures IsRow(Row(r), Row(0))
  {
  }

  lemma Rows4(r: bv8)
    requires r == 8 || r == 9
    ensures IsRow(Row(r), Row(0))
  {
  }

  lemma Rows5(r: bv8)
    requires r == 10 || r == 11
    ensures IsRow(Row(r), Row(0))
  {
  }

  lemma Rows6(r: bv8)
    requires r == 12 || r == 13
    ensures IsRow(Row(r), Row(0))
  {
  }

  lemma Rows7(r: bv8)
    requires r == 14 || r == 15
    ensures IsRow(Row(r), Row(0))
  {
  }

  lemma FirstRow(j: bv8)
    requires j < 16
    ensures Entry(Row(0), j) == Eight(j as bv32)
  {
  }

  lemma FirstColumn(r: bv8)
    requires r < 16
    ensures Row(r)[0] == Eight((r as bv32) << 4)
  {
  }

  lemma ColumnIs(row: seq<bv32>, first: seq<bv32>, j: bv8)
    requires |row| == |first| == 16 && IsRow(row, first) && j < 16
    ensures Entry(row, j) == Xor(row[0], Entry(first, j))
  {
    hide Xor;
    assert j == 0 || j == 1 || j == 2 || j == 3 || j == 4 || j == 5 || j == 6 || j == 7 ||
           j == 8 || j == 9 || j == 10 || j == 11 || j == 12 || j == 13 || j == 14 || j == 15;
  }

  /** Every entry of the table is what eight steps make of its index. */
  lemma TableIs(i: bv8)
    ensures Table(i) == Eight(i as bv32)
  {
    hide Eight, Row, IsRow, Entry, Xor;
    var r, j := i >> 4, i & 15;
    Nibbles(i);
    if r <= 1 {
      Rows0(r);
    } else if r <= 3 {
      Rows1(r);
    } else if r <= 5 {
      Rows2(r);
    } else if r <= 7 {
      Rows3(r);
    } else if r <= 9 {
      Rows4(r);
    } else if r <= 11 {
      Rows5(r);
    } else if r <= 13 {
      Rows6(r);
    } else {
      Rows7(r);
    }
    ColumnIs(Row(r), Row(0), j);
    FirstRow(j);
    FirstColumn(r);
    EightLinear((r as bv32) << 4, j as bv32);
  }

  lemma Nibbles(i: bv8)
    ensures i >> 4 <= 15 && i & 15 < 16
    ensures Xor(((i >> 4) as bv32) << 4, (i & 15) as bv32) == i as bv32
  {
  }

  // ---------- The division is linear ----------

  lemma ShiftIs(a: bv32)
    ensures Shift(a) == if Odd(a) then Xor(Half(a), POLYNOMIAL) else Half(a)
  {
  }

  lemma ShiftLinear(a: bv32, b: bv32)
    ensures Shift(Xor(a, b)) == Xor(Shift(a), Shift(b))
  {
    hide Shift, Xor, Odd, Half;
    ShiftIs(a);
    ShiftIs(b);
    ShiftIs(Xor(a, b));
    XorHalves(a, b);
    XorOdd(a, b);
    Cancels(Half(a), Half(b), POLYNOMIAL);
    Commutes(Half(a), Half(b), POLYNOMIAL);
    Associates(Half(a), Half(b), POLYNOMIAL);
  }

  /** Nothing is lost in a step: the top bit tells what was shifted out. */
  lemma ShiftInjective(a: bv32)
    ensures Shift(a) == 0 ==> a == 0
  {
  }

  lemma EightLinear(a: bv32, b: bv32)
    ensures Eight(Xor(a, b)) == Xor(Eight(a), Eight(b))
  {
    hide Shift, Xor;
    var a1, b1 := Shift(a), Shift(b);
    var a2, b2 := Shift(a1), Shift(b1);
    var a3, b3 := Shift(a2), Shift(b2);
    var a4, b4 := Shift(a3), Shift(b3);
    ShiftLinear(a, b);
    ShiftLinear(a1, b1);
    ShiftLinear(a2, b2);
    ShiftLinear(a3, b3);
    ShiftLinear(a4, b4);
    ShiftLinear(Shift(a4), Shift(b4));
    ShiftLinear(Shift(Shift(a4)), Shift(Shift(b4)));
    ShiftLinear(Shift(Shift(Shift(a4))), Shift(Shift(Shift(b4))));
  }

  /** Bits above the lowest byte are only shifted. */
  lemma EightHigh(crc: bv32)
    requires crc & 0xFF == 0
    ensures Eight(crc) == crc >> 8
  {
  }

  /** The index of the table entry for a byte. */
  function Index(crc: bv32, b: bv8): bv8 {
    ((crc & 0xFF) as bv8) ^ b
  }

  lemma IndexIs(crc: bv32, b: bv8)
    ensures Index(crc, b) as bv32 == Xor(Lower(crc), b as bv32)
  {
  }

  /** The table step: the register's low byte selects the entry. */
  lemma TableStep(crc: bv32, b: bv8)
    ensures Xor(crc >> 8, Table(Index(crc, b))) == Eight(Xor(crc, b as bv32))
  {
    hide Eight, Table, Xor, Index, Upper, Lower;
    Parts(crc);
    IndexIs(crc, b);
    Associates(Upper(crc), Lower(crc), b as bv32);
    TableIs(Index(crc, b));
    EightLinear(Upper(crc), Index(crc, b) as bv32);
    EightHigh(Upper(crc));
  }

  // ---------- Bytes are eight bits ----------

  /** One step on a register combined with pending bits: the lowest of them is fed, the others move down. */
  lemma PendingStep(crc: bv32, pending: bv32)
    ensures Shift(Xor(crc, pending)) == Xor(FeedBit(crc, Odd(pending)), Half(pending))
  {
    assert Shift(1) == POLYNOMIAL;
    hide Shift, Xor, Odd, Half;
    ShiftLinear(crc, pending);
    ShiftIs(pending);
    if Odd(pending) {
      ShiftLinear(crc, 1);
      Associates(Shift(crc), POLYNOMIAL, Half(pending));
      Symmetric(POLYNOMIAL, Half(pending));
    }
  }

  /** The bits of a byte come out one by one. */
  lemma BitsComeOut(b: bv8)
    ensures var x0 := b as bv32;
      var x1 := Half(x0); var x2 := Half(x1); var x3 := Half(x2); var x4 := Half(x3);
      var x5 := Half(x4); var x6 := Half(x5); var x7 := Half(x6);
      Half(x7) == 0 && BitsOf(b) == [Odd(x0), Odd(x1), Odd(x2), Odd(x3), Odd(x4), Odd(x5), Odd(x6), Odd(x7)]
  {
  }

  lemma FeedSteps(crc: bv32, bits: seq<bool>)
    requires |bits| == 8
    ensures Feed(crc, bits, 0) == crc
    ensures forall k :: 0 <= k < 8 ==> Feed(crc, bits, k + 1) == FeedBit(Feed(crc, bits, k), bits[k])
  {
  }

  /** Feeding the bits of a byte is eight steps on the register combined with the byte. */
  lemma ByteIsEight(crc: bv32, b: bv8)
    ensures Feed(crc, BitsOf(b), 8) == Eight(Xor(crc, b as bv32))
  {
    BitsComeOut(b);
    var bits, x0 := BitsOf(b), b as bv32;
    var x1 := Half(x0);
    var x2 := Half(x1);
    var x3 := Half(x2);
    var x4 := Half(x3);
    var x5 := Half(x4);
    var x6 := Half(x5);
    var x7 := Half(x6);
    hide Shift, Xor, Odd, Half, BitsOf, FeedBit;
    PendingStep(Feed(crc, bits, 0), x0);
    PendingStep(Feed(crc, bits, 1), x1);
    PendingStep(Feed(crc, bits, 2), x2);
    PendingStep(Feed(crc, bits, 3), x3);
    PendingStep(Feed(crc, bits, 4), x4);
    PendingStep(Feed(crc, bits, 5), x5);
    PendingStep(Feed(crc, bits, 6), x6);
    PendingStep(Feed(crc, bits, 7), x7);
    FeedSteps(crc, bits);
    assert Shift(Xor(Feed(crc, bits, 0), x0)) == Xor(Feed(crc, bits, 1), x1);
    Itself(Feed(crc, bits, 8));
  }

  lemma {:induction false} FeedPrefix(crc: bv32, a: seq<bool>, b: seq<bool>, n: nat)
    requires n <= |a|
    ensures Feed(crc, a + b, n) == Feed(crc, a, n)
  {
    hide FeedBit;
    if n > 0 {
      FeedPrefix(crc, a, b, n - 1);
    }
  }

  lemma {:induction false} FeedOn(crc: bv32, a: seq<bool>, b: seq<bool>, n: nat)
    requires n <= |b|
    ensures Feed(crc, a + b, |a| + n) == Feed(Feed(crc, a, |a|), b, n)
  {
    hide FeedBit;
    if n == 0 {
      FeedPrefix(crc, a, b, |a|);
    } else {
      FeedOn(crc, a, b, n - 1);
      assert |a| + n - 1 == |a| + (n - 1);
      assert (a + b)[|a| + n - 1] == b[n - 1];
    }
  }

  /** One more byte. */
  lemma BitwiseStep(crc: bv32, bytes: seq<bv8>, b: bv8)
    ensures Bitwise(crc, bytes + [b]) == Eight(Xor(Bitwise(crc, bytes), b as bv32))
  {
    hide Feed, Eight, Xor, BitsOf;
    var all := bytes + [b];
    assert all[..|all| - 1] == bytes;
    FeedOn(crc, Message(bytes), BitsOf(b), 8);
    ByteIsEight(Bitwise(crc, bytes), b);
  }

  // ---------- The program ----------

  /** `PartialCRC`: the table-driven form refines the bitwise one. */
  method PartialCrc(start: bv32, buffer: seq<bv8>, size: nat) returns (crc: bv32)
    requires size <= |buffer|
    ensures crc == Bitwise(start, buffer[..size])
  {
    hide Bitwise, Table, Index, Eight, Xor;
    crc := start;
    BitwiseNone(start);
    for i := 0 to size
      invariant crc == Bitwise(start, buffer[..i])
    {
      TableStep(crc, buffer[i]);
      BitwiseStep(start, buffer[..i], buffer[i]);
      assert buffer[..i + 1] == buffer[..i] + [buffer[i]];
      crc := Xor(crc >> 8, Table(Index(crc, buffer[i])));
    }
  }

  lemma BitwiseNone(crc: bv32)
    ensures Bitwise(crc, []) == crc
  {
  }

  /** The checksum is compositional over chunks. */
  lemma {:induction false} BitwiseChunks(crc: bv32, a: seq<bv8>, b: seq<bv8>)
    ensures Bitwise(crc, a + b) == Bitwise(Bitwise(crc, a), b)
  {
    hide Bitwise, Eight, Xor;
    if b == [] {
      assert a + b == a;
      BitwiseNone(Bitwise(crc, a));
    } else {
      var most, last := b[..|b| - 1], b[|b| - 1];
      BitwiseChunks(crc, a, most);
      BitwiseStep(crc, a + most, last);
      BitwiseStep(Bitwise(crc, a), most, last);
      assert a + b == a + most + [last] && b == most + [last];
    }
  }

  const CHUNK := 256
  const ONES: bv32 := 0xFFFF_FFFF

  /** `filecrc` of a file's contents, read in chunks; a file that cannot be opened counts as an empty one. */
  method FileCrc(file: seq<bv8>, readable: bool) returns (crc: bv32)
    ensures crc == Xor(Bitwise(ONES, if readable then file else []), ONES)
  {
    hide Bitwise, Xor;
    crc := ONES;
    BitwiseNone(ONES);
    if readable {
      var p, numread := 0, CHUNK;
      while numread == CHUNK
        invariant p <= |file| && numread <= CHUNK && crc == Bitwise(ONES, file[..p]) && (numread < CHUNK ==> p == |file|)
        decreases |file| - p, numread
      {
        numread := if |file| - p < CHUNK then |file| - p else CHUNK;
        var buffer := file[p..p + numread];
        crc := PartialCrc(crc, buffer, numread);
        assert buffer[..numread] == buffer && file[..p + numread] == file[..p] + buffer;
        BitwiseChunks(ONES, file[..p], buffer);
        p := p + numread;
      }
      assert file[..p] == file;
    }
    crc := Xor(crc, ONES);
  }

  // ---------- The check value ----------

  function Wide(b: bv8): bv32 {
    b as bv32
  }

  lemma CheckedStart()
    ensures Eight(Xor(0xFFFF_FFFF, Wide(0x31))) == 0x7C23_1048
    ensures Eight(Xor(0x7C23_1048, Wide(0x32))) == 0xB0AC_BB32
    ensures Eight(Xor(0xB0AC_BB32, Wide(0x33))) == 0x77B7_9C2D
  {
  }

  lemma CheckedMiddle()
    ensures Eight(Xor(0x77B7_9C2D, Wide(0x34))) == 0x641C_1F5C
    ensures Eight(Xor(0x641C_1F5C, Wide(0x35))) == 0x340A_C5E3
    ensures Eight(Xor(0x340A_C5E3, Wide(0x36))) == 0xF68D_2C9E
  {
  }

  lemma CheckedEnd()
    ensures Eight(Xor(0xF68D_2C9E, Wide(0x37))) == 0xAFFC_9660
    ensures Eight(Xor(0xAFFC_9660, Wide(0x38))) == 0x651F_2550
    ensures Eight(Xor(0x651F_2550, Wide(0x39))) == 0x340B_C6D9
  {
  }

  /** The checksum of the digits from 1 to 9. */
  lemma CheckValue()
    ensures Xor(Bitwise(ONES, [0x31, 0x32, 0x33, 0x34, 0x35, 0x36, 0x37, 0x38, 0x39]), ONES) == 0xCBF4_3926
  {
    hide Bitwise, Eight, Xor, Wide;
    CheckedStart();
    CheckedMiddle();
    CheckedEnd();
    var digits: seq<bv8> := [0x31, 0x32, 0x33, 0x34, 0x35, 0x36, 0x37, 0x38, 0x39];
    BitwiseNone(ONES);
    assert digits[..0] == [] && digits[..9] == digits;
    ThreeMore(digits, 0);
    ThreeMore(digits, 3);
    ThreeMore(digits, 6);
    Negated();
  }

  lemma ThreeMore(bytes: seq<bv8>, n: nat)
    requires n + 3 <= |bytes|
    ensures Bitwise(ONES, bytes[..n + 3]) ==
            Eight(Xor(Eight(Xor(Eight(Xor(Bitwise(ONES, bytes[..n]), Wide(bytes[n]))), Wide(bytes[n + 1]))), Wide(bytes[n + 2])))
  {
    hide Bitwise, Eight, Xor;
    BitwiseStep(ONES, bytes[..n], bytes[n]);
    BitwiseStep(ONES, bytes[..n + 1], bytes[n + 1]);
    BitwiseStep(ONES, bytes[..n + 2], bytes[n + 2]);
    assert bytes[..n + 1] == bytes[..n] + [bytes[n]] && bytes[..n + 2] == bytes[..n + 1] + [bytes[n + 1]];
    assert bytes[..n + 3] == bytes[..n + 2] + [bytes[n + 2]];
  }

  lemma Negated()
    ensures Xor(0x340B_C6D9, ONES) == 0xCBF4_3926
  {
  }

  // ---------- Bursts ----------

  /** Two to the power of `k`, for `k` below 32. */
  function Power(k: nat): bv32 {
    if k < 16 then
      if k < 8 then
        if k < 4 then (if k == 0 then 1 else if k == 1 then 2 else if k == 2 then 4 else 8)
        else (if k == 4 then 16 else if k == 5 then 32 else if k == 6 then 64 else 128)
      else
        if k < 12 then (if k == 8 then 0x100 else if k == 9 then 0x200 else if k == 10 then 0x400 else 0x800)
        else (if k == 12 then 0x1000 else if k == 13 then 0x2000 else if k == 14 then 0x4000 else 0x8000)
    else
      if k < 24 then
        if k < 20 then (if k == 16 then 0x1_0000 else if k == 17 then 0x2_0000 else if k == 18 then 0x4_0000 else 0x8_0000)
        else (if k == 20 then 0x10_0000 else if k == 21 then 0x20_0000 else if k == 22 then 0x40_0000 else 0x80_0000)
      else
        if k < 28 then (if k == 24 then 0x100_0000 else if k == 25 then 0x200_0000 else if k == 26 then 0x400_0000
                        else 0x800_0000)
        else (if k == 28 then 0x1000_0000 else if k == 29 then 0x2000_0000 else if k == 30 then 0x4000_0000
              else 0x8000_0000)
  }

  lemma PowerHalves(k: nat)
    requires 0 < k <= 31
    ensures Half(Power(k)) == Power(k - 1) && !Odd(Power(k))
  {
  }

  predicate Has(x: bv32, bit: bv32) {
    x & bit != 0
  }

  /** `x` has no bits from the `m`th on. */
  predicate Fits(x: bv32, m: nat) {
    if m == 0 then x == 0 else Fits(Half(x), m - 1)
  }

  lemma HalfHas(x: bv32, bit: bv32)
    requires Has(x, bit) && !Odd(bit)
    ensures Has(Half(x), Half(bit))
  {
  }

  lemma {:induction false} HighBit(x: bv32, k: nat, m: nat)
    requires m <= k <= 31 && Has(x, Power(k))
    ensures !Fits(x, m)
  {
    if m > 0 {
      hide Has, Half, Odd, Power;
      PowerHalves(k);
      HalfHas(x, Power(k));
      HighBit(Half(x), k - 1, m - 1);
    }
  }

  /** A one that is shifted out sets the top bit. */
  lemma OddShift(w: bv32)
    ensures Odd(w) ==> Has(Shift(w), 0x8000_0000)
    ensures !Odd(w) ==> Shift(w) == Half(w)
  {
  }

  lemma HalfOne()
    ensures Half(1) == 0 && Odd(1) && Power(31) == 0x8000_0000
  {
  }

  /** A step that leaves at most 31 bits has shifted out no one. */
  lemma Unshift(w: bv32, m: nat)
    requires 0 < m <= 32 && Fits(Shift(w), m - 1)
    ensures !Odd(w) && Fits(w, m) && Fits(Xor(w, 1), m)
  {
    hide Shift, Odd, Half, Xor, Has, Power;
    OddShift(w);
    HalfOne();
    if Odd(w) {
      HighBit(Shift(w), 31, m - 1);
    }
    XorHalves(w, 1);
    Itself(Half(w));
  }

  /** What a bit of the message adds to the register. */
  function BitValue(bit: bool): bv32 {
    if bit then 1 else 0
  }

  lemma FeedBitIs(crc: bv32, bit: bool)
    ensures FeedBit(crc, bit) == Shift(Xor(crc, BitValue(bit)))
  {
    Itself(crc);
  }

  lemma FeedFront(crc: bv32, bits: seq<bool>)
    requires bits != []
    ensures Feed(crc, bits, |bits|) == Feed(FeedBit(crc, bits[0]), bits[1..], |bits| - 1)
  {
    hide FeedBit;
    assert bits == [bits[0]] + bits[1..];
    FeedOn(crc, [bits[0]], bits[1..], |bits| - 1);
    assert Feed(crc, [bits[0]], 1) == FeedBit(Feed(crc, [bits[0]], 0), bits[0]);
  }

  /** The difference of two registers before a bit each. */
  lemma StepDifference(u: bv32, v: bv32, p: bool, q: bool)
    ensures Xor(FeedBit(u, p), FeedBit(v, q)) == Shift(Xor(Xor(u, v), BitValue(p != q)))
  {
    assert Xor(BitValue(p), BitValue(q)) == BitValue(p != q);
    hide Shift, Xor, FeedBit, BitValue;
    var x, y := BitValue(p), BitValue(q);
    FeedBitIs(u, p);
    FeedBitIs(v, q);
    ShiftLinear(Xor(u, x), Xor(v, y));
    Associates(Xor(u, x), v, y);
    Commutes(u, v, x);
    Associates(Xor(u, v), x, y);
  }

  lemma {:induction false} SameSuffix(u: bv32, v: bv32, bits: seq<bool>, n: nat)
    requires n <= |bits| && Feed(u, bits, n) == Feed(v, bits, n)
    ensures u == v
  {
    hide Shift, Xor, FeedBit;
    if n > 0 {
      var x, y := Feed(u, bits, n - 1), Feed(v, bits, n - 1);
      StepDifference(x, y, bits[n - 1], bits[n - 1]);
      Differ(FeedBit(x, bits[n - 1]), FeedBit(y, bits[n - 1]));
      Itself(Xor(x, y));
      ShiftInjective(Xor(x, y));
      Differ(x, y);
      SameSuffix(u, v, bits, n - 1);
    }
  }

  /** Registers that come together within few bits differ only in as many low bits. */
  lemma {:induction false} Meet(u: bv32, v: bv32, a: seq<bool>, b: seq<bool>)
    requires |a| == |b| <= 31 && Feed(u, a, |a|) == Feed(v, b, |b|)
    ensures Fits(Xor(u, v), |a|)
    decreases |a|
  {
    hide Shift, Xor, FeedBit, Fits;
    if a == [] {
      Differ(u, v);
      ZeroFits();
    } else {
      FeedFront(u, a);
      FeedFront(v, b);
      Meet(FeedBit(u, a[0]), FeedBit(v, b[0]), a[1..], b[1..]);
      StepDifference(u, v, a[0], b[0]);
      BeforeStep(Xor(u, v), a[0] != b[0], |a|);
    }
  }

  lemma ZeroFits()
    ensures Fits(0, 0)
  {
  }

  lemma BeforeStep(d: bv32, differs: bool, m: nat)
    requires 0 < m <= 31 && Fits(Shift(Xor(d, BitValue(differs))), m - 1)
    ensures Fits(d, m)
  {
    hide Shift, Xor, Fits;
    Unshift(Xor(d, BitValue(differs)), m);
    Itself(d);
    Associates(d, 1, 1);
    Itself(1);
  }

  /** Two different bursts of at most 32 bits leave different registers. */
  lemma {:induction false} BurstsDiffer(crc: bv32, a: seq<bool>, b: seq<bool>)
    requires |a| == |b| <= 32 && a != b
    ensures Feed(crc, a, |a|) != Feed(crc, b, |b|)
    decreases |a|
  {
    assert Shift(1) == POLYNOMIAL;
    hide Shift, Xor, FeedBit, Fits;
    FeedFront(crc, a);
    FeedFront(crc, b);
    if a[0] == b[0] {
      assert a == [a[0]] + a[1..] && b == [b[0]] + b[1..];
      BurstsDiffer(FeedBit(crc, a[0]), a[1..], b[1..]);
    } else if Feed(crc, a, |a|) == Feed(crc, b, |b|) {
      Meet(FeedBit(crc, a[0]), FeedBit(crc, b[0]), a[1..], b[1..]);
      StepDifference(crc, crc, a[0], b[0]);
      Itself(crc);
      Itself(1);
      Symmetric(0, 1);
      Unshift(1, |a|);
      HalfOne();
    }
  }

  /** Files that differ only within 32 consecutive bits have different checksums. */
  lemma BurstDetected(file: seq<bv8>, damaged: seq<bv8>, before: seq<bool>, a: seq<bool>, b: seq<bool>, after: seq<bool>)
    requires Message(file) == before + a + after && Message(damaged) == before + b + after
    requires |a| == |b| <= 32 && a != b
    ensures Xor(Bitwise(ONES, file), ONES) != Xor(Bitwise(ONES, damaged), ONES)
  {
    hide Feed, Xor, Message;
    var crc := Feed(ONES, before, |before|);
    FeedOn(ONES, before, a, |a|);
    FeedOn(ONES, before, b, |b|);
    FeedOn(ONES, before + a, after, |after|);
    FeedOn(ONES, before + b, after, |after|);
    BurstsDiffer(crc, a, b);
    var x, y := Feed(crc, a, |a|), Feed(crc, b, |b|);
    if Feed(x, after, |after|) == Feed(y, after, |after|) {
      SameSuffix(x, y, after, |after|);
    }
    Cancels(Bitwise(ONES, file), Bitwise(ONES, damaged), ONES);
    Differ(Bitwise(ONES, file), Bitwise(ONES, damaged));
    Differ(Xor(Bitwise(ONES, file), ONES), Xor(Bitwise(ONES, damaged), ONES));
  }
}
