/** `crc32`: the reflected CRC-32 of IEEE 802.3 (polynomial 0xEDB88320,
    initial value and final XOR 0xFFFFFFFF), computed a byte at a time
    through a 256-entry table. */
module Crc32 {
  /** The reflected generator polynomial. */
  const POLY: bv32 := 0xEDB8_8320

  /** One bit of polynomial division: shift right, and reduce by the
      polynomial when the bit shifted out was set. */
  function Step(c: bv32): bv32
  {
    (c >> 1) ^ (if c & 1 == 1 then POLY else 0)
  }

  /** Eight bits of division: what one byte contributes. */
  function Reduce8(c: bv32): bv32
  {
    Step(Step(Step(Step(Step(Step(Step(Step(c))))))))
  }

  const CRC32_TABLE: seq<seq<bv32>> := [
    [0x0000_0000, 0x7707_3096, 0xEE0E_612C, 0x9909_51BA, 0x076D_C419, 0x706A_F48F, 0xE963_A535, 0x9E64_95A3,
     0x0EDB_8832, 0x79DC_B8A4, 0xE0D5_E91E, 0x97D2_D988, 0x09B6_4C2B, 0x7EB1_7CBD, 0xE7B8_2D07, 0x90BF_1D91],
    [0x1DB7_1064, 0x6AB0_20F2, 0xF3B9_7148, 0x84BE_41DE, 0x1ADA_D47D, 0x6DDD_E4EB, 0xF4D4_B551, 0x83D3_85C7,
     0x136C_9856, 0x646B_A8C0, 0xFD62_F97A, 0x8A65_C9EC, 0x1401_5C4F, 0x6306_6CD9, 0xFA0F_3D63, 0x8D08_0DF5],
    [0x3B6E_20C8, 0x4C69_105E, 0xD560_41E4, 0xA267_7172, 0x3C03_E4D1, 0x4B04_D447, 0xD20D_85FD, 0xA50A_B56B,
     0x35B5_A8FA, 0x42B2_986C, 0xDBBB_C9D6, 0xACBC_F940, 0x32D8_6CE3, 0x45DF_5C75, 0xDCD6_0DCF, 0xABD1_3D59],
    [0x26D9_30AC, 0x51DE_003A, 0xC8D7_5180, 0xBFD0_6116, 0x21B4_F4B5, 0x56B3_C423, 0xCFBA_9599, 0xB8BD_A50F,
     0x2802_B89E, 0x5F05_8808, 0xC60C_D9B2, 0xB10B_E924, 0x2F6F_7C87, 0x5868_4C11, 0xC161_1DAB, 0xB666_2D3D],
    [0x76DC_4190, 0x01DB_7106, 0x98D2_20BC, 0xEFD5_102A, 0x71B1_8589, 0x06B6_B51F, 0x9FBF_E4A5, 0xE8B8_D433,
     0x7807_C9A2, 0x0F00_F934, 0x9609_A88E, 0xE10E_9818, 0x7F6A_0DBB, 0x086D_3D2D, 0x9164_6C97, 0xE663_5C01],
    [0x6B6B_51F4, 0x1C6C_6162, 0x8565_30D8, 0xF262_004E, 0x6C06_95ED, 0x1B01_A57B, 0x8208_F4C1, 0xF50F_C457,
     0x65B0_D9C6, 0x12B7_E950, 0x8BBE_B8EA, 0xFCB9_887C, 0x62DD_1DDF, 0x15DA_2D49, 0x8CD3_7CF3, 0xFBD4_4C65],
    [0x4DB2_6158, 0x3AB5_51CE, 0xA3BC_0074, 0xD4BB_30E2, 0x4ADF_A541, 0x3DD8_95D7, 0xA4D1_C46D, 0xD3D6_F4FB,
     0x4369_E96A, 0x346E_D9FC, 0xAD67_8846, 0xDA60_B8D0, 0x4404_2D73, 0x3303_1DE5, 0xAA0A_4C5F, 0xDD0D_7CC9],
    [0x5005_713C, 0x2702_41AA, 0xBE0B_1010, 0xC90C_2086, 0x5768_B525, 0x206F_85B3, 0xB966_D409, 0xCE61_E49F,
     0x5EDE_F90E, 0x29D9_C998, 0xB0D0_9822, 0xC7D7_A8B4, 0x59B3_3D17, 0x2EB4_0D81, 0xB7BD_5C3B, 0xC0BA_6CAD],
    [0xEDB8_8320, 0x9ABF_B3B6, 0x03B6_E20C, 0x74B1_D29A, 0xEAD5_4739, 0x9DD2_77AF, 0x04DB_2615, 0x73DC_1683,
     0xE363_0B12, 0x9464_3B84, 0x0D6D_6A3E, 0x7A6A_5AA8, 0xE40E_CF0B, 0x9309_FF9D, 0x0A00_AE27, 0x7D07_9EB1],
    [0xF00F_9344, 0x8708_A3D2, 0x1E01_F268, 0x6906_C2FE, 0xF762_575D, 0x8065_67CB, 0x196C_3671, 0x6E6B_06E7,
     0xFED4_1B76, 0x89D3_2BE0, 0x10DA_7A5A, 0x67DD_4ACC, 0xF9B9_DF6F, 0x8EBE_EFF9, 0x17B7_BE43, 0x60B0_8ED5],
    [0xD6D6_A3E8, 0xA1D1_937E, 0x38D8_C2C4, 0x4FDF_F252, 0xD1BB_67F1, 0xA6BC_5767, 0x3FB5_06DD, 0x48B2_364B,
     0xD80D_2BDA, 0xAF0A_1B4C, 0x3603_4AF6, 0x4104_7A60, 0xDF60_EFC3, 0xA867_DF55, 0x316E_8EEF, 0x4669_BE79],
    [0xCB61_B38C, 0xBC66_831A, 0x256F_D2A0, 0x5268_E236, 0xCC0C_7795, 0xBB0B_4703, 0x2202_16B9, 0x5505_262F,
     0xC5BA_3BBE, 0xB2BD_0B28, 0x2BB4_5A92, 0x5CB3_6A04, 0xC2D7_FFA7, 0xB5D0_CF31, 0x2CD9_9E8B, 0x5BDE_AE1D],
    [0x9B64_C2B0, 0xEC63_F226, 0x756A_A39C, 0x026D_930A, 0x9C09_06A9, 0xEB0E_363F, 0x7207_6785, 0x0500_5713,
     0x95BF_4A82, 0xE2B8_7A14, 0x7BB1_2BAE, 0x0CB6_1B38, 0x92D2_8E9B, 0xE5D5_BE0D, 0x7CDC_EFB7, 0x0BDB_DF21],
    [0x86D3_D2D4, 0xF1D4_E242, 0x68DD_B3F8, 0x1FDA_836E, 0x81BE_16CD, 0xF6B9_265B, 0x6FB0_77E1, 0x18B7_4777,
     0x8808_5AE6, 0xFF0F_6A70, 0x6606_3BCA, 0x1101_0B5C, 0x8F65_9EFF, 0xF862_AE69, 0x616B_FFD3, 0x166C_CF45],
    [0xA00A_E278, 0xD70D_D2EE, 0x4E04_8354, 0x3903_B3C2, 0xA767_2661, 0xD060_16F7, 0x4969_474D, 0x3E6E_77DB,
     0xAED1_6A4A, 0xD9D6_5ADC, 0x40DF_0B66, 0x37D8_3BF0, 0xA9BC_AE53, 0xDEBB_9EC5, 0x47B2_CF7F, 0x30B5_FFE9],
    [0xBDBD_F21C, 0xCABA_C28A, 0x53B3_9330, 0x24B4_A3A6, 0xBAD0_3605, 0xCDD7_0693, 0x54DE_5729, 0x23D9_67BF,
     0xB366_7A2E, 0xC461_4AB8, 0x5D68_1B02, 0x2A6F_2B94, 0xB40B_BE37, 0xC30C_8EA1, 0x5A05_DF1B, 0x2D02_EF8D]
  ]

  /** The table has sixteen rows of sixteen entries. */
  lemma TableShape()
    ensures |CRC32_TABLE| == 16 && forall r :: 0 <= r < 16 ==> |CRC32_TABLE[r]| == 16
  {
    forall r | 0 <= r < 16
      ensures |CRC32_TABLE[r]| == 16
    {
      assert r == 0 || r == 1 || r == 2 || r == 3 || r == 4 || r == 5 || r == 6 || r == 7 || r == 8 || r == 9 || r == 10 || r == 11 || r == 12 || r == 13 || r == 14 || r == 15;
    }
  }

  /** Row 0 of the table holds the reductions of 0x00 to 0x0F. */
  lemma TableRow0()
    ensures CRC32_TABLE[0] == [Reduce8(0x00), Reduce8(0x01), Reduce8(0x02), Reduce8(0x03), Reduce8(0x04), Reduce8(0x05), Reduce8(0x06), Reduce8(0x07),
      Reduce8(0x08), Reduce8(0x09), Reduce8(0x0A), Reduce8(0x0B), Reduce8(0x0C), Reduce8(0x0D), Reduce8(0x0E), Reduce8(0x0F)]
  {
  }

  lemma LookupRow0(i: bv32)
    requires 0x00 <= i <= 0x0F
    ensures (i >> 4) as int == 0 && (i & 15) as int < 16
    ensures CRC32_TABLE[0][(i & 15) as int] == Reduce8(i)
  {
    TableRow0();
    assert i == 0x00 || i == 0x01 || i == 0x02 || i == 0x03 || i == 0x04 || i == 0x05 || i == 0x06 || i == 0x07 || i == 0x08 || i == 0x09 || i == 0x0A || i == 0x0B || i == 0x0C || i == 0x0D || i == 0x0E || i == 0x0F;
  }

  /** Row 1 of the table holds the reductions of 0x10 to 0x1F. */
  lemma TableRow1()
    ensures CRC32_TABLE[1] == [Reduce8(0x10), Reduce8(0x11), Reduce8(0x12), Reduce8(0x13), Reduce8(0x14), Reduce8(0x15), Reduce8(0x16), Reduce8(0x17),
      Reduce8(0x18), Reduce8(0x19), Reduce8(0x1A), Reduce8(0x1B), Reduce8(0x1C), Reduce8(0x1D), Reduce8(0x1E), Reduce8(0x1F)]
  {
  }

  lemma LookupRow1(i: bv32)
    requires 0x10 <= i <= 0x1F
    ensures (i >> 4) as int == 1 && (i & 15) as int < 16
    ensures CRC32_TABLE[1][(i & 15) as int] == Reduce8(i)
  {
    TableRow1();
    assert i == 0x10 || i == 0x11 || i == 0x12 || i == 0x13 || i == 0x14 || i == 0x15 || i == 0x16 || i == 0x17 || i == 0x18 || i == 0x19 || i == 0x1A || i == 0x1B || i == 0x1C || i == 0x1D || i == 0x1E || i == 0x1F;
  }

  /** Row 2 of the table holds the reductions of 0x20 to 0x2F. */
  lemma TableRow2()
    ensures CRC32_TABLE[2] == [Reduce8(0x20), Reduce8(0x21), Reduce8(0x22), Reduce8(0x23), Reduce8(0x24), Reduce8(0x25), Reduce8(0x26), Reduce8(0x27),
      Reduce8(0x28), Reduce8(0x29), Reduce8(0x2A), Reduce8(0x2B), Reduce8(0x2C), Reduce8(0x2D), Reduce8(0x2E), Reduce8(0x2F)]
  {
  }

  lemma LookupRow2(i: bv32)
    requires 0x20 <= i <= 0x2F
    ensures (i >> 4) as int == 2 && (i & 15) as int < 16
    ensures CRC32_TABLE[2][(i & 15) as int] == Reduce8(i)
  {
    TableRow2();
    assert i == 0x20 || i == 0x21 || i == 0x22 || i == 0x23 || i == 0x24 || i == 0x25 || i == 0x26 || i == 0x27 || i == 0x28 || i == 0x29 || i == 0x2A || i == 0x2B || i == 0x2C || i == 0x2D || i == 0x2E || i == 0x2F;
  }

  /** Row 3 of the table holds the reductions of 0x30 to 0x3F. */
  lemma TableRow3()
    ensures CRC32_TABLE[3] == [Reduce8(0x30), Reduce8(0x31), Reduce8(0x32), Reduce8(0x33), Reduce8(0x34), Reduce8(0x35), Reduce8(0x36), Reduce8(0x37),
      Reduce8(0x38), Reduce8(0x39), Reduce8(0x3A), Reduce8(0x3B), Reduce8(0x3C), Reduce8(0x3D), Reduce8(0x3E), Reduce8(0x3F)]
    ensures Reduce8(0x32) == 0xC8D75180 && Reduce8(0x34) == 0x21B4F4B5 && Reduce8(0x3A) == 0xC60CD9B2
  {
    assert Step(0x34) == 0x1A;
    assert Step(0x1A) == 0xD;
    assert Step(0xD) == 0xEDB88326;
    assert Step(0xEDB88326) == 0x76DC4193;
    assert Step(0x76DC4193) == 0xD6D6A3E9;
    assert Step(0xD6D6A3E9) == 0x86D3D2D4;
    assert Step(0x86D3D2D4) == 0x4369E96A;
    assert Step(0x4369E96A) == 0x21B4F4B5;
    assert Step(0x3A) == 0x1D;
    assert Step(0x1D) == 0xEDB8832E;
    assert Step(0xEDB8832E) == 0x76DC4197;
    assert Step(0x76DC4197) == 0xD6D6A3EB;
    assert Step(0xD6D6A3EB) == 0x86D3D2D5;
    assert Step(0x86D3D2D5) == 0xAED16A4A;
    assert Step(0xAED16A4A) == 0x5768B525;
    assert Step(0x5768B525) == 0xC60CD9B2;
    assert Step(0x32) == 0x19;
    assert Step(0x19) == 0xEDB8832C;
    assert Step(0xEDB8832C) == 0x76DC4196;
    assert Step(0x76DC4196) == 0x3B6E20CB;
    assert Step(0x3B6E20CB) == 0xF00F9345;
    assert Step(0xF00F9345) == 0x95BF4A82;
    assert Step(0x95BF4A82) == 0x4ADFA541;
    assert Step(0x4ADFA541) == 0xC8D75180;
  }

  lemma LookupRow3(i: bv32)
    requires 0x30 <= i <= 0x3F
    ensures (i >> 4) as int == 3 && (i & 15) as int < 16
    ensures CRC32_TABLE[3][(i & 15) as int] == Reduce8(i)
  {
    TableRow3();
    assert i == 0x30 || i == 0x31 || i == 0x32 || i == 0x33 || i == 0x34 || i == 0x35 || i == 0x36 || i == 0x37 || i == 0x38 || i == 0x39 || i == 0x3A || i == 0x3B || i == 0x3C || i == 0x3D || i == 0x3E || i == 0x3F;
  }

  /** Row 4 of the table holds the reductions of 0x40 to 0x4F. */
  lemma TableRow4()
    ensures CRC32_TABLE[4] == [Reduce8(0x40), Reduce8(0x41), Reduce8(0x42), Reduce8(0x43), Reduce8(0x44), Reduce8(0x45), Reduce8(0x46), Reduce8(0x47),
      Reduce8(0x48), Reduce8(0x49), Reduce8(0x4A), Reduce8(0x4B), Reduce8(0x4C), Reduce8(0x4D), Reduce8(0x4E), Reduce8(0x4F)]
  {
  }

  lemma LookupRow4(i: bv32)
    requires 0x40 <= i <= 0x4F
    ensures (i >> 4) as int == 4 && (i & 15) as int < 16
    ensures CRC32_TABLE[4][(i & 15) as int] == Reduce8(i)
  {
    TableRow4();
    assert i == 0x40 || i == 0x41 || i == 0x42 || i == 0x43 || i == 0x44 || i == 0x45 || i == 0x46 || i == 0x47 || i == 0x48 || i == 0x49 || i == 0x4A || i == 0x4B || i == 0x4C || i == 0x4D || i == 0x4E || i == 0x4F;
  }

  /** Row 5 of the table holds the reductions of 0x50 to 0x5F. */
  lemma TableRow5()
    ensures CRC32_TABLE[5] == [Reduce8(0x50), Reduce8(0x51), Reduce8(0x52), Reduce8(0x53), Reduce8(0x54), Reduce8(0x55), Reduce8(0x56), Reduce8(0x57),
      Reduce8(0x58), Reduce8(0x59), Reduce8(0x5A), Reduce8(0x5B), Reduce8(0x5C), Reduce8(0x5D), Reduce8(0x5E), Reduce8(0x5F)]
  {
  }

  lemma LookupRow5(i: bv32)
    requires 0x50 <= i <= 0x5F
    ensures (i >> 4) as int == 5 && (i & 15) as int < 16
    ensures CRC32_TABLE[5][(i & 15) as int] == Reduce8(i)
  {
    TableRow5();
    assert i == 0x50 || i == 0x51 || i == 0x52 || i == 0x53 || i == 0x54 || i == 0x55 || i == 0x56 || i == 0x57 || i == 0x58 || i == 0x59 || i == 0x5A || i == 0x5B || i == 0x5C || i == 0x5D || i == 0x5E || i == 0x5F;
  }

  /** Row 6 of the table holds the reductions of 0x60 to 0x6F. */
  lemma TableRow6()
    ensures CRC32_TABLE[6] == [Reduce8(0x60), Reduce8(0x61), Reduce8(0x62), Reduce8(0x63), Reduce8(0x64), Reduce8(0x65), Reduce8(0x66), Reduce8(0x67),
      Reduce8(0x68), Reduce8(0x69), Reduce8(0x6A), Reduce8(0x6B), Reduce8(0x6C), Reduce8(0x6D), Reduce8(0x6E), Reduce8(0x6F)]
  {
  }

  lemma LookupRow6(i: bv32)
    requires 0x60 <= i <= 0x6F
    ensures (i >> 4) as int == 6 && (i & 15) as int < 16
    ensures CRC32_TABLE[6][(i & 15) as int] == Reduce8(i)
  {
    TableRow6();
    assert i == 0x60 || i == 0x61 || i == 0x62 || i == 0x63 || i == 0x64 || i == 0x65 || i == 0x66 || i == 0x67 || i == 0x68 || i == 0x69 || i == 0x6A || i == 0x6B || i == 0x6C || i == 0x6D || i == 0x6E || i == 0x6F;
  }

  /** Row 7 of the table holds the reductions of 0x70 to 0x7F. */
  lemma TableRow7()
    ensures CRC32_TABLE[7] == [Reduce8(0x70), Reduce8(0x71), Reduce8(0x72), Reduce8(0x73), Reduce8(0x74), Reduce8(0x75), Reduce8(0x76), Reduce8(0x77),
      Reduce8(0x78), Reduce8(0x79), Reduce8(0x7A), Reduce8(0x7B), Reduce8(0x7C), Reduce8(0x7D), Reduce8(0x7E), Reduce8(0x7F)]
  {
  }

  lemma LookupRow7(i: bv32)
    requires 0x70 <= i <= 0x7F
    ensures (i >> 4) as int == 7 && (i & 15) as int < 16
    ensures CRC32_TABLE[7][(i & 15) as int] == Reduce8(i)
  {
    TableRow7();
    assert i == 0x70 || i == 0x71 || i == 0x72 || i == 0x73 || i == 0x74 || i == 0x75 || i == 0x76 || i == 0x77 || i == 0x78 || i == 0x79 || i == 0x7A || i == 0x7B || i == 0x7C || i == 0x7D || i == 0x7E || i == 0x7F;
  }

  /** Row 8 of the table holds the reductions of 0x80 to 0x8F. */
  lemma TableRow8()
    ensures CRC32_TABLE[8] == [Reduce8(0x80), Reduce8(0x81), Reduce8(0x82), Reduce8(0x83), Reduce8(0x84), Reduce8(0x85), Reduce8(0x86), Reduce8(0x87),
      Reduce8(0x88), Reduce8(0x89), Reduce8(0x8A), Reduce8(0x8B), Reduce8(0x8C), Reduce8(0x8D), Reduce8(0x8E), Reduce8(0x8F)]
  {
  }

  lemma LookupRow8(i: bv32)
    requires 0x80 <= i <= 0x8F
    ensures (i >> 4) as int == 8 && (i & 15) as int < 16
    ensures CRC32_TABLE[8][(i & 15) as int] == Reduce8(i)
  {
    TableRow8();
    assert i == 0x80 || i == 0x81 || i == 0x82 || i == 0x83 || i == 0x84 || i == 0x85 || i == 0x86 || i == 0x87 || i == 0x88 || i == 0x89 || i == 0x8A || i == 0x8B || i == 0x8C || i == 0x8D || i == 0x8E || i == 0x8F;
  }

  /** Row 9 of the table holds the reductions of 0x90 to 0x9F. */
  lemma TableRow9()
    ensures CRC32_TABLE[9] == [Reduce8(0x90), Reduce8(0x91), Reduce8(0x92), Reduce8(0x93), Reduce8(0x94), Reduce8(0x95), Reduce8(0x96), Reduce8(0x97),
      Reduce8(0x98), Reduce8(0x99), Reduce8(0x9A), Reduce8(0x9B), Reduce8(0x9C), Reduce8(0x9D), Reduce8(0x9E), Reduce8(0x9F)]
  {
  }

  lemma LookupRow9(i: bv32)
    requires 0x90 <= i <= 0x9F
    ensures (i >> 4) as int == 9 && (i & 15) as int < 16
    ensures CRC32_TABLE[9][(i & 15) as int] == Reduce8(i)
  {
    TableRow9();
    assert i == 0x90 || i == 0x91 || i == 0x92 || i == 0x93 || i == 0x94 || i == 0x95 || i == 0x96 || i == 0x97 || i == 0x98 || i == 0x99 || i == 0x9A || i == 0x9B || i == 0x9C || i == 0x9D || i == 0x9E || i == 0x9F;
  }

  /** Row 10 of the table holds the reductions of 0xA0 to 0xAF. */
  lemma TableRow10()
    ensures CRC32_TABLE[10] == [Reduce8(0xA0), Reduce8(0xA1), Reduce8(0xA2), Reduce8(0xA3), Reduce8(0xA4), Reduce8(0xA5), Reduce8(0xA6), Reduce8(0xA7),
      Reduce8(0xA8), Reduce8(0xA9), Reduce8(0xAA), Reduce8(0xAB), Reduce8(0xAC), Reduce8(0xAD), Reduce8(0xAE), Reduce8(0xAF)]
  {
  }

  lemma LookupRow10(i: bv32)
    requires 0xA0 <= i <= 0xAF
    ensures (i >> 4) as int == 10 && (i & 15) as int < 16
    ensures CRC32_TABLE[10][(i & 15) as int] == Reduce8(i)
  {
    TableRow10();
    assert i == 0xA0 || i == 0xA1 || i == 0xA2 || i == 0xA3 || i == 0xA4 || i == 0xA5 || i == 0xA6 || i == 0xA7 || i == 0xA8 || i == 0xA9 || i == 0xAA || i == 0xAB || i == 0xAC || i == 0xAD || i == 0xAE || i == 0xAF;
  }

  /** Row 11 of the table holds the reductions of 0xB0 to 0xBF. */
  lemma TableRow11()
    ensures CRC32_TABLE[11] == [Reduce8(0xB0), Reduce8(0xB1), Reduce8(0xB2), Reduce8(0xB3), Reduce8(0xB4), Reduce8(0xB5), Reduce8(0xB6), Reduce8(0xB7),
      Reduce8(0xB8), Reduce8(0xB9), Reduce8(0xBA), Reduce8(0xBB), Reduce8(0xBC), Reduce8(0xBD), Reduce8(0xBE), Reduce8(0xBF)]
  {
  }

  lemma LookupRow11(i: bv32)
    requires 0xB0 <= i <= 0xBF
    ensures (i >> 4) as int == 11 && (i & 15) as int < 16
    ensures CRC32_TABLE[11][(i & 15) as int] == Reduce8(i)
  {
    TableRow11();
    assert i == 0xB0 || i == 0xB1 || i == 0xB2 || i == 0xB3 || i == 0xB4 || i == 0xB5 || i == 0xB6 || i == 0xB7 || i == 0xB8 || i == 0xB9 || i == 0xBA || i == 0xBB || i == 0xBC || i == 0xBD || i == 0xBE || i == 0xBF;
  }

  /** Row 12 of the table holds the reductions of 0xC0 to 0xCF. */
  lemma TableRow12()
    ensures CRC32_TABLE[12] == [Reduce8(0xC0), Reduce8(0xC1), Reduce8(0xC2), Reduce8(0xC3), Reduce8(0xC4), Reduce8(0xC5), Reduce8(0xC6), Reduce8(0xC7),
      Reduce8(0xC8), Reduce8(0xC9), Reduce8(0xCA), Reduce8(0xCB), Reduce8(0xCC), Reduce8(0xCD), Reduce8(0xCE), Reduce8(0xCF)]
  {
  }

  lemma LookupRow12(i: bv32)
    requires 0xC0 <= i <= 0xCF
    ensures (i >> 4) as int == 12 && (i & 15) as int < 16
    ensures CRC32_TABLE[12][(i & 15) as int] == Reduce8(i)
  {
    TableRow12();
    assert i == 0xC0 || i == 0xC1 || i == 0xC2 || i == 0xC3 || i == 0xC4 || i == 0xC5 || i == 0xC6 || i == 0xC7 || i == 0xC8 || i == 0xC9 || i == 0xCA || i == 0xCB || i == 0xCC || i == 0xCD || i == 0xCE || i == 0xCF;
  }

  /** Row 13 of the table holds the reductions of 0xD0 to 0xDF. */
  lemma TableRow13()
    ensures CRC32_TABLE[13] == [Reduce8(0xD0), Reduce8(0xD1), Reduce8(0xD2), Reduce8(0xD3), Reduce8(0xD4), Reduce8(0xD5), Reduce8(0xD6), Reduce8(0xD7),
      Reduce8(0xD8), Reduce8(0xD9), Reduce8(0xDA), Reduce8(0xDB), Reduce8(0xDC), Reduce8(0xDD), Reduce8(0xDE), Reduce8(0xDF)]
  {
  }

  lemma LookupRow13(i: bv32)
    requires 0xD0 <= i <= 0xDF
    ensures (i >> 4) as int == 13 && (i & 15) as int < 16
    ensures CRC32_TABLE[13][(i & 15) as int] == Reduce8(i)
  {
    TableRow13();
    assert i == 0xD0 || i == 0xD1 || i == 0xD2 || i == 0xD3 || i == 0xD4 || i == 0xD5 || i == 0xD6 || i == 0xD7 || i == 0xD8 || i == 0xD9 || i == 0xDA || i == 0xDB || i == 0xDC || i == 0xDD || i == 0xDE || i == 0xDF;
  }

  /** Row 14 of the table holds the reductions of 0xE0 to 0xEF. */
  lemma TableRow14()
    ensures CRC32_TABLE[14] == [Reduce8(0xE0), Reduce8(0xE1), Reduce8(0xE2), Reduce8(0xE3), Reduce8(0xE4), Reduce8(0xE5), Reduce8(0xE6), Reduce8(0xE7),
      Reduce8(0xE8), Reduce8(0xE9), Reduce8(0xEA), Reduce8(0xEB), Reduce8(0xEC), Reduce8(0xED), Reduce8(0xEE), Reduce8(0xEF)]
  {
  }

  lemma LookupRow14(i: bv32)
    requires 0xE0 <= i <= 0xEF
    ensures (i >> 4) as int == 14 && (i & 15) as int < 16
    ensures CRC32_TABLE[14][(i & 15) as int] == Reduce8(i)
  {
    TableRow14();
    assert i == 0xE0 || i == 0xE1 || i == 0xE2 || i == 0xE3 || i == 0xE4 || i == 0xE5 || i == 0xE6 || i == 0xE7 || i == 0xE8 || i == 0xE9 || i == 0xEA || i == 0xEB || i == 0xEC || i == 0xED || i == 0xEE || i == 0xEF;
  }

  /** Row 15 of the table holds the reductions of 0xF0 to 0xFF. */
  lemma TableRow15()
    ensures CRC32_TABLE[15] == [Reduce8(0xF0), Reduce8(0xF1), Reduce8(0xF2), Reduce8(0xF3), Reduce8(0xF4), Reduce8(0xF5), Reduce8(0xF6), Reduce8(0xF7),
      Reduce8(0xF8), Reduce8(0xF9), Reduce8(0xFA), Reduce8(0xFB), Reduce8(0xFC), Reduce8(0xFD), Reduce8(0xFE), Reduce8(0xFF)]
  {
  }

  lemma LookupRow15(i: bv32)
    requires 0xF0 <= i <= 0xFF
    ensures (i >> 4) as int == 15 && (i & 15) as int < 16
    ensures CRC32_TABLE[15][(i & 15) as int] == Reduce8(i)
  {
    TableRow15();
    assert i == 0xF0 || i == 0xF1 || i == 0xF2 || i == 0xF3 || i == 0xF4 || i == 0xF5 || i == 0xF6 || i == 0xF7 || i == 0xF8 || i == 0xF9 || i == 0xFA || i == 0xFB || i == 0xFC || i == 0xFD || i == 0xFE || i == 0xFF;
  }

  /** Every entry of the table is the bitwise reduction of its index. */
  lemma LookupIsEntry(i: bv32)
    requires i <= 0xFF
    ensures (i >> 4) as int < 16 && (i & 15) as int < 16
    ensures CRC32_TABLE[(i >> 4) as int][(i & 15) as int] == Reduce8(i)
  {
    if i <= 0x0F {
      LookupRow0(i);
    } else if i <= 0x1F {
      LookupRow1(i);
    } else if i <= 0x2F {
      LookupRow2(i);
    } else if i <= 0x3F {
      LookupRow3(i);
    } else if i <= 0x4F {
      LookupRow4(i);
    } else if i <= 0x5F {
      LookupRow5(i);
    } else if i <= 0x6F {
      LookupRow6(i);
    } else if i <= 0x7F {
      LookupRow7(i);
    } else if i <= 0x8F {
      LookupRow8(i);
    } else if i <= 0x9F {
      LookupRow9(i);
    } else if i <= 0xAF {
      LookupRow10(i);
    } else if i <= 0xBF {
      LookupRow11(i);
    } else if i <= 0xCF {
      LookupRow12(i);
    } else if i <= 0xDF {
      LookupRow13(i);
    } else if i <= 0xEF {
      LookupRow14(i);
    } else {
      LookupRow15(i);
    }
  }

  /** `crc32table[i]`: the table entry is eight bits of division of `i`. */
  function Lookup(i: bv32): (e: bv32)
    requires i <= 0xFF
    ensures e == Reduce8(i)
  {
    LookupIsEntry(i);
    CRC32_TABLE[(i >> 4) as int][(i & 15) as int]
  }

  /** The table shortcut: eight bits of division of a register split into
      its bits above the low byte, only shifted, and its low byte, reduced. */
  lemma TableStep(c: bv32)
    ensures Reduce8(c) == (c >> 8) ^ Reduce8(c & 0xFF)
  {
  }

  /** The register after the bytes of `buf`, divided bit by bit from `crc`. */
  function Update(crc: bv32, buf: seq<bv8>): bv32
  {
    if buf == [] then crc
    else Reduce8(Update(crc, buf[..|buf| - 1]) ^ buf[|buf| - 1] as bv32)
  }

  /** CRC-32 of `buf`. */
  function Crc(buf: seq<bv8>): bv32
  {
    Update(0xFFFF_FFFF, buf) ^ 0xFFFF_FFFF
  }

  /** XORing a byte into the register leaves its bits above the low byte
      alone. */
  lemma HighBits(crc: bv32, b: bv32)
    requires b <= 0xFF
    ensures (crc ^ b) >> 8 == crc >> 8
  {
  }

  /** One iteration of the loop of `crc32` on byte `b`: the table step from
      `crc` is eight bits of division of `crc ^ b`. */
  lemma ByteStep(crc: bv32, b: bv32, x: bv32, e: bv32, u: bv32)
    requires b <= 0xFF && x == crc ^ b
    requires e == Reduce8(x & 0xFF) && u == Reduce8(x)
    ensures (crc >> 8) ^ e == u
  {
    HighBits(crc, b);
    TableStep(x);
  }

  /** `Update` on a non-empty buffer is eight bits of division after the
      register of all but the last byte picks up that byte. */
  lemma UpdateLast(all: seq<bv8>, init: seq<bv8>, u: bv32, y: bv32)
    requires all != [] && all[..|all| - 1] == init
    requires u == Update(0xFFFF_FFFF, init) && y == u ^ all[|all| - 1] as bv32
    ensures Update(0xFFFF_FFFF, all) == Reduce8(y)
  {
  }

  /** The register after `k + 1` bytes, from the register after `k`. */
  lemma UpdateNext(buf: seq<bv8>, k: nat, crc: bv32, x: bv32)
    requires k < |buf| && crc == Update(0xFFFF_FFFF, buf[..k])
    requires x == crc ^ buf[k] as bv32
    ensures Update(0xFFFF_FFFF, buf[..k + 1]) == Reduce8(x)
  {
    assert buf[..k + 1][..k] == buf[..k];
    UpdateLast(buf[..k + 1], buf[..k], crc, x);
  }

  /** The loop of `crc32` keeps `crc` the register after the first `k`
      bytes: the table step on byte `k` is the next byte of `Update`. */
  lemma LoopStep(buf: seq<bv8>, k: nat, crc: bv32, x: bv32, e: bv32)
    requires k < |buf| && crc == Update(0xFFFF_FFFF, buf[..k])
    requires x == crc ^ buf[k] as bv32 && e == Reduce8(x & 0xFF)
    ensures (crc >> 8) ^ e == Update(0xFFFF_FFFF, buf[..k + 1])
  {
    UpdateNext(buf, k, crc, x);
    ByteStep(crc, buf[k] as bv32, x, e, Update(0xFFFF_FFFF, buf[..k + 1]));
  }

  /** `crc32`: the table-driven loop computes the CRC-32 of the buffer. */
  method Crc32(buf: seq<bv8>) returns (r: bv32)
    ensures r == Crc(buf)
  {
    var crc: bv32 := 0xFFFF_FFFF;
    var k := 0;
    while k < |buf|
      invariant k <= |buf|
      invariant crc == Update(0xFFFF_FFFF, buf[..k])
    {
      var x := crc ^ buf[k] as bv32;
      var e := Lookup(x & 0xFF);
      LoopStep(buf, k, crc, x, e);
      crc := (crc >> 8) ^ e;
      k := k + 1;
    }
    assert buf[..k] == buf;
    r := crc ^ 0xFFFF_FFFF;
  }
}
