/** CRC-32 of boot0: one table look-up per byte, against the bit-at-a-time definition of
    section 8 of RFC 1952. */
module Crc32 {

  type Word = bv32
  type Byte = bv8

  // ---------------------------------------------------------------- the reference

  /** One bit of division by the reflected polynomial. */
  function BitStep(c: Word): Word {
    if c & 1 == 1 then (c >> 1) ^ 0xEDB8_8320 else c >> 1
  }

  function FourSteps(c: Word): Word {
    BitStep(BitStep(BitStep(BitStep(c))))
  }

  /** The eight bits of a byte. */
  function Eight(c: Word): Word {
    FourSteps(FourSteps(c))
  }

  /** A byte is added to the low end of the register, then eight bits are divided. */
  function ByteStep(c: Word, b: Byte): Word {
    Eight(c ^ (b as Word))
  }

  function Flip(c: Word): Word {
    c ^ 0xFFFF_FFFF
  }

  /** The CRC of section 8 of RFC 1952. */
  function Crc(data: seq<Byte>): Word {
    Flip(Fold(ByteStep, 0xFFFF_FFFF, data))
  }

  // ---------------------------------------------------------------- registers fed by a sequence

  /** The register after every item of a sequence has been fed to it. */
  function Fold<W, B>(step: (W, B) -> W, c: W, data: seq<B>): W
    decreases |data|
  {
    if data == [] then c else Fold(step, step(c, data[0]), data[1..])
  }

  lemma {:induction false} FoldConcat<W, B>(step: (W, B) -> W, c: W, a: seq<B>, b: seq<B>)
    ensures Fold(step, c, a + b) == Fold(step, Fold(step, c, a), b)
    decreases |a|
  {
    if a == [] {
      assert a + b == b;
    } else {
      assert (a + b)[0] == a[0] && (a + b)[1..] == a[1..] + b;
      FoldConcat(step, step(c, a[0]), a[1..], b);
    }
  }

  ghost predicate NeverMerges<W(!new), B(!new)>(step: (W, B) -> W) {
    forall c, d, b :: step(c, b) == step(d, b) ==> c == d
  }

  /** Equal items never merge distinct registers. */
  lemma {:induction false} FoldInjective<W(!new), B(!new)>(step: (W, B) -> W, c: W, d: W, data: seq<B>)
    requires NeverMerges(step) && Fold(step, c, data) == Fold(step, d, data)
    ensures c == d
    decreases |data|
  {
    if data != [] {
      FoldInjective(step, step(c, data[0]), step(d, data[0]), data[1..]);
    }
  }

  lemma FoldFour<W, B>(step: (W, B) -> W, c: W, data: seq<B>, r1: W, r2: W, r3: W, r4: W)
    requires |data| == 4
    requires r1 == step(c, data[0]) && r2 == step(r1, data[1]) && r3 == step(r2, data[2]) && r4 == step(r3, data[3])
    ensures Fold(step, c, data) == r4
  {
    assert data[1..][1..] == data[2..] && data[2..][1..] == data[3..] && data[3..][1..] == [];
    assert Fold(step, r3, data[3..]) == r4;
    assert Fold(step, r2, data[2..]) == Fold(step, r3, data[3..]);
    assert Fold(step, r1, data[1..]) == Fold(step, r2, data[2..]);
  }

  /** A difference in the middle that still shows after it shows at the end. */
  lemma FoldSpreads<W(!new), B(!new)>(step: (W, B) -> W, c: W, before: seq<B>, a: seq<B>, b: seq<B>, after: seq<B>)
    requires NeverMerges(step)
    requires Fold(step, c, before + a + after) == Fold(step, c, before + b + after)
    ensures Fold(step, Fold(step, c, before), a) == Fold(step, Fold(step, c, before), b)
  {
    FoldConcat(step, c, before, a);
    FoldConcat(step, c, before, b);
    FoldConcat(step, c, before + a, after);
    FoldConcat(step, c, before + b, after);
    FoldInjective(step, Fold(step, c, before + a), Fold(step, c, before + b), after);
  }

  // ---------------------------------------------------------------- the table

  function Row0(low: Word): Word {
    match low
    case 0x0 => 0x0000_0000 case 0x1 => 0x7707_3096 case 0x2 => 0xEE0E_612C case 0x3 => 0x9909_51BA
    case 0x4 => 0x076D_C419 case 0x5 => 0x706A_F48F case 0x6 => 0xE963_A535 case 0x7 => 0x9E64_95A3
    case 0x8 => 0x0EDB_8832 case 0x9 => 0x79DC_B8A4 case 0xA => 0xE0D5_E91E case 0xB => 0x97D2_D988
    case 0xC => 0x09B6_4C2B case 0xD => 0x7EB1_7CBD case 0xE => 0xE7B8_2D07 case _ => 0x90BF_1D91
  }

  function Row1(low: Word): Word {
    match low
    case 0x0 => 0x1DB7_1064 case 0x1 => 0x6AB0_20F2 case 0x2 => 0xF3B9_7148 case 0x3 => 0x84BE_41DE
    case 0x4 => 0x1ADA_D47D case 0x5 => 0x6DDD_E4EB case 0x6 => 0xF4D4_B551 case 0x7 => 0x83D3_85C7
    case 0x8 => 0x136C_9856 case 0x9 => 0x646B_A8C0 case 0xA => 0xFD62_F97A case 0xB => 0x8A65_C9EC
    case 0xC => 0x1401_5C4F case 0xD => 0x6306_6CD9 case 0xE => 0xFA0F_3D63 case _ => 0x8D08_0DF5
  }

  function Row2(low: Word): Word {
    match low
    case 0x0 => 0x3B6E_20C8 case 0x1 => 0x4C69_105E case 0x2 => 0xD560_41E4 case 0x3 => 0xA267_7172
    case 0x4 => 0x3C03_E4D1 case 0x5 => 0x4B04_D447 case 0x6 => 0xD20D_85FD case 0x7 => 0xA50A_B56B
    case 0x8 => 0x35B5_A8FA case 0x9 => 0x42B2_986C case 0xA => 0xDBBB_C9D6 case 0xB => 0xACBC_F940
    case 0xC => 0x32D8_6CE3 case 0xD => 0x45DF_5C75 case 0xE => 0xDCD6_0DCF case _ => 0xABD1_3D59
  }

  function Row3(low: Word): Word {
    match low
    case 0x0 => 0x26D9_30AC case 0x1 => 0x51DE_003A case 0x2 => 0xC8D7_5180 case 0x3 => 0xBFD0_6116
    case 0x4 => 0x21B4_F4B5 case 0x5 => 0x56B3_C423 case 0x6 => 0xCFBA_9599 case 0x7 => 0xB8BD_A50F
    case 0x8 => 0x2802_B89E case 0x9 => 0x5F05_8808 case 0xA => 0xC60C_D9B2 case 0xB => 0xB10B_E924
    case 0xC => 0x2F6F_7C87 case 0xD => 0x5868_4C11 case 0xE => 0xC161_1DAB case _ => 0xB666_2D3D
  }

  function Row4(low: Word): Word {
    match low
    case 0x0 => 0x76DC_4190 case 0x1 => 0x01DB_7106 case 0x2 => 0x98D2_20BC case 0x3 => 0xEFD5_102A
    case 0x4 => 0x71B1_8589 case 0x5 => 0x06B6_B51F case 0x6 => 0x9FBF_E4A5 case 0x7 => 0xE8B8_D433
    case 0x8 => 0x7807_C9A2 case 0x9 => 0x0F00_F934 case 0xA => 0x9609_A88E case 0xB => 0xE10E_9818
    case 0xC => 0x7F6A_0DBB case 0xD => 0x086D_3D2D case 0xE => 0x9164_6C97 case _ => 0xE663_5C01
  }

  function Row5(low: Word): Word {
    match low
    case 0x0 => 0x6B6B_51F4 case 0x1 => 0x1C6C_6162 case 0x2 => 0x8565_30D8 case 0x3 => 0xF262_004E
    case 0x4 => 0x6C06_95ED case 0x5 => 0x1B01_A57B case 0x6 => 0x8208_F4C1 case 0x7 => 0xF50F_C457
    case 0x8 => 0x65B0_D9C6 case 0x9 => 0x12B7_E950 case 0xA => 0x8BBE_B8EA case 0xB => 0xFCB9_887C
    case 0xC => 0x62DD_1DDF case 0xD => 0x15DA_2D49 case 0xE => 0x8CD3_7CF3 case _ => 0xFBD4_4C65
  }

  function Row6(low: Word): Word {
    match low
    case 0x0 => 0x4DB2_6158 case 0x1 => 0x3AB5_51CE case 0x2 => 0xA3BC_0074 case 0x3 => 0xD4BB_30E2
    case 0x4 => 0x4ADF_A541 case 0x5 => 0x3DD8_95D7 case 0x6 => 0xA4D1_C46D case 0x7 => 0xD3D6_F4FB
    case 0x8 => 0x4369_E96A case 0x9 => 0x346E_D9FC case 0xA => 0xAD67_8846 case 0xB => 0xDA60_B8D0
    case 0xC => 0x4404_2D73 case 0xD => 0x3303_1DE5 case 0xE => 0xAA0A_4C5F case _ => 0xDD0D_7CC9
  }

  function Row7(low: Word): Word {
    match low
    case 0x0 => 0x5005_713C case 0x1 => 0x2702_41AA case 0x2 => 0xBE0B_1010 case 0x3 => 0xC90C_2086
    case 0x4 => 0x5768_B525 case 0x5 => 0x206F_85B3 case 0x6 => 0xB966_D409 case 0x7 => 0xCE61_E49F
    case 0x8 => 0x5EDE_F90E case 0x9 => 0x29D9_C998 case 0xA => 0xB0D0_9822 case 0xB => 0xC7D7_A8B4
    case 0xC => 0x59B3_3D17 case 0xD => 0x2EB4_0D81 case 0xE => 0xB7BD_5C3B case _ => 0xC0BA_6CAD
  }

  function Row8(low: Word): Word {
    match low
    case 0x0 => 0xEDB8_8320 case 0x1 => 0x9ABF_B3B6 case 0x2 => 0x03B6_E20C case 0x3 => 0x74B1_D29A
    case 0x4 => 0xEAD5_4739 case 0x5 => 0x9DD2_77AF case 0x6 => 0x04DB_2615 case 0x7 => 0x73DC_1683
    case 0x8 => 0xE363_0B12 case 0x9 => 0x9464_3B84 case 0xA => 0x0D6D_6A3E case 0xB => 0x7A6A_5AA8
    case 0xC => 0xE40E_CF0B case 0xD => 0x9309_FF9D case 0xE => 0x0A00_AE27 case _ => 0x7D07_9EB1
  }

  function Row9(low: Word): Word {
    match low
    case 0x0 => 0xF00F_9344 case 0x1 => 0x8708_A3D2 case 0x2 => 0x1E01_F268 case 0x3 => 0x6906_C2FE
    case 0x4 => 0xF762_575D case 0x5 => 0x8065_67CB case 0x6 => 0x196C_3671 case 0x7 => 0x6E6B_06E7
    case 0x8 => 0xFED4_1B76 case 0x9 => 0x89D3_2BE0 case 0xA => 0x10DA_7A5A case 0xB => 0x67DD_4ACC
    case 0xC => 0xF9B9_DF6F case 0xD => 0x8EBE_EFF9 case 0xE => 0x17B7_BE43 case _ => 0x60B0_8ED5
  }

  function RowA(low: Word): Word {
    match low
    case 0x0 => 0xD6D6_A3E8 case 0x1 => 0xA1D1_937E case 0x2 => 0x38D8_C2C4 case 0x3 => 0x4FDF_F252
    case 0x4 => 0xD1BB_67F1 case 0x5 => 0xA6BC_5767 case 0x6 => 0x3FB5_06DD case 0x7 => 0x48B2_364B
    case 0x8 => 0xD80D_2BDA case 0x9 => 0xAF0A_1B4C case 0xA => 0x3603_4AF6 case 0xB => 0x4104_7A60
    case 0xC => 0xDF60_EFC3 case 0xD => 0xA867_DF55 case 0xE => 0x316E_8EEF case _ => 0x4669_BE79
  }

  function RowB(low: Word): Word {
    match low
    case 0x0 => 0xCB61_B38C case 0x1 => 0xBC66_831A case 0x2 => 0x256F_D2A0 case 0x3 => 0x5268_E236
    case 0x4 => 0xCC0C_7795 case 0x5 => 0xBB0B_4703 case 0x6 => 0x2202_16B9 case 0x7 => 0x5505_262F
    case 0x8 => 0xC5BA_3BBE case 0x9 => 0xB2BD_0B28 case 0xA => 0x2BB4_5A92 case 0xB => 0x5CB3_6A04
    case 0xC => 0xC2D7_FFA7 case 0xD => 0xB5D0_CF31 case 0xE => 0x2CD9_9E8B case _ => 0x5BDE_AE1D
  }

  function RowC(low: Word): Word {
    match low
    case 0x0 => 0x9B64_C2B0 case 0x1 => 0xEC63_F226 case 0x2 => 0x756A_A39C case 0x3 => 0x026D_930A
    case 0x4 => 0x9C09_06A9 case 0x5 => 0xEB0E_363F case 0x6 => 0x7207_6785 case 0x7 => 0x0500_5713
    case 0x8 => 0x95BF_4A82 case 0x9 => 0xE2B8_7A14 case 0xA => 0x7BB1_2BAE case 0xB => 0x0CB6_1B38
    case 0xC => 0x92D2_8E9B case 0xD => 0xE5D5_BE0D case 0xE => 0x7CDC_EFB7 case _ => 0x0BDB_DF21
  }

  function RowD(low: Word): Word {
    match low
    case 0x0 => 0x86D3_D2D4 case 0x1 => 0xF1D4_E242 case 0x2 => 0x68DD_B3F8 case 0x3 => 0x1FDA_836E
    case 0x4 => 0x81BE_16CD case 0x5 => 0xF6B9_265B case 0x6 => 0x6FB0_77E1 case 0x7 => 0x18B7_4777
    case 0x8 => 0x8808_5AE6 case 0x9 => 0xFF0F_6A70 case 0xA => 0x6606_3BCA case 0xB => 0x1101_0B5C
    case 0xC => 0x8F65_9EFF case 0xD => 0xF862_AE69 case 0xE => 0x616B_FFD3 case _ => 0x166C_CF45
  }

  function RowE(low: Word): Word {
    match low
    case 0x0 => 0xA00A_E278 case 0x1 => 0xD70D_D2EE case 0x2 => 0x4E04_8354 case 0x3 => 0x3903_B3C2
    case 0x4 => 0xA767_2661 case 0x5 => 0xD060_16F7 case 0x6 => 0x4969_474D case 0x7 => 0x3E6E_77DB
    case 0x8 => 0xAED1_6A4A case 0x9 => 0xD9D6_5ADC case 0xA => 0x40DF_0B66 case 0xB => 0x37D8_3BF0
    case 0xC => 0xA9BC_AE53 case 0xD => 0xDEBB_9EC5 case 0xE => 0x47B2_CF7F case _ => 0x30B5_FFE9
  }

  function RowF(low: Word): Word {
    match low
    case 0x0 => 0xBDBD_F21C case 0x1 => 0xCABA_C28A case 0x2 => 0x53B3_9330 case 0x3 => 0x24B4_A3A6
    case 0x4 => 0xBAD0_3605 case 0x5 => 0xCDD7_0693 case 0x6 => 0x54DE_5729 case 0x7 => 0x23D9_67BF
    case 0x8 => 0xB366_7A2E case 0x9 => 0xC461_4AB8 case 0xA => 0x5D68_1B02 case 0xB => 0x2A6F_2B94
    case 0xC => 0xB40B_BE37 case 0xD => 0xC30C_8EA1 case 0xE => 0x5A05_DF1B case _ => 0x2D02_EF8D
  }

  /** Entry i of the 256-entry table, by rows of 16. */
  function Table(i: Word): Word
    requires i < 256
  {
    var low := i & 0xF;
    match i >> 4
    case 0x0 => Row0(low) case 0x1 => Row1(low) case 0x2 => Row2(low) case 0x3 => Row3(low)
    case 0x4 => Row4(low) case 0x5 => Row5(low) case 0x6 => Row6(low) case 0x7 => Row7(low)
    case 0x8 => Row8(low) case 0x9 => Row9(low) case 0xA => RowA(low) case 0xB => RowB(low)
    case 0xC => RowC(low) case 0xD => RowD(low) case 0xE => RowE(low) case _ => RowF(low)
  }

  /** Every table entry is its index divided by eight bits. */
  lemma TableCorrect(i: Word)
    requires i < 256
    ensures Table(i) == Eight(i)
  {
    var low := i & 0xF;
    match i >> 4
    case 0x0 => Row0Correct(low);
    case 0x1 => Row1Correct(low);
    case 0x2 => Row2Correct(low);
    case 0x3 => Row3Correct(low);
    case 0x4 => Row4Correct(low);
    case 0x5 => Row5Correct(low);
    case 0x6 => Row6Correct(low);
    case 0x7 => Row7Correct(low);
    case 0x8 => Row8Correct(low);
    case 0x9 => Row9Correct(low);
    case 0xA => RowACorrect(low);
    case 0xB => RowBCorrect(low);
    case 0xC => RowCCorrect(low);
    case 0xD => RowDCorrect(low);
    case 0xE => RowECorrect(low);
    case _ => RowFCorrect(low);
  }

  lemma Row0Correct(low: Word)
    requires low < 16
    ensures Row0(low) == Eight(0x00 | low)
  {
  }

  lemma Row1Correct(low: Word)
    requires low < 16
    ensures Row1(low) == Eight(0x10 | low)
  {
  }

  lemma Row2Correct(low: Word)
    requires low < 16
    ensures Row2(low) == Eight(0x20 | low)
  {
  }

  lemma Row3Correct(low: Word)
    requires low < 16
    ensures Row3(low) == Eight(0x30 | low)
  {
  }

  lemma Row4Correct(low: Word)
    requires low < 16
    ensures Row4(low) == Eight(0x40 | low)
  {
  }

  lemma Row5Correct(low: Word)
    requires low < 16
    ensures Row5(low) == Eight(0x50 | low)
  {
  }

  lemma Row6Correct(low: Word)
    requires low < 16
    ensures Row6(low) == Eight(0x60 | low)
  {
  }

  lemma Row7Correct(low: Word)
    requires low < 16
    ensures Row7(low) == Eight(0x70 | low)
  {
  }

  lemma Row8Correct(low: Word)
    requires low < 16
    ensures Row8(low) == Eight(0x80 | low)
  {
  }

  lemma Row9Correct(low: Word)
    requires low < 16
    ensures Row9(low) == Eight(0x90 | low)
  {
  }

  lemma RowACorrect(low: Word)
    requires low < 16
    ensures RowA(low) == Eight(0xA0 | low)
  {
  }

  lemma RowBCorrect(low: Word)
    requires low < 16
    ensures RowB(low) == Eight(0xB0 | low)
  {
  }

  lemma RowCCorrect(low: Word)
    requires low < 16
    ensures RowC(low) == Eight(0xC0 | low)
  {
  }

  lemma RowDCorrect(low: Word)
    requires low < 16
    ensures RowD(low) == Eight(0xD0 | low)
  {
  }

  lemma RowECorrect(low: Word)
    requires low < 16
    ensures RowE(low) == Eight(0xE0 | low)
  {
  }

  lemma RowFCorrect(low: Word)
    requires low < 16
    ensures RowF(low) == Eight(0xF0 | low)
  {
  }

  // ---------------------------------------------------------------- linearity

  // The lemmas below name every intermediate word, so that each is about a handful of words.

  lemma OddOdd(x: Word, y: Word, z: Word, x1: Word, y1: Word, z1: Word)
    requires x & 1 == 1 && y & 1 == 1
    requires z == x ^ y && x1 == BitStep(x) && y1 == BitStep(y) && z1 == BitStep(z)
    ensures z1 == x1 ^ y1
  {
  }

  lemma OddEven(x: Word, y: Word, z: Word, x1: Word, y1: Word, z1: Word)
    requires x & 1 == 1 && y & 1 == 0
    requires z == x ^ y && x1 == BitStep(x) && y1 == BitStep(y) && z1 == BitStep(z)
    ensures z1 == x1 ^ y1
  {
  }

  lemma EvenOdd(x: Word, y: Word, z: Word, x1: Word, y1: Word, z1: Word)
    requires x & 1 == 0 && y & 1 == 1
    requires z == x ^ y && x1 == BitStep(x) && y1 == BitStep(y) && z1 == BitStep(z)
    ensures z1 == x1 ^ y1
  {
  }

  lemma EvenEven(x: Word, y: Word, z: Word, x1: Word, y1: Word, z1: Word)
    requires x & 1 == 0 && y & 1 == 0
    requires z == x ^ y && x1 == BitStep(x) && y1 == BitStep(y) && z1 == BitStep(z)
    ensures z1 == x1 ^ y1
  {
  }

  /** The division step is linear. */
  lemma StepLinear(x: Word, y: Word, z: Word, x1: Word, y1: Word, z1: Word)
    requires z == x ^ y && x1 == BitStep(x) && y1 == BitStep(y) && z1 == BitStep(z)
    ensures z1 == x1 ^ y1
  {
    LowBit(x);
    LowBit(y);
    if x & 1 == 1 {
      if y & 1 == 1 { OddOdd(x, y, z, x1, y1, z1); } else { OddEven(x, y, z, x1, y1, z1); }
    } else {
      if y & 1 == 1 { EvenOdd(x, y, z, x1, y1, z1); } else { EvenEven(x, y, z, x1, y1, z1); }
    }
  }

  lemma LowBit(x: Word)
    ensures x & 1 == 0 || x & 1 == 1
  {
  }

  lemma TwoLinear(x: Word, x1: Word, x2: Word, y: Word, y1: Word, y2: Word, z: Word, z1: Word, z2: Word)
    requires x1 == BitStep(x) && x2 == BitStep(x1) && y1 == BitStep(y) && y2 == BitStep(y1)
    requires z == x ^ y && z1 == BitStep(z) && z2 == BitStep(z1)
    ensures z2 == x2 ^ y2
  {
    StepLinear(x, y, z, x1, y1, z1);
    StepLinear(x1, y1, z1, x2, y2, z2);
  }

  lemma FourLinear(x: Word, y: Word, z: Word, x4: Word, y4: Word, z4: Word)
    requires z == x ^ y && x4 == FourSteps(x) && y4 == FourSteps(y) && z4 == FourSteps(z)
    ensures z4 == x4 ^ y4
  {
    var x1, y1, z1 := BitStep(x), BitStep(y), BitStep(z);
    var x2, y2, z2 := BitStep(x1), BitStep(y1), BitStep(z1);
    TwoLinear(x, x1, x2, y, y1, y2, z, z1, z2);
    TwoLinear(x2, BitStep(x2), x4, y2, BitStep(y2), y4, z2, BitStep(z2), z4);
  }

  lemma FourTwice(x: Word, y: Word, z: Word, x4: Word, y4: Word, z4: Word, x8: Word, y8: Word, z8: Word)
    requires z == x ^ y && x4 == FourSteps(x) && y4 == FourSteps(y) && z4 == FourSteps(z)
    requires x8 == FourSteps(x4) && y8 == FourSteps(y4) && z8 == FourSteps(z4)
    ensures z8 == x8 ^ y8
  {
    FourLinear(x, y, z, x4, y4, z4);
    FourLinear(x4, y4, z4, x8, y8, z8);
  }

  /** Dividing eight bits is linear. */
  lemma EightLinear(x: Word, y: Word, z: Word, x8: Word, y8: Word, z8: Word)
    requires z == x ^ y && x8 == Eight(x) && y8 == Eight(y) && z8 == Eight(z)
    ensures z8 == x8 ^ y8
  {
    FourTwice(x, y, z, FourSteps(x), FourSteps(y), FourSteps(z), x8, y8, z8);
  }

  /** Eight divisions of a word whose low byte is clear only shift it. */
  lemma EightShift(y: Word, w: Word)
    requires y < 0x100_0000 && w == y << 8
    ensures Eight(w) == y
  {
  }

  /** A word added above the low byte before eight divisions is the same word added after them. */
  lemma EightAbsorbs(x: Word, y: Word, w: Word, z: Word, x8: Word, z8: Word)
    requires y < 0x100_0000 && w == y << 8 && z == x ^ w && x8 == Eight(x) && z8 == Eight(z)
    ensures z8 == x8 ^ y
  {
    EightShift(y, w);
    EightLinear(x, w, z, x8, y, z8);
  }

  lemma StepInjective(x: Word, y: Word)
    requires BitStep(x) == BitStep(y)
    ensures x == y
  {
  }

  lemma FourInjective(x: Word, y: Word, x4: Word)
    requires x4 == FourSteps(x) && x4 == FourSteps(y)
    ensures x == y
  {
    var x1, y1 := BitStep(x), BitStep(y);
    var x2, y2 := BitStep(x1), BitStep(y1);
    StepInjective(BitStep(x2), BitStep(y2));
    StepInjective(x2, y2);
    StepInjective(x1, y1);
    StepInjective(x, y);
  }

  /** Eight divisions keep distinct registers distinct. */
  lemma EightInjective(x: Word, y: Word, x8: Word)
    requires x8 == Eight(x) && x8 == Eight(y)
    ensures x == y
  {
    var x4, y4 := FourSteps(x), FourSteps(y);
    FourInjective(x4, y4, x8);
    FourInjective(x, y, x4);
  }

  // ---------------------------------------------------------------- the code

  lemma SplitLow(x: Word, low: Word, high: Word, w: Word)
    requires low == x & 0xFF && high == x >> 8 && w == high << 8
    ensures x == low ^ w && high < 0x100_0000 && low < 256
  {
  }

  lemma HighPart(c: Word, b: Byte)
    ensures (c >> 8) & 0x00FF_FFFF == (c ^ (b as Word)) >> 8
  {
  }

  lemma XorCommutes(a: Word, b: Word)
    ensures a ^ b == b ^ a
  {
  }

  lemma LowHigh(x: Word, low: Word, high: Word, t: Word, x8: Word)
    requires low == x & 0xFF && high == x >> 8 && t == Eight(low) && x8 == Eight(x)
    ensures x8 == high ^ t
  {
    var w := high << 8;
    SplitLow(x, low, high, w);
    EightAbsorbs(low, high, w, x, t, x8);
    XorCommutes(t, high);
  }

  lemma LookUpStep(c: Word, b: Byte, x: Word, low: Word, high: Word, t: Word, r: Word, s: Word)
    requires x == c ^ (b as Word) && low == x & 0xFF && high == (c >> 8) & 0x00FF_FFFF
    requires t == Eight(low) && r == high ^ t && s == Eight(x)
    ensures r == s
  {
    HighPart(c, b);
    LowHigh(x, low, high, t, s);
  }

  /** One look-up is eight bits of division. */
  method LookUp(c: Word, b: Byte) returns (r: Word)
    ensures r == ByteStep(c, b)
  {
    var x := c ^ (b as Word);
    var low, high := x & 0xFF, (c >> 8) & 0x00FF_FFFF;
    var t := Entry(low);
    r := high ^ t;
    LookUpStep(c, b, x, low, high, t, r, ByteStep(c, b));
  }

  method Entry(i: Word) returns (t: Word)
    requires i < 256
    ensures t == Eight(i)
  {
    TableCorrect(i);
    t := Table(i);
  }

  /** `crc32_0`, which `crc32` calls: it computes the CRC of section 8 of RFC 1952 for every input. */
  method Crc32(data: seq<Byte>) returns (r: Word)
    ensures r == Crc(data)
  {
    var crc: Word := 0xFFFF_FFFF;
    var i := 0;
    while i < |data|
      invariant i <= |data| && Fold(ByteStep, crc, data[i..]) == Fold(ByteStep, 0xFFFF_FFFF, data)
    {
      var next := LookUp(crc, data[i]);
      FoldNext(ByteStep, crc, data, i, next);
      crc := next;
      i := i + 1;
    }
    assert data[i..] == [];
    r := crc ^ 0xFFFF_FFFF;
  }

  lemma FoldNext<W, B>(step: (W, B) -> W, c: W, data: seq<B>, i: nat, next: W)
    requires i < |data| && next == step(c, data[i])
    ensures Fold(step, c, data[i..]) == Fold(step, next, data[i + 1..])
  {
    assert data[i..][1..] == data[i + 1..];
  }

  // ---------------------------------------------------------------- error detection

  lemma XorCancels(a: Word, b: Word, c: Word)
    requires a ^ c == b ^ c
    ensures a == b
  {
  }

  lemma FlipInjective(x: Word, y: Word, n: Word)
    requires n == Flip(x) && n == Flip(y)
    ensures x == y
  {
  }

  lemma EightOfSum(c: Word, d: Word, w: Word, x: Word, y: Word, r: Word)
    requires x == c ^ w && y == d ^ w && r == Eight(x) && r == Eight(y)
    ensures c == d
  {
    EightInjective(x, y, r);
    XorCancels(c, d, w);
  }

  lemma ByteStepInjective(c: Word, d: Word, b: Byte, r: Word)
    requires r == ByteStep(c, b) && r == ByteStep(d, b)
    ensures c == d
  {
    EightOfSum(c, d, b as Word, c ^ (b as Word), d ^ (b as Word), r);
  }

  lemma ByteStepNeverMerges()
    ensures NeverMerges(ByteStep)
  {
    forall c, d, b | ByteStep(c, b) == ByteStep(d, b)
      ensures c == d
    {
      ByteStepInjective(c, d, b, ByteStep(c, b));
    }
  }

  /** Adding a word two bytes further on, two bytes earlier. */
  lemma LiftTwo(x: Word, y: Word, w: Word, w2: Word, x8: Word, x16: Word, v: Word, v8: Word, v16: Word)
    requires y < 0x1_0000 && w == y << 8 && w2 == w << 8 && v == x ^ w2
    requires x8 == Eight(x) && x16 == Eight(x8) && v8 == Eight(v) && v16 == Eight(v8)
    ensures v16 == x16 ^ y
  {
    assert w < 0x100_0000;
    EightAbsorbs(x, w, w2, v, x8, v8);
    EightAbsorbs(x8, y, w, v8, x16, v16);
  }

  /** Adding a byte three bytes further on, three bytes earlier. */
  lemma LiftThree(x: Word, y: Word, w: Word, w2: Word, w3: Word, x8: Word, x16: Word, x24: Word,
                  v: Word, v8: Word, v16: Word, v24: Word)
    requires y < 0x100 && w == y << 8 && w2 == w << 8 && w3 == w2 << 8 && v == x ^ w3
    requires x8 == Eight(x) && x16 == Eight(x8) && x24 == Eight(x16)
    requires v8 == Eight(v) && v16 == Eight(v8) && v24 == Eight(v16)
    ensures v24 == x24 ^ y
  {
    assert w < 0x1_0000 && w2 < 0x100_0000;
    EightAbsorbs(x, w2, w3, v, x8, v8);
    LiftTwo(x8, y, w, w2, x16, x24, v8, v16, v24);
  }

  /** Four bytes as one little-endian word. */
  function Pack(a: Word, b: Word, c: Word, d: Word): Word {
    a ^ (b << 8) ^ (c << 16) ^ (d << 24)
  }

  function PackBytes(s: seq<Byte>): Word
    requires |s| == 4
  {
    Pack(s[0] as Word, s[1] as Word, s[2] as Word, s[3] as Word)
  }

  /** What four bytes do to a register: they are added to it at once, then 32 bits are divided. */
  lemma FourBytes(x: Word, b: Word, c: Word, d: Word, e0: Word, r1: Word, e1: Word, r2: Word, e2: Word, r3: Word,
                  b1: Word, c1: Word, c2: Word, d1: Word, d2: Word, d3: Word,
                  p: Word, q: Word, v: Word, v3: Word)
    requires b < 0x100 && c < 0x100 && d < 0x100
    requires e0 == Eight(x) && e1 == Eight(r1) && e2 == Eight(r2)
    requires r1 == e0 ^ b && r2 == e1 ^ c && r3 == e2 ^ d
    requires b1 == b << 8 && c1 == c << 8 && c2 == c1 << 8 && d1 == d << 8 && d2 == d1 << 8 && d3 == d2 << 8
    requires p == x ^ b1 && q == p ^ c2 && v == q ^ d3 && v3 == Eight(Eight(Eight(v)))
    ensures r3 == v3
  {
    EightAbsorbs(x, b, b1, p, e0, Eight(p));
    LiftTwo(p, c, c1, c2, r1, e1, q, Eight(q), Eight(Eight(q)));
    LiftThree(q, d, d1, d2, d3, Eight(q), r2, e2, v, Eight(v), Eight(Eight(v)), v3);
  }

  lemma PackSum(r: Word, a: Word, b: Word, c: Word, d: Word, x: Word,
                b1: Word, c1: Word, c2: Word, d1: Word, d2: Word, d3: Word, p: Word, q: Word, v: Word)
    requires x == r ^ a && v == r ^ Pack(a, b, c, d)
    requires b1 == b << 8 && c1 == c << 8 && c2 == c1 << 8 && d1 == d << 8 && d2 == d1 << 8 && d3 == d2 << 8
    requires p == x ^ b1 && q == p ^ c2
    ensures v == q ^ d3
  {
  }

  lemma FourBytesSum(r: Word, a: Word, b: Word, c: Word, d: Word, x: Word,
                     e0: Word, r1: Word, e1: Word, r2: Word, e2: Word, r3: Word, v: Word, v3: Word)
    requires b < 0x100 && c < 0x100 && d < 0x100 && x == r ^ a && v == r ^ Pack(a, b, c, d)
    requires e0 == Eight(x) && e1 == Eight(r1) && e2 == Eight(r2)
    requires r1 == e0 ^ b && r2 == e1 ^ c && r3 == e2 ^ d && v3 == Eight(Eight(Eight(v)))
    ensures r3 == v3
  {
    var b1, c1, d1 := b << 8, c << 8, d << 8;
    var c2, d2 := c1 << 8, d1 << 8;
    var d3 := d2 << 8;
    var p := x ^ b1;
    var q := p ^ c2;
    PackSum(r, a, b, c, d, x, b1, c1, c2, d1, d2, d3, p, q, v);
    FourBytes(x, b, c, d, e0, r1, e1, r2, e2, r3, b1, c1, c2, d1, d2, d3, p, q, v, v3);
  }

  predicate Reads(s: seq<Byte>, a: Word, b: Word, c: Word, d: Word) {
    |s| == 4 && a == s[0] as Word && b == s[1] as Word && c == s[2] as Word && d == s[3] as Word
  }

  lemma ReadsBound(s: seq<Byte>, a: Word, b: Word, c: Word, d: Word)
    requires Reads(s, a, b, c, d)
    ensures a < 0x100 && b < 0x100 && c < 0x100 && d < 0x100
  {
  }

  lemma ByteIs(c: Word, b: Byte, w: Word, x: Word, e: Word)
    requires w == b as Word && x == c ^ w && e == Eight(x)
    ensures ByteStep(c, b) == e
  {
  }

  lemma FoldWords(r: Word, s: seq<Byte>, a: Word, b: Word, c: Word, d: Word, x: Word, r1: Word, r2: Word, r3: Word,
                  e0: Word, e1: Word, e2: Word, e3: Word)
    requires Reads(s, a, b, c, d) && x == r ^ a && r1 == e0 ^ b && r2 == e1 ^ c && r3 == e2 ^ d
    requires e0 == Eight(x) && e1 == Eight(r1) && e2 == Eight(r2) && e3 == Eight(r3)
    ensures Fold(ByteStep, r, s) == e3
  {
    ByteIs(r, s[0], a, x, e0);
    ByteIs(e0, s[1], b, r1, e1);
    ByteIs(e1, s[2], c, r2, e2);
    ByteIs(e2, s[3], d, r3, e3);
    FoldFour(ByteStep, r, s, e0, e1, e2, e3);
  }

  lemma SameEight(x: Word, y: Word, x8: Word, y8: Word)
    requires x == y && x8 == Eight(x) && y8 == Eight(y)
    ensures x8 == y8
  {
  }

  lemma WordsMatch(r: Word, a: Word, b: Word, c: Word, d: Word, x: Word, r1: Word, r2: Word, r3: Word,
                   e0: Word, e1: Word, e2: Word, e3: Word, v: Word, v3: Word, v4: Word)
    requires b < 0x100 && c < 0x100 && d < 0x100
    requires x == r ^ a && r1 == e0 ^ b && r2 == e1 ^ c && r3 == e2 ^ d
    requires e0 == Eight(x) && e1 == Eight(r1) && e2 == Eight(r2) && e3 == Eight(r3)
    requires v == r ^ Pack(a, b, c, d) && v3 == Eight(Eight(Eight(v))) && v4 == Eight(v3)
    ensures e3 == v4
  {
    FourBytesSum(r, a, b, c, d, x, e0, r1, e1, r2, e2, r3, v, v3);
    SameEight(r3, v3, e3, v4);
  }

  lemma FoldMeets(r: Word, s: seq<Byte>, a: Word, b: Word, c: Word, d: Word, x: Word, r1: Word, r2: Word, r3: Word,
                  e0: Word, e1: Word, e2: Word, e3: Word, v: Word, v3: Word, v4: Word)
    requires Reads(s, a, b, c, d) && x == r ^ a && r1 == e0 ^ b && r2 == e1 ^ c && r3 == e2 ^ d
    requires e0 == Eight(x) && e1 == Eight(r1) && e2 == Eight(r2) && e3 == Eight(r3)
    requires v == r ^ Pack(a, b, c, d) && v3 == Eight(Eight(Eight(v))) && v4 == Eight(v3)
    ensures Fold(ByteStep, r, s) == v4
  {
    FoldWords(r, s, a, b, c, d, x, r1, r2, r3, e0, e1, e2, e3);
    ReadsBound(s, a, b, c, d);
    WordsMatch(r, a, b, c, d, x, r1, r2, r3, e0, e1, e2, e3, v, v3, v4);
  }

  lemma FoldIsZeros(r: Word, s: seq<Byte>, a: Word, b: Word, c: Word, d: Word, v: Word, v3: Word, v4: Word)
    requires Reads(s, a, b, c, d) && v == r ^ Pack(a, b, c, d) && v3 == Eight(Eight(Eight(v))) && v4 == Eight(v3)
    ensures Fold(ByteStep, r, s) == v4
  {
    var x := r ^ a;
    var e0 := Eight(x);
    var r1 := e0 ^ b;
    var e1 := Eight(r1);
    var r2 := e1 ^ c;
    var e2 := Eight(r2);
    var r3 := e2 ^ d;
    FoldMeets(r, s, a, b, c, d, x, r1, r2, r3, e0, e1, e2, Eight(r3), v, v3, v4);
  }

  lemma ThreeInjective(x: Word, y: Word, x1: Word, y1: Word, x2: Word, y2: Word, e: Word)
    requires x1 == Eight(x) && y1 == Eight(y) && x2 == Eight(x1) && y2 == Eight(y1) && e == Eight(x2) && e == Eight(y2)
    ensures x == y
  {
    EightInjective(x2, y2, e);
    EightInjective(x1, y1, x2);
    EightInjective(x, y, x1);
  }

  lemma ZerosInjective(x: Word, y: Word, x3: Word, y3: Word, e: Word)
    requires x3 == Eight(Eight(Eight(x))) && y3 == Eight(Eight(Eight(y))) && e == Eight(x3) && e == Eight(y3)
    ensures x == y
  {
    EightInjective(x3, y3, e);
    ThreeInjective(x, y, Eight(x), Eight(y), Eight(Eight(x)), Eight(Eight(y)), x3);
  }

  lemma PackInjective(r: Word, v: Word, a: Word, b: Word, c: Word, d: Word, e: Word, f: Word, g: Word, h: Word)
    requires a < 0x100 && b < 0x100 && c < 0x100 && d < 0x100 && e < 0x100 && f < 0x100 && g < 0x100 && h < 0x100
    requires v == r ^ Pack(a, b, c, d) && v == r ^ Pack(e, f, g, h)
    ensures a == e && b == f && c == g && d == h
  {
  }

  lemma WordsMeet(r: Word, s: seq<Byte>, a: Word, b: Word, c: Word, d: Word,
                  t: seq<Byte>, e: Word, f: Word, g: Word, h: Word,
                  v: Word, v3: Word, v4: Word, w: Word, w3: Word, w4: Word, out: Word)
    requires Reads(s, a, b, c, d) && v == r ^ Pack(a, b, c, d) && v3 == Eight(Eight(Eight(v))) && v4 == Eight(v3)
    requires Reads(t, e, f, g, h) && w == r ^ Pack(e, f, g, h) && w3 == Eight(Eight(Eight(w))) && w4 == Eight(w3)
    requires out == Fold(ByteStep, r, s) && out == Fold(ByteStep, r, t)
    ensures v == w
  {
    FoldIsZeros(r, s, a, b, c, d, v, v3, v4);
    FoldIsZeros(r, t, e, f, g, h, w, w3, w4);
    ZerosInjective(v, w, v3, w3, out);
  }

  lemma WordsDistinct(r: Word, s: seq<Byte>, a: Word, b: Word, c: Word, d: Word,
                      t: seq<Byte>, e: Word, f: Word, g: Word, h: Word, v: Word, w: Word, out: Word)
    requires Reads(s, a, b, c, d) && v == r ^ Pack(a, b, c, d)
    requires Reads(t, e, f, g, h) && w == r ^ Pack(e, f, g, h)
    requires out == Fold(ByteStep, r, s) && out == Fold(ByteStep, r, t)
    ensures v == w
  {
    var v3, w3 := Eight(Eight(Eight(v))), Eight(Eight(Eight(w)));
    WordsMeet(r, s, a, b, c, d, t, e, f, g, h, v, v3, Eight(v3), w, w3, Eight(w3), out);
  }

  lemma SameByte(a: Byte, b: Byte, v: Word, w: Word)
    requires v == a as Word && w == b as Word && v == w
    ensures a == b
  {
  }

  lemma ReadsSame(s: seq<Byte>, a: Word, b: Word, c: Word, d: Word, t: seq<Byte>, e: Word, f: Word, g: Word, h: Word)
    requires Reads(s, a, b, c, d) && Reads(t, e, f, g, h) && a == e && b == f && c == g && d == h
    ensures s == t
  {
    SameByte(s[0], t[0], a, e);
    SameByte(s[1], t[1], b, f);
    SameByte(s[2], t[2], c, g);
    SameByte(s[3], t[3], d, h);
  }

  lemma FourMeet(r: Word, s: seq<Byte>, a: Word, b: Word, c: Word, d: Word,
                 t: seq<Byte>, e: Word, f: Word, g: Word, h: Word, out: Word, v: Word, w: Word)
    requires Reads(s, a, b, c, d) && Reads(t, e, f, g, h)
    requires v == r ^ Pack(a, b, c, d) && w == r ^ Pack(e, f, g, h)
    requires out == Fold(ByteStep, r, s) && out == Fold(ByteStep, r, t)
    ensures s == t
  {
    WordsDistinct(r, s, a, b, c, d, t, e, f, g, h, v, w, out);
    ReadsBound(s, a, b, c, d);
    ReadsBound(t, e, f, g, h);
    PackInjective(r, v, a, b, c, d, e, f, g, h);
    ReadsSame(s, a, b, c, d, t, e, f, g, h);
  }

  /** Four bytes are told apart by the register they leave. */
  lemma FourDistinct(r: Word, s: seq<Byte>, t: seq<Byte>)
    requires |s| == |t| == 4 && Fold(ByteStep, r, s) == Fold(ByteStep, r, t)
    ensures s == t
  {
    var a, b, c, d := s[0] as Word, s[1] as Word, s[2] as Word, s[3] as Word;
    var e, f, g, h := t[0] as Word, t[1] as Word, t[2] as Word, t[3] as Word;
    FourMeet(r, s, a, b, c, d, t, e, f, g, h, Fold(ByteStep, r, s), r ^ Pack(a, b, c, d), r ^ Pack(e, f, g, h));
  }

  /** An error confined to any four consecutive bytes always changes the CRC. */
  lemma DetectsBurst(before: seq<Byte>, a: seq<Byte>, b: seq<Byte>, after: seq<Byte>)
    requires |a| == |b| <= 4 && a != b
    ensures Crc(before + a + after) != Crc(before + b + after)
  {
    if Crc(before + a + after) == Crc(before + b + after) {
      var x, y := Fold(ByteStep, 0xFFFF_FFFF, before + a + after), Fold(ByteStep, 0xFFFF_FFFF, before + b + after);
      FlipInjective(x, y, Flip(x));
      ByteStepNeverMerges();
      FoldSpreads(ByteStep, 0xFFFF_FFFF, before, a, b, after);
      SameRegister(Fold(ByteStep, 0xFFFF_FFFF, before), a, b);
    }
  }

  lemma SameRegister(c: Word, a: seq<Byte>, b: seq<Byte>)
    requires |a| == |b| <= 4 && Fold(ByteStep, c, a) == Fold(ByteStep, c, b)
    ensures a == b
  {
    var z := seq(4 - |a|, _ => 0 as Byte);
    FoldConcat(ByteStep, c, a, z);
    FoldConcat(ByteStep, c, b, z);
    FourDistinct(c, a + z, b + z);
    assert a == (a + z)[..|a|] && b == (b + z)[..|b|];
  }

  /** In particular a change of exactly one byte is always detected. */
  lemma DetectsByte(data: seq<Byte>, i: nat, b: Byte)
    requires i < |data| && data[i] != b
    ensures Crc(data[i := b]) != Crc(data)
  {
    assert data[..i] + [data[i]] + data[i + 1..] == data;
    assert data[..i] + [b] + data[i + 1..] == data[i := b];
    DetectsBurst(data[..i], [data[i]], [b], data[i + 1..]);
  }

  lemma XorNot(c: Word, n: Word, v: Word)
    requires n == Flip(c) && v == c ^ n
    ensures v == 0xFFFF_FFFF
  {
  }

  lemma ResidueSteps(v: Word, v1: Word, v2: Word, v3: Word, v4: Word)
    requires v == 0xFFFF_FFFF && v1 == Eight(v) && v2 == Eight(v1) && v3 == Eight(v2) && v4 == Eight(v3)
    ensures v4 == 0xDEBB_20E3
  {
    FirstSteps(v, v1, v2);
    LastSteps(v2, v3, v4);
  }

  lemma FirstSteps(v: Word, v1: Word, v2: Word)
    requires v == 0xFFFF_FFFF && v1 == Eight(v) && v2 == Eight(v1)
    ensures v2 == 0xBE26_ED00
  {
    assert v1 == 0x2DFD_1072;
  }

  lemma LastSteps(v2: Word, v3: Word, v4: Word)
    requires v2 == 0xBE26_ED00 && v3 == Eight(v2) && v4 == Eight(v3)
    ensures v4 == 0xDEBB_20E3
  {
    assert v3 == 0x00BE_26ED;
  }

  /** A register followed by its own complement, low byte first, leaves a constant. */
  lemma FoldComplement(r: Word, s: seq<Byte>, a: Word, b: Word, c: Word, d: Word, n: Word, v: Word,
                       v1: Word, v2: Word, v3: Word, v4: Word)
    requires Reads(s, a, b, c, d) && n == Flip(r) && n == Pack(a, b, c, d) && v == r ^ n
    requires v1 == Eight(v) && v2 == Eight(v1) && v3 == Eight(v2) && v4 == Eight(v3)
    ensures Fold(ByteStep, r, s) == 0xDEBB_20E3
  {
    XorNot(r, n, v);
    ResidueSteps(v, v1, v2, v3, v4);
    FoldIsZeros(r, s, a, b, c, d, v, v3, v4);
  }

  lemma FoldTail(r: Word, s: seq<Byte>, n: Word)
    requires |s| == 4 && n == Flip(r) && n == PackBytes(s)
    ensures Fold(ByteStep, r, s) == 0xDEBB_20E3
  {
    var a, b, c, d := s[0] as Word, s[1] as Word, s[2] as Word, s[3] as Word;
    var v := r ^ n;
    var v1 := Eight(v);
    var v2 := Eight(v1);
    var v3 := Eight(v2);
    FoldComplement(r, s, a, b, c, d, n, v, v1, v2, v3, Eight(v3));
  }

  lemma FoldTwice(data: seq<Byte>, tail: seq<Byte>, c: Word, n: Word)
    requires |tail| == 4 && c == Fold(ByteStep, 0xFFFF_FFFF, data) && n == Flip(c) && n == PackBytes(tail)
    ensures Fold(ByteStep, 0xFFFF_FFFF, data + tail) == 0xDEBB_20E3
  {
    FoldConcat(ByteStep, 0xFFFF_FFFF, data, tail);
    FoldTail(c, tail, n);
  }

  lemma LastXor(w: Word, n: Word)
    requires w == 0xDEBB_20E3 && n == Flip(w)
    ensures n == 0x2144_DF1C
  {
  }

  lemma ResidueWords(data: seq<Byte>, tail: seq<Byte>, c: Word, n: Word, w: Word, m: Word)
    requires |tail| == 4 && c == Fold(ByteStep, 0xFFFF_FFFF, data) && n == Flip(c) && n == PackBytes(tail)
    requires w == Fold(ByteStep, 0xFFFF_FFFF, data + tail) && m == Flip(w)
    ensures m == 0x2144_DF1C
  {
    FoldTwice(data, tail, c, n);
    LastXor(w, m);
  }

  /** A message followed by its own CRC, low byte first, has the same CRC whatever the message. */
  lemma Residue(data: seq<Byte>, tail: seq<Byte>)
    requires |tail| == 4 && PackBytes(tail) == Crc(data)
    ensures Crc(data + tail) == 0x2144_DF1C
  {
    var c, w := Fold(ByteStep, 0xFFFF_FFFF, data), Fold(ByteStep, 0xFFFF_FFFF, data + tail);
    var n, m := Flip(c), Flip(w);
    ResidueWords(data, tail, c, n, w, m);
  }
}
