/** The table of ucl_crc32, in rows of sixteen entries, and what its entries are. */
module CrcTable {
  const POLY: bv32 := 0xedb8_8320

  /** One step of the division by the reflected polynomial. */
  function Step(c: bv32): bv32 { if c & 1 == 1 then (c >> 1) ^ POLY else c >> 1 }

  function Steps2(c: bv32): bv32 { Step(Step(c)) }

  function Steps4(c: bv32): bv32 { Steps2(Steps2(c)) }

  function Steps8(c: bv32): bv32 { Steps4(Steps4(c)) }

  function Row0(i: bv32): bv32
  {
    match i
    case 0 => 0x0000_0000 case 1 => 0x7707_3096 case 2 => 0xee0e_612c case 3 => 0x9909_51ba
    case 4 => 0x076d_c419 case 5 => 0x706a_f48f case 6 => 0xe963_a535 case 7 => 0x9e64_95a3
    case 8 => 0x0edb_8832 case 9 => 0x79dc_b8a4 case 10 => 0xe0d5_e91e case 11 => 0x97d2_d988
    case 12 => 0x09b6_4c2b case 13 => 0x7eb1_7cbd case 14 => 0xe7b8_2d07 case _ => 0x90bf_1d91
  }

  lemma Row0Is(i: bv32)
    requires i < 16
    ensures Row0(i) == Steps8(0x00 ^ i)
  {
  }

  function Row1(i: bv32): bv32
  {
    match i
    case 0 => 0x1db7_1064 case 1 => 0x6ab0_20f2 case 2 => 0xf3b9_7148 case 3 => 0x84be_41de
    case 4 => 0x1ada_d47d case 5 => 0x6ddd_e4eb case 6 => 0xf4d4_b551 case 7 => 0x83d3_85c7
    case 8 => 0x136c_9856 case 9 => 0x646b_a8c0 case 10 => 0xfd62_f97a case 11 => 0x8a65_c9ec
    case 12 => 0x1401_5c4f case 13 => 0x6306_6cd9 case 14 => 0xfa0f_3d63 case _ => 0x8d08_0df5
  }

  lemma Row1Is(i: bv32)
    requires i < 16
    ensures Row1(i) == Steps8(0x10 ^ i)
  {
  }

  function Row2(i: bv32): bv32
  {
    match i
    case 0 => 0x3b6e_20c8 case 1 => 0x4c69_105e case 2 => 0xd560_41e4 case 3 => 0xa267_7172
    case 4 => 0x3c03_e4d1 case 5 => 0x4b04_d447 case 6 => 0xd20d_85fd case 7 => 0xa50a_b56b
    case 8 => 0x35b5_a8fa case 9 => 0x42b2_986c case 10 => 0xdbbb_c9d6 case 11 => 0xacbc_f940
    case 12 => 0x32d8_6ce3 case 13 => 0x45df_5c75 case 14 => 0xdcd6_0dcf case _ => 0xabd1_3d59
  }

  lemma Row2Is(i: bv32)
    requires i < 16
    ensures Row2(i) == Steps8(0x20 ^ i)
  {
  }

  function Row3(i: bv32): bv32
  {
    match i
    case 0 => 0x26d9_30ac case 1 => 0x51de_003a case 2 => 0xc8d7_5180 case 3 => 0xbfd0_6116
    case 4 => 0x21b4_f4b5 case 5 => 0x56b3_c423 case 6 => 0xcfba_9599 case 7 => 0xb8bd_a50f
    case 8 => 0x2802_b89e case 9 => 0x5f05_8808 case 10 => 0xc60c_d9b2 case 11 => 0xb10b_e924
    case 12 => 0x2f6f_7c87 case 13 => 0x5868_4c11 case 14 => 0xc161_1dab case _ => 0xb666_2d3d
  }

  lemma Row3Is(i: bv32)
    requires i < 16
    ensures Row3(i) == Steps8(0x30 ^ i)
  {
  }

  function Row4(i: bv32): bv32
  {
    match i
    case 0 => 0x76dc_4190 case 1 => 0x01db_7106 case 2 => 0x98d2_20bc case 3 => 0xefd5_102a
    case 4 => 0x71b1_8589 case 5 => 0x06b6_b51f case 6 => 0x9fbf_e4a5 case 7 => 0xe8b8_d433
    case 8 => 0x7807_c9a2 case 9 => 0x0f00_f934 case 10 => 0x9609_a88e case 11 => 0xe10e_9818
    case 12 => 0x7f6a_0dbb case 13 => 0x086d_3d2d case 14 => 0x9164_6c97 case _ => 0xe663_5c01
  }

  lemma Row4Is(i: bv32)
    requires i < 16
    ensures Row4(i) == Steps8(0x40 ^ i)
  {
  }

  function Row5(i: bv32): bv32
  {
    match i
    case 0 => 0x6b6b_51f4 case 1 => 0x1c6c_6162 case 2 => 0x8565_30d8 case 3 => 0xf262_004e
    case 4 => 0x6c06_95ed case 5 => 0x1b01_a57b case 6 => 0x8208_f4c1 case 7 => 0xf50f_c457
    case 8 => 0x65b0_d9c6 case 9 => 0x12b7_e950 case 10 => 0x8bbe_b8ea case 11 => 0xfcb9_887c
    case 12 => 0x62dd_1ddf case 13 => 0x15da_2d49 case 14 => 0x8cd3_7cf3 case _ => 0xfbd4_4c65
  }

  lemma Row5Is(i: bv32)
    requires i < 16
    ensures Row5(i) == Steps8(0x50 ^ i)
  {
  }

  function Row6(i: bv32): bv32
  {
    match i
    case 0 => 0x4db2_6158 case 1 => 0x3ab5_51ce case 2 => 0xa3bc_0074 case 3 => 0xd4bb_30e2
    case 4 => 0x4adf_a541 case 5 => 0x3dd8_95d7 case 6 => 0xa4d1_c46d case 7 => 0xd3d6_f4fb
    case 8 => 0x4369_e96a case 9 => 0x346e_d9fc case 10 => 0xad67_8846 case 11 => 0xda60_b8d0
    case 12 => 0x4404_2d73 case 13 => 0x3303_1de5 case 14 => 0xaa0a_4c5f case _ => 0xdd0d_7cc9
  }

  lemma Row6Is(i: bv32)
    requires i < 16
    ensures Row6(i) == Steps8(0x60 ^ i)
  {
  }

  function Row7(i: bv32): bv32
  {
    match i
    case 0 => 0x5005_713c case 1 => 0x2702_41aa case 2 => 0xbe0b_1010 case 3 => 0xc90c_2086
    case 4 => 0x5768_b525 case 5 => 0x206f_85b3 case 6 => 0xb966_d409 case 7 => 0xce61_e49f
    case 8 => 0x5ede_f90e case 9 => 0x29d9_c998 case 10 => 0xb0d0_9822 case 11 => 0xc7d7_a8b4
    case 12 => 0x59b3_3d17 case 13 => 0x2eb4_0d81 case 14 => 0xb7bd_5c3b case _ => 0xc0ba_6cad
  }

  lemma Row7Is(i: bv32)
    requires i < 16
    ensures Row7(i) == Steps8(0x70 ^ i)
  {
  }

  function Row8(i: bv32): bv32
  {
    match i
    case 0 => 0xedb8_8320 case 1 => 0x9abf_b3b6 case 2 => 0x03b6_e20c case 3 => 0x74b1_d29a
    case 4 => 0xead5_4739 case 5 => 0x9dd2_77af case 6 => 0x04db_2615 case 7 => 0x73dc_1683
    case 8 => 0xe363_0b12 case 9 => 0x9464_3b84 case 10 => 0x0d6d_6a3e case 11 => 0x7a6a_5aa8
    case 12 => 0xe40e_cf0b case 13 => 0x9309_ff9d case 14 => 0x0a00_ae27 case _ => 0x7d07_9eb1
  }

  lemma Row8Is(i: bv32)
    requires i < 16
    ensures Row8(i) == Steps8(0x80 ^ i)
  {
  }

  function Row9(i: bv32): bv32
  {
    match i
    case 0 => 0xf00f_9344 case 1 => 0x8708_a3d2 case 2 => 0x1e01_f268 case 3 => 0x6906_c2fe
    case 4 => 0xf762_575d case 5 => 0x8065_67cb case 6 => 0x196c_3671 case 7 => 0x6e6b_06e7
    case 8 => 0xfed4_1b76 case 9 => 0x89d3_2be0 case 10 => 0x10da_7a5a case 11 => 0x67dd_4acc
    case 12 => 0xf9b9_df6f case 13 => 0x8ebe_eff9 case 14 => 0x17b7_be43 case _ => 0x60b0_8ed5
  }

  lemma Row9Is(i: bv32)
    requires i < 16
    ensures Row9(i) == Steps8(0x90 ^ i)
  {
  }

  function Rowa(i: bv32): bv32
  {
    match i
    case 0 => 0xd6d6_a3e8 case 1 => 0xa1d1_937e case 2 => 0x38d8_c2c4 case 3 => 0x4fdf_f252
    case 4 => 0xd1bb_67f1 case 5 => 0xa6bc_5767 case 6 => 0x3fb5_06dd case 7 => 0x48b2_364b
    case 8 => 0xd80d_2bda case 9 => 0xaf0a_1b4c case 10 => 0x3603_4af6 case 11 => 0x4104_7a60
    case 12 => 0xdf60_efc3 case 13 => 0xa867_df55 case 14 => 0x316e_8eef case _ => 0x4669_be79
  }

  lemma RowaIs(i: bv32)
    requires i < 16
    ensures Rowa(i) == Steps8(0xa0 ^ i)
  {
  }

  function Rowb(i: bv32): bv32
  {
    match i
    case 0 => 0xcb61_b38c case 1 => 0xbc66_831a case 2 => 0x256f_d2a0 case 3 => 0x5268_e236
    case 4 => 0xcc0c_7795 case 5 => 0xbb0b_4703 case 6 => 0x2202_16b9 case 7 => 0x5505_262f
    case 8 => 0xc5ba_3bbe case 9 => 0xb2bd_0b28 case 10 => 0x2bb4_5a92 case 11 => 0x5cb3_6a04
    case 12 => 0xc2d7_ffa7 case 13 => 0xb5d0_cf31 case 14 => 0x2cd9_9e8b case _ => 0x5bde_ae1d
  }

  lemma RowbIs(i: bv32)
    requires i < 16
    ensures Rowb(i) == Steps8(0xb0 ^ i)
  {
  }

  function Rowc(i: bv32): bv32
  {
    match i
    case 0 => 0x9b64_c2b0 case 1 => 0xec63_f226 case 2 => 0x756a_a39c case 3 => 0x026d_930a
    case 4 => 0x9c09_06a9 case 5 => 0xeb0e_363f case 6 => 0x7207_6785 case 7 => 0x0500_5713
    case 8 => 0x95bf_4a82 case 9 => 0xe2b8_7a14 case 10 => 0x7bb1_2bae case 11 => 0x0cb6_1b38
    case 12 => 0x92d2_8e9b case 13 => 0xe5d5_be0d case 14 => 0x7cdc_efb7 case _ => 0x0bdb_df21
  }

  lemma RowcIs(i: bv32)
    requires i < 16
    ensures Rowc(i) == Steps8(0xc0 ^ i)
  {
  }

  function Rowd(i: bv32): bv32
  {
    match i
    case 0 => 0x86d3_d2d4 case 1 => 0xf1d4_e242 case 2 => 0x68dd_b3f8 case 3 => 0x1fda_836e
    case 4 => 0x81be_16cd case 5 => 0xf6b9_265b case 6 => 0x6fb0_77e1 case 7 => 0x18b7_4777
    case 8 => 0x8808_5ae6 case 9 => 0xff0f_6a70 case 10 => 0x6606_3bca case 11 => 0x1101_0b5c
    case 12 => 0x8f65_9eff case 13 => 0xf862_ae69 case 14 => 0x616b_ffd3 case _ => 0x166c_cf45
  }

  lemma RowdIs(i: bv32)
    requires i < 16
    ensures Rowd(i) == Steps8(0xd0 ^ i)
  {
  }

  function Rowe(i: bv32): bv32
  {
    match i
    case 0 => 0xa00a_e278 case 1 => 0xd70d_d2ee case 2 => 0x4e04_8354 case 3 => 0x3903_b3c2
    case 4 => 0xa767_2661 case 5 => 0xd060_16f7 case 6 => 0x4969_474d case 7 => 0x3e6e_77db
    case 8 => 0xaed1_6a4a case 9 => 0xd9d6_5adc case 10 => 0x40df_0b66 case 11 => 0x37d8_3bf0
    case 12 => 0xa9bc_ae53 case 13 => 0xdebb_9ec5 case 14 => 0x47b2_cf7f case _ => 0x30b5_ffe9
  }

  lemma RoweIs(i: bv32)
    requires i < 16
    ensures Rowe(i) == Steps8(0xe0 ^ i)
  {
  }

  function Rowf(i: bv32): bv32
  {
    match i
    case 0 => 0xbdbd_f21c case 1 => 0xcaba_c28a case 2 => 0x53b3_9330 case 3 => 0x24b4_a3a6
    case 4 => 0xbad0_3605 case 5 => 0xcdd7_0693 case 6 => 0x54de_5729 case 7 => 0x23d9_67bf
    case 8 => 0xb366_7a2e case 9 => 0xc461_4ab8 case 10 => 0x5d68_1b02 case 11 => 0x2a6f_2b94
    case 12 => 0xb40b_be37 case 13 => 0xc30c_8ea1 case 14 => 0x5a05_df1b case _ => 0x2d02_ef8d
  }

  lemma RowfIs(i: bv32)
    requires i < 16
    ensures Rowf(i) == Steps8(0xf0 ^ i)
  {
  }

  /** __ucl_crc32_table[i]. */
  function Table(i: bv32): bv32
  {
    match i >> 4
    case 0 => Row0(i & 15)
    case 1 => Row1(i & 15)
    case 2 => Row2(i & 15)
    case 3 => Row3(i & 15)
    case 4 => Row4(i & 15)
    case 5 => Row5(i & 15)
    case 6 => Row6(i & 15)
    case 7 => Row7(i & 15)
    case 8 => Row8(i & 15)
    case 9 => Row9(i & 15)
    case 10 => Rowa(i & 15)
    case 11 => Rowb(i & 15)
    case 12 => Rowc(i & 15)
    case 13 => Rowd(i & 15)
    case 14 => Rowe(i & 15)
    case _ => Rowf(i & 15)
  }

  /** Every entry is eight steps of the division. */
  lemma TableIs(i: bv32)
    requires i < 0x100
    ensures Table(i) == Steps8(i)
  {
    hide Row0, Row1, Row2, Row3, Row4, Row5, Row6, Row7, Row8, Row9, Rowa, Rowb, Rowc, Rowd, Rowe, Rowf, Steps8;
    var lo := i & 15;
    Halves(i);
    match i >> 4 {
      case 0 => Row0Is(lo);
      case 1 => Row1Is(lo);
      case 2 => Row2Is(lo);
      case 3 => Row3Is(lo);
      case 4 => Row4Is(lo);
      case 5 => Row5Is(lo);
      case 6 => Row6Is(lo);
      case 7 => Row7Is(lo);
      case 8 => Row8Is(lo);
      case 9 => Row9Is(lo);
      case 10 => RowaIs(lo);
      case 11 => RowbIs(lo);
      case 12 => RowcIs(lo);
      case 13 => RowdIs(lo);
      case 14 => RoweIs(lo);
      case _ => RowfIs(lo);
    }
  }

  lemma Halves(i: bv32)
    requires i < 0x100
    ensures i == ((i >> 4) << 4) ^ (i & 15) && i >> 4 < 16 && i & 15 < 16
  {
  }
}
