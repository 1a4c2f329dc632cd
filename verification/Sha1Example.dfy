/** SHA-1 of "abc", the example of one block that comes with FIPS 180-4. */
module Sha1Example {
  import opened Sha1

  const ABC: Bytes := [0x61, 0x62, 0x63]

  /** Its one block. */
  const BLOCK: Bytes := ABC + [0x80] + Zeros(52) + [0, 0, 0, 0, 0, 0, 0, 0x18]

  lemma AbcPadded()
    ensures Hashable(|ABC|) && Padded(ABC) == BLOCK
  {
    assert ZeroBytes(3) == 52;
    assert BitLength(3) == 24;
    assert BigEndian(24) == [0, 0, 0, 0, 0, 0, 0, 0x18];
  }

  lemma ScheduleStep(t: nat, a: bv32, b: bv32, c: bv32, d: bv32)
    requires 16 <= t < 80 && Schedule(BLOCK, t - 3) == a && Schedule(BLOCK, t - 8) == b
    requires Schedule(BLOCK, t - 14) == c && Schedule(BLOCK, t - 16) == d
    ensures Schedule(BLOCK, t) == Rotl(a ^ b ^ c ^ d, 1)
  {
    hide Rotl;
  }

  lemma BlockByte(i: nat)
    requires i < 64
    ensures BLOCK[i] == if i < 3 then ABC[i] else if i == 3 then 0x80 else if i == 63 then 0x18 else 0
  {
  }

  lemma FirstWord(t: nat)
    requires t < 16
    ensures Schedule(BLOCK, t) == if t == 0 then 0x61626380 else if t == 15 then 0x18 else 0
  {
    hide BLOCK;
    BlockByte(4 * t);
    BlockByte(4 * t + 1);
    BlockByte(4 * t + 2);
    BlockByte(4 * t + 3);
  }

  lemma Words0()
    ensures Schedule(BLOCK, 0) == 0x61626380 && Schedule(BLOCK, 1) == 0x00000000
    ensures Schedule(BLOCK, 2) == 0x00000000 && Schedule(BLOCK, 3) == 0x00000000
    ensures Schedule(BLOCK, 4) == 0x00000000 && Schedule(BLOCK, 5) == 0x00000000
    ensures Schedule(BLOCK, 6) == 0x00000000 && Schedule(BLOCK, 7) == 0x00000000
  {
    hide Schedule;
    FirstWord(0);
    FirstWord(1);
    FirstWord(2);
    FirstWord(3);
    FirstWord(4);
    FirstWord(5);
    FirstWord(6);
    FirstWord(7);
  }

  lemma Words8()
    ensures Schedule(BLOCK, 8) == 0x00000000 && Schedule(BLOCK, 9) == 0x00000000
    ensures Schedule(BLOCK, 10) == 0x00000000 && Schedule(BLOCK, 11) == 0x00000000
    ensures Schedule(BLOCK, 12) == 0x00000000 && Schedule(BLOCK, 13) == 0x00000000
    ensures Schedule(BLOCK, 14) == 0x00000000 && Schedule(BLOCK, 15) == 0x00000018
  {
    hide Schedule;
    FirstWord(8);
    FirstWord(9);
    FirstWord(10);
    FirstWord(11);
    FirstWord(12);
    FirstWord(13);
    FirstWord(14);
    FirstWord(15);
  }

  lemma Words16()
    ensures Schedule(BLOCK, 16) == 0xc2c4c700 && Schedule(BLOCK, 17) == 0x00000000
    ensures Schedule(BLOCK, 18) == 0x00000030 && Schedule(BLOCK, 19) == 0x85898e01
    ensures Schedule(BLOCK, 20) == 0x00000000 && Schedule(BLOCK, 21) == 0x00000060
    ensures Schedule(BLOCK, 22) == 0x0b131c03 && Schedule(BLOCK, 23) == 0x00000030
  {
    hide Schedule;
    Words0();
    Words8();
    ScheduleStep(16, 0x00000000, 0x00000000, 0x00000000, 0x61626380);
    ScheduleStep(17, 0x00000000, 0x00000000, 0x00000000, 0x00000000);
    ScheduleStep(18, 0x00000018, 0x00000000, 0x00000000, 0x00000000);
    ScheduleStep(19, 0xc2c4c700, 0x00000000, 0x00000000, 0x00000000);
    ScheduleStep(20, 0x00000000, 0x00000000, 0x00000000, 0x00000000);
    ScheduleStep(21, 0x00000030, 0x00000000, 0x00000000, 0x00000000);
    ScheduleStep(22, 0x85898e01, 0x00000000, 0x00000000, 0x00000000);
    ScheduleStep(23, 0x00000000, 0x00000018, 0x00000000, 0x00000000);
  }

  lemma Words24()
    ensures Schedule(BLOCK, 24) == 0x85898ec1 && Schedule(BLOCK, 25) == 0x16263806
    ensures Schedule(BLOCK, 26) == 0x00000000 && Schedule(BLOCK, 27) == 0x00000180
    ensures Schedule(BLOCK, 28) == 0x2c4c700c && Schedule(BLOCK, 29) == 0x000000f0
    ensures Schedule(BLOCK, 30) == 0x93afb507 && Schedule(BLOCK, 31) == 0x5898e048
  {
    hide Schedule;
    Words8();
    Words16();
    ScheduleStep(24, 0x00000060, 0xc2c4c700, 0x00000000, 0x00000000);
    ScheduleStep(25, 0x0b131c03, 0x00000000, 0x00000000, 0x00000000);
    ScheduleStep(26, 0x00000030, 0x00000030, 0x00000000, 0x00000000);
    ScheduleStep(27, 0x85898ec1, 0x85898e01, 0x00000000, 0x00000000);
    ScheduleStep(28, 0x16263806, 0x00000000, 0x00000000, 0x00000000);
    ScheduleStep(29, 0x00000000, 0x00000060, 0x00000018, 0x00000000);
    ScheduleStep(30, 0x00000180, 0x0b131c03, 0xc2c4c700, 0x00000000);
    ScheduleStep(31, 0x2c4c700c, 0x00000030, 0x00000000, 0x00000018);
  }

  lemma Words32()
    ensures Schedule(BLOCK, 32) == 0x8e9a9202 && Schedule(BLOCK, 33) == 0x00000600
    ensures Schedule(BLOCK, 34) == 0xb131c0f0 && Schedule(BLOCK, 35) == 0x16263bc6
    ensures Schedule(BLOCK, 36) == 0x4ebed41e && Schedule(BLOCK, 37) == 0x626380a1
    ensures Schedule(BLOCK, 38) == 0x16263806 && Schedule(BLOCK, 39) == 0x000018c0
  {
    hide Schedule;
    Words16();
    Words24();
    ScheduleStep(32, 0x000000f0, 0x85898ec1, 0x00000030, 0xc2c4c700);
    ScheduleStep(33, 0x93afb507, 0x16263806, 0x85898e01, 0x00000000);
    ScheduleStep(34, 0x5898e048, 0x00000000, 0x00000000, 0x00000030);
    ScheduleStep(35, 0x8e9a9202, 0x00000180, 0x00000060, 0x85898e01);
    ScheduleStep(36, 0x00000600, 0x2c4c700c, 0x0b131c03, 0x00000000);
    ScheduleStep(37, 0xb131c0f0, 0x000000f0, 0x00000030, 0x00000060);
    ScheduleStep(38, 0x16263bc6, 0x93afb507, 0x85898ec1, 0x0b131c03);
    ScheduleStep(39, 0x4ebed41e, 0x5898e048, 0x16263806, 0x00000030);
  }

  lemma Words40()
    ensures Schedule(BLOCK, 40) == 0xd2e138c4 && Schedule(BLOCK, 41) == 0x00000f00
    ensures Schedule(BLOCK, 42) == 0x3afb5079 && Schedule(BLOCK, 43) == 0x898e04e5
    ensures Schedule(BLOCK, 44) == 0xe2ba3c2b && Schedule(BLOCK, 45) == 0x000060c0
    ensures Schedule(BLOCK, 46) == 0x053a37cd && Schedule(BLOCK, 47) == 0x74458547
  {
    hide Schedule;
    Words24();
    Words32();
    ScheduleStep(40, 0x626380a1, 0x8e9a9202, 0x00000000, 0x85898ec1);
    ScheduleStep(41, 0x16263806, 0x00000600, 0x00000180, 0x16263806);
    ScheduleStep(42, 0x000018c0, 0xb131c0f0, 0x2c4c700c, 0x00000000);
    ScheduleStep(43, 0xd2e138c4, 0x16263bc6, 0x000000f0, 0x00000180);
    ScheduleStep(44, 0x00000f00, 0x4ebed41e, 0x93afb507, 0x2c4c700c);
    ScheduleStep(45, 0x3afb5079, 0x626380a1, 0x5898e048, 0x000000f0);
    ScheduleStep(46, 0x898e04e5, 0x16263806, 0x8e9a9202, 0x93afb507);
    ScheduleStep(47, 0xe2ba3c2b, 0x000018c0, 0x00000600, 0x5898e048);
  }

  lemma Words48()
    ensures Schedule(BLOCK, 48) == 0xda9415ed && Schedule(BLOCK, 49) == 0x26380a16
    ensures Schedule(BLOCK, 50) == 0x626383a1 && Schedule(BLOCK, 51) == 0x4ebf54de
    ensures Schedule(BLOCK, 52) == 0x3835b44b && Schedule(BLOCK, 53) == 0x0000f600
    ensures Schedule(BLOCK, 54) == 0x1e84c7a3 && Schedule(BLOCK, 55) == 0x98e04d98
  {
    hide Schedule;
    Words32();
    Words40();
    ScheduleStep(48, 0x000060c0, 0xd2e138c4, 0xb131c0f0, 0x8e9a9202);
    ScheduleStep(49, 0x053a37cd, 0x00000f00, 0x16263bc6, 0x00000600);
    ScheduleStep(50, 0x74458547, 0x3afb5079, 0x4ebed41e, 0xb131c0f0);
    ScheduleStep(51, 0xda9415ed, 0x898e04e5, 0x626380a1, 0x16263bc6);
    ScheduleStep(52, 0x26380a16, 0xe2ba3c2b, 0x16263806, 0x4ebed41e);
    ScheduleStep(53, 0x626383a1, 0x000060c0, 0x000018c0, 0x626380a1);
    ScheduleStep(54, 0x4ebf54de, 0x053a37cd, 0xd2e138c4, 0x16263806);
    ScheduleStep(55, 0x3835b44b, 0x74458547, 0x00000f00, 0x000018c0);
  }

  lemma Words56()
    ensures Schedule(BLOCK, 56) == 0x651d16a0 && Schedule(BLOCK, 57) == 0x62658ca1
    ensures Schedule(BLOCK, 58) == 0x458544d6 && Schedule(BLOCK, 59) == 0x44584cb7
    ensures Schedule(BLOCK, 60) == 0x7ba06619 && Schedule(BLOCK, 61) == 0x6380aea2
    ensures Schedule(BLOCK, 62) == 0x0ae55269 && Schedule(BLOCK, 63) == 0x627b49a1
  {
    hide Schedule;
    Words40();
    Words48();
    ScheduleStep(56, 0x0000f600, 0xda9415ed, 0x3afb5079, 0xd2e138c4);
    ScheduleStep(57, 0x1e84c7a3, 0x26380a16, 0x898e04e5, 0x00000f00);
    ScheduleStep(58, 0x98e04d98, 0x626383a1, 0xe2ba3c2b, 0x3afb5079);
    ScheduleStep(59, 0x651d16a0, 0x4ebf54de, 0x000060c0, 0x898e04e5);
    ScheduleStep(60, 0x62658ca1, 0x3835b44b, 0x053a37cd, 0xe2ba3c2b);
    ScheduleStep(61, 0x458544d6, 0x0000f600, 0x74458547, 0x000060c0);
    ScheduleStep(62, 0x44584cb7, 0x1e84c7a3, 0xda9415ed, 0x053a37cd);
    ScheduleStep(63, 0x7ba06619, 0x98e04d98, 0x26380a16, 0x74458547);
  }

  lemma Words64()
    ensures Schedule(BLOCK, 64) == 0x7cd45c9d && Schedule(BLOCK, 65) == 0x000f0000
    ensures Schedule(BLOCK, 66) == 0xfb50753a && Schedule(BLOCK, 67) == 0xec6765e8
    ensures Schedule(BLOCK, 68) == 0xba3c2be2 && Schedule(BLOCK, 69) == 0x0060c000
    ensures Schedule(BLOCK, 70) == 0x3a37cd05 && Schedule(BLOCK, 71) == 0x458546f4
  {
    hide Schedule;
    Words48();
    Words56();
    ScheduleStep(64, 0x6380aea2, 0x651d16a0, 0x626383a1, 0xda9415ed);
    ScheduleStep(65, 0x0ae55269, 0x62658ca1, 0x4ebf54de, 0x26380a16);
    ScheduleStep(66, 0x627b49a1, 0x458544d6, 0x3835b44b, 0x626383a1);
    ScheduleStep(67, 0x7cd45c9d, 0x44584cb7, 0x0000f600, 0x4ebf54de);
    ScheduleStep(68, 0x000f0000, 0x7ba06619, 0x1e84c7a3, 0x3835b44b);
    ScheduleStep(69, 0xfb50753a, 0x6380aea2, 0x98e04d98, 0x0000f600);
    ScheduleStep(70, 0xec6765e8, 0x0ae55269, 0x651d16a0, 0x1e84c7a3);
    ScheduleStep(71, 0xba3c2be2, 0x627b49a1, 0x62658ca1, 0x98e04d98);
  }

  lemma Words72()
    ensures Schedule(BLOCK, 72) == 0xb8599dd6 && Schedule(BLOCK, 73) == 0x380a1a26
    ensures Schedule(BLOCK, 74) == 0x01e02203 && Schedule(BLOCK, 75) == 0xe7cc3456
    ensures Schedule(BLOCK, 76) == 0xe6e60b69 && Schedule(BLOCK, 77) == 0x00f60a00
    ensures Schedule(BLOCK, 78) == 0x5795ef4f && Schedule(BLOCK, 79) == 0x822e0879
  {
    hide Schedule;
    Words56();
    Words64();
    ScheduleStep(72, 0x0060c000, 0x7cd45c9d, 0x458544d6, 0x651d16a0);
    ScheduleStep(73, 0x3a37cd05, 0x000f0000, 0x44584cb7, 0x62658ca1);
    ScheduleStep(74, 0x458546f4, 0xfb50753a, 0x7ba06619, 0x458544d6);
    ScheduleStep(75, 0xb8599dd6, 0xec6765e8, 0x6380aea2, 0x44584cb7);
    ScheduleStep(76, 0x380a1a26, 0xba3c2be2, 0x0ae55269, 0x7ba06619);
    ScheduleStep(77, 0x01e02203, 0x0060c000, 0x627b49a1, 0x6380aea2);
    ScheduleStep(78, 0xe7cc3456, 0x3a37cd05, 0x7cd45c9d, 0x0ae55269);
    ScheduleStep(79, 0xe6e60b69, 0x458546f4, 0x000f0000, 0x627b49a1);
  }

  lemma RoundStep(t: nat, s: Hash, w: bv32)
    requires t < 80 && Rounds(BLOCK, H0, t) == s && Schedule(BLOCK, t) == w
    ensures Rounds(BLOCK, H0, t + 1) == Round(t, s, w)
  {
    hide Round, Schedule;
  }

  lemma Rounds8()
    ensures Rounds(BLOCK, H0, 8) == Hash(0x9e8c07d4, 0x993e30c1, 0x0ff1f290, 0xb3f52677, 0xf3763846)
  {
    hide Schedule, Rounds;
    NoRounds(BLOCK, H0);
    Words0();
    RoundStep(0, Hash(0x67452301, 0xefcdab89, 0x98badcfe, 0x10325476, 0xc3d2e1f0), 0x61626380);
    RoundStep(1, Hash(0x0116fc33, 0x67452301, 0x7bf36ae2, 0x98badcfe, 0x10325476), 0x00000000);
    RoundStep(2, Hash(0x8990536d, 0x0116fc33, 0x59d148c0, 0x7bf36ae2, 0x98badcfe), 0x00000000);
    RoundStep(3, Hash(0xa1390f08, 0x8990536d, 0xc045bf0c, 0x59d148c0, 0x7bf36ae2), 0x00000000);
    RoundStep(4, Hash(0xcdd8e11b, 0xa1390f08, 0x626414db, 0xc045bf0c, 0x59d148c0), 0x00000000);
    RoundStep(5, Hash(0xcfd499de, 0xcdd8e11b, 0x284e43c2, 0x626414db, 0xc045bf0c), 0x00000000);
    RoundStep(6, Hash(0x3fc7ca40, 0xcfd499de, 0xf3763846, 0x284e43c2, 0x626414db), 0x00000000);
    RoundStep(7, Hash(0x993e30c1, 0x3fc7ca40, 0xb3f52677, 0xf3763846, 0x284e43c2), 0x00000000);
  }

  lemma Rounds16()
    ensures Rounds(BLOCK, H0, 16) == Hash(0x20bdd62f, 0x196bee77, 0x644a3da5, 0x1181ed99, 0x18c623f9)
  {
    hide Schedule, Rounds;
    Rounds8();
    Words8();
    RoundStep(8, Hash(0x9e8c07d4, 0x993e30c1, 0x0ff1f290, 0xb3f52677, 0xf3763846), 0x00000000);
    RoundStep(9, Hash(0x4b6ae328, 0x9e8c07d4, 0x664f8c30, 0x0ff1f290, 0xb3f52677), 0x00000000);
    RoundStep(10, Hash(0x8351f929, 0x4b6ae328, 0x27a301f5, 0x664f8c30, 0x0ff1f290), 0x00000000);
    RoundStep(11, Hash(0xfbda9e89, 0x8351f929, 0x12dab8ca, 0x27a301f5, 0x664f8c30), 0x00000000);
    RoundStep(12, Hash(0x63188fe4, 0xfbda9e89, 0x60d47e4a, 0x12dab8ca, 0x27a301f5), 0x00000000);
    RoundStep(13, Hash(0x4607b664, 0x63188fe4, 0x7ef6a7a2, 0x60d47e4a, 0x12dab8ca), 0x00000000);
    RoundStep(14, Hash(0x9128f695, 0x4607b664, 0x18c623f9, 0x7ef6a7a2, 0x60d47e4a), 0x00000000);
    RoundStep(15, Hash(0x196bee77, 0x9128f695, 0x1181ed99, 0x18c623f9, 0x7ef6a7a2), 0x00000018);
  }

  lemma Rounds24()
    ensures Rounds(BLOCK, H0, 24) == Hash(0xd541f12d, 0x21283486, 0x0ce88eff, 0x868dec32, 0x7f67875f)
  {
    hide Schedule, Rounds;
    Rounds16();
    Words16();
    RoundStep(16, Hash(0x20bdd62f, 0x196bee77, 0x644a3da5, 0x1181ed99, 0x18c623f9), 0xc2c4c700);
    RoundStep(17, Hash(0x4e925823, 0x20bdd62f, 0xc65afb9d, 0x644a3da5, 0x1181ed99), 0x00000000);
    RoundStep(18, Hash(0x82aa6728, 0x4e925823, 0xc82f758b, 0xc65afb9d, 0x644a3da5), 0x00000030);
    RoundStep(19, Hash(0xdc64901d, 0x82aa6728, 0xd3a49608, 0xc82f758b, 0xc65afb9d), 0x85898e01);
    RoundStep(20, Hash(0xfd9e1d7d, 0xdc64901d, 0x20aa99ca, 0xd3a49608, 0xc82f758b), 0x00000000);
    RoundStep(21, Hash(0x1a37b0ca, 0xfd9e1d7d, 0x77192407, 0x20aa99ca, 0xd3a49608), 0x00000060);
    RoundStep(22, Hash(0x33a23bfc, 0x1a37b0ca, 0x7f67875f, 0x77192407, 0x20aa99ca), 0x0b131c03);
    RoundStep(23, Hash(0x21283486, 0x33a23bfc, 0x868dec32, 0x7f67875f, 0x77192407), 0x00000030);
  }

  lemma Rounds32()
    ensures Rounds(BLOCK, H0, 32) == Hash(0x3b845d33, 0x1267b407, 0x717eebd7, 0xa0dc2d4b, 0xd2aa1365)
  {
    hide Schedule, Rounds;
    Rounds24();
    Words24();
    RoundStep(24, Hash(0xd541f12d, 0x21283486, 0x0ce88eff, 0x868dec32, 0x7f67875f), 0x85898ec1);
    RoundStep(25, Hash(0xc7567dc6, 0xd541f12d, 0x884a0d21, 0x0ce88eff, 0x868dec32), 0x16263806);
    RoundStep(26, Hash(0x48413ba4, 0xc7567dc6, 0x75507c4b, 0x884a0d21, 0x0ce88eff), 0x00000000);
    RoundStep(27, Hash(0xbe35fbd5, 0x48413ba4, 0xb1d59f71, 0x75507c4b, 0x884a0d21), 0x00000180);
    RoundStep(28, Hash(0x4aa84d97, 0xbe35fbd5, 0x12104ee9, 0xb1d59f71, 0x75507c4b), 0x2c4c700c);
    RoundStep(29, Hash(0x8370b52e, 0x4aa84d97, 0x6f8d7ef5, 0x12104ee9, 0xb1d59f71), 0x000000f0);
    RoundStep(30, Hash(0xc5fbaf5d, 0x8370b52e, 0xd2aa1365, 0x6f8d7ef5, 0x12104ee9), 0x93afb507);
    RoundStep(31, Hash(0x1267b407, 0xc5fbaf5d, 0xa0dc2d4b, 0xd2aa1365, 0x6f8d7ef5), 0x5898e048);
  }

  lemma Rounds40()
    ensures Rounds(BLOCK, H0, 40) == Hash(0x32de1cba, 0x4c986405, 0xf718e5cf, 0x03d447f6, 0xf72eec32)
  {
    hide Schedule, Rounds;
    Rounds32();
    Words32();
    RoundStep(32, Hash(0x3b845d33, 0x1267b407, 0x717eebd7, 0xa0dc2d4b, 0xd2aa1365), 0x8e9a9202);
    RoundStep(33, Hash(0x046faa0a, 0x3b845d33, 0xc499ed01, 0x717eebd7, 0xa0dc2d4b), 0x00000600);
    RoundStep(34, Hash(0x2c0ebc11, 0x046faa0a, 0xcee1174c, 0xc499ed01, 0x717eebd7), 0xb131c0f0);
    RoundStep(35, Hash(0x21796ad4, 0x2c0ebc11, 0x811bea82, 0xcee1174c, 0xc499ed01), 0x16263bc6);
    RoundStep(36, Hash(0xdcbbb0cb, 0x21796ad4, 0x4b03af04, 0x811bea82, 0xcee1174c), 0x4ebed41e);
    RoundStep(37, Hash(0x0f511fd8, 0xdcbbb0cb, 0x085e5ab5, 0x4b03af04, 0x811bea82), 0x626380a1);
    RoundStep(38, Hash(0xdc63973f, 0x0f511fd8, 0xf72eec32, 0x085e5ab5, 0x4b03af04), 0x16263806);
    RoundStep(39, Hash(0x4c986405, 0xdc63973f, 0x03d447f6, 0xf72eec32, 0x085e5ab5), 0x000018c0);
  }

  lemma Rounds48()
    ensures Rounds(BLOCK, H0, 48) == Hash(0xbead02ca, 0xa01b846c, 0x8714787c, 0x503ca382, 0xfb86c6ab)
  {
    hide Schedule, Rounds;
    Rounds40();
    Words40();
    RoundStep(40, Hash(0x32de1cba, 0x4c986405, 0xf718e5cf, 0x03d447f6, 0xf72eec32), 0xd2e138c4);
    RoundStep(41, Hash(0xfc87dedf, 0x32de1cba, 0x53261901, 0xf718e5cf, 0x03d447f6), 0x00000f00);
    RoundStep(42, Hash(0x970a0d5c, 0xfc87dedf, 0x8cb7872e, 0x53261901, 0xf718e5cf), 0x3afb5079);
    RoundStep(43, Hash(0x7f193dc5, 0x970a0d5c, 0xff21f7b7, 0x8cb7872e, 0x53261901), 0x898e04e5);
    RoundStep(44, Hash(0xee1b1aaf, 0x7f193dc5, 0x25c28357, 0xff21f7b7, 0x8cb7872e), 0xe2ba3c2b);
    RoundStep(45, Hash(0x40f28e09, 0xee1b1aaf, 0x5fc64f71, 0x25c28357, 0xff21f7b7), 0x000060c0);
    RoundStep(46, Hash(0x1c51e1f2, 0x40f28e09, 0xfb86c6ab, 0x5fc64f71, 0x25c28357), 0x053a37cd);
    RoundStep(47, Hash(0xa01b846c, 0x1c51e1f2, 0x503ca382, 0xfb86c6ab, 0x5fc64f71), 0x74458547);
  }

  lemma Rounds56()
    ensures Rounds(BLOCK, H0, 56) == Hash(0x5e6456af, 0x7b71f76d, 0x09fa7c76, 0x792410db, 0x8e11eb59)
  {
    hide Schedule, Rounds;
    Rounds48();
    Words48();
    RoundStep(48, Hash(0xbead02ca, 0xa01b846c, 0x8714787c, 0x503ca382, 0xfb86c6ab), 0xda9415ed);
    RoundStep(49, Hash(0xbaf39337, 0xbead02ca, 0x2806e11b, 0x8714787c, 0x503ca382), 0x26380a16);
    RoundStep(50, Hash(0x120731c5, 0xbaf39337, 0xafab40b2, 0x2806e11b, 0x8714787c), 0x626383a1);
    RoundStep(51, Hash(0x641db2ce, 0x120731c5, 0xeebce4cd, 0xafab40b2, 0x2806e11b), 0x4ebf54de);
    RoundStep(52, Hash(0x3847ad66, 0x641db2ce, 0x4481cc71, 0xeebce4cd, 0xafab40b2), 0x3835b44b);
    RoundStep(53, Hash(0xe490436d, 0x3847ad66, 0x99076cb3, 0x4481cc71, 0xeebce4cd), 0x0000f600);
    RoundStep(54, Hash(0x27e9f1d8, 0xe490436d, 0x8e11eb59, 0x99076cb3, 0x4481cc71), 0x1e84c7a3);
    RoundStep(55, Hash(0x7b71f76d, 0x27e9f1d8, 0x792410db, 0x8e11eb59, 0x99076cb3), 0x98e04d98);
  }

  lemma Rounds64()
    ensures Rounds(BLOCK, H0, 64) == Hash(0x6b61c9e1, 0xb66c020b, 0x9523272c, 0xf5d5b051, 0x8fd4b796)
  {
    hide Schedule, Rounds;
    Rounds56();
    Words56();
    RoundStep(56, Hash(0x5e6456af, 0x7b71f76d, 0x09fa7c76, 0x792410db, 0x8e11eb59), 0x651d16a0);
    RoundStep(57, Hash(0xc846093f, 0x5e6456af, 0x5edc7ddb, 0x09fa7c76, 0x792410db), 0x62658ca1);
    RoundStep(58, Hash(0xd262ff50, 0xc846093f, 0xd79915ab, 0x5edc7ddb, 0x09fa7c76), 0x458544d6);
    RoundStep(59, Hash(0x09d785fd, 0xd262ff50, 0xf211824f, 0xd79915ab, 0x5edc7ddb), 0x44584cb7);
    RoundStep(60, Hash(0x3f52de5a, 0x09d785fd, 0x3498bfd4, 0xf211824f, 0xd79915ab), 0x7ba06619);
    RoundStep(61, Hash(0xd756c147, 0x3f52de5a, 0x4275e17f, 0x3498bfd4, 0xf211824f), 0x6380aea2);
    RoundStep(62, Hash(0x548c9cb2, 0xd756c147, 0x8fd4b796, 0x4275e17f, 0x3498bfd4), 0x0ae55269);
    RoundStep(63, Hash(0xb66c020b, 0x548c9cb2, 0xf5d5b051, 0x8fd4b796, 0x4275e17f), 0x627b49a1);
  }

  lemma Rounds72()
    ensures Rounds(BLOCK, H0, 72) == Hash(0x39859de7, 0xc199f8c7, 0x8fc96230, 0x125c24f0, 0xde37534a)
  {
    hide Schedule, Rounds;
    Rounds64();
    Words64();
    RoundStep(64, Hash(0x6b61c9e1, 0xb66c020b, 0x9523272c, 0xf5d5b051, 0x8fd4b796), 0x7cd45c9d);
    RoundStep(65, Hash(0x19dfa7ac, 0x6b61c9e1, 0xed9b0082, 0x9523272c, 0xf5d5b051), 0x000f0000);
    RoundStep(66, Hash(0x101655f9, 0x19dfa7ac, 0x5ad87278, 0xed9b0082, 0x9523272c), 0xfb50753a);
    RoundStep(67, Hash(0x0c3df2b4, 0x101655f9, 0x0677e9eb, 0x5ad87278, 0xed9b0082), 0xec6765e8);
    RoundStep(68, Hash(0x78dd4d2b, 0x0c3df2b4, 0x4405957e, 0x0677e9eb, 0x5ad87278), 0xba3c2be2);
    RoundStep(69, Hash(0x497093c0, 0x78dd4d2b, 0x030f7cad, 0x4405957e, 0x0677e9eb), 0x0060c000);
    RoundStep(70, Hash(0x3f2588c2, 0x497093c0, 0xde37534a, 0x030f7cad, 0x4405957e), 0x3a37cd05);
    RoundStep(71, Hash(0xc199f8c7, 0x3f2588c2, 0x125c24f0, 0xde37534a, 0x030f7cad), 0x458546f4);
  }

  lemma Rounds80()
    ensures Rounds(BLOCK, H0, 80) == Hash(0x42541b35, 0x5738d5e1, 0x21834873, 0x681e6df6, 0xd8fdf6ad)
  {
    hide Schedule, Rounds;
    Rounds72();
    Words72();
    RoundStep(72, Hash(0x39859de7, 0xc199f8c7, 0x8fc96230, 0x125c24f0, 0xde37534a), 0xb8599dd6);
    RoundStep(73, Hash(0xedb42de4, 0x39859de7, 0xf0667e31, 0x8fc96230, 0x125c24f0), 0x380a1a26);
    RoundStep(74, Hash(0x11793f6f, 0xedb42de4, 0xce616779, 0xf0667e31, 0x8fc96230), 0x01e02203);
    RoundStep(75, Hash(0x5ee76897, 0x11793f6f, 0x3b6d0b79, 0xce616779, 0xf0667e31), 0xe7cc3456);
    RoundStep(76, Hash(0x63f7dab7, 0x5ee76897, 0xc45e4fdb, 0x3b6d0b79, 0xce616779), 0xe6e60b69);
    RoundStep(77, Hash(0xa079b7d9, 0x63f7dab7, 0xd7b9da25, 0xc45e4fdb, 0x3b6d0b79), 0x00f60a00);
    RoundStep(78, Hash(0x860d21cc, 0xa079b7d9, 0xd8fdf6ad, 0xd7b9da25, 0xc45e4fdb), 0x5795ef4f);
    RoundStep(79, Hash(0x5738d5e1, 0x860d21cc, 0x681e6df6, 0xd8fdf6ad, 0xd7b9da25), 0x822e0879);
  }

  /** The digest is a9993e36 4706816a ba3e2571 7850c26c 9cd0d89d. */
  lemma AbcHash()
    ensures Hashable(|ABC|) && HashBlocks(H0, Padded(ABC))
            == Hash(0xa9993e36, 0x4706816a, 0xba3e2571, 0x7850c26c, 0x9cd0d89d)
  {
    hide Rounds, Compress, HashBlocks;
    AbcPadded();
    Rounds80();
    AllRounds(BLOCK, H0, 80);
    HashOne(H0, BLOCK);
  }

  lemma AbcDigest()
    ensures Hashable(|ABC|)
    ensures Sha1Of(ABC) == [0xa9, 0x99, 0x3e, 0x36, 0x47, 0x06, 0x81, 0x6a, 0xba, 0x3e,
                            0x25, 0x71, 0x78, 0x50, 0xc2, 0x6c, 0x9c, 0xd0, 0xd8, 0x9d]
  {
    hide HashBlocks, Padded;
    AbcHash();
  }
}
