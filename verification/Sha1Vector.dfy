/** A known answer: the one-block example "abc" of FIPS 180, computed round by round from the definition. */
module Sha1Vector {
  import opened Bytes
  import opened Frames
  import opened Sha1

  /** Words 0 to 7 of the message schedule. */
  predicate Words0(m: Block) {
    && W(m, 0) == 0x61626380 && W(m, 1) == 0x00000000 && W(m, 2) == 0x00000000 && W(m, 3) == 0x00000000
    && W(m, 4) == 0x00000000 && W(m, 5) == 0x00000000 && W(m, 6) == 0x00000000 && W(m, 7) == 0x00000000
  }

  /** Words 8 to 15 of the message schedule. */
  predicate Words8(m: Block) {
    && W(m, 8) == 0x00000000 && W(m, 9) == 0x00000000 && W(m, 10) == 0x00000000 && W(m, 11) == 0x00000000
    && W(m, 12) == 0x00000000 && W(m, 13) == 0x00000000 && W(m, 14) == 0x00000000 && W(m, 15) == 0x00000018
  }

  /** Words 16 to 23 of the message schedule. */
  predicate Words16(m: Block) {
    && W(m, 16) == 0xc2c4c700 && W(m, 17) == 0x00000000 && W(m, 18) == 0x00000030 && W(m, 19) == 0x85898e01
    && W(m, 20) == 0x00000000 && W(m, 21) == 0x00000060 && W(m, 22) == 0x0b131c03 && W(m, 23) == 0x00000030
  }

  /** Words 24 to 31 of the message schedule. */
  predicate Words24(m: Block) {
    && W(m, 24) == 0x85898ec1 && W(m, 25) == 0x16263806 && W(m, 26) == 0x00000000 && W(m, 27) == 0x00000180
    && W(m, 28) == 0x2c4c700c && W(m, 29) == 0x000000f0 && W(m, 30) == 0x93afb507 && W(m, 31) == 0x5898e048
  }

  /** Words 32 to 39 of the message schedule. */
  predicate Words32(m: Block) {
    && W(m, 32) == 0x8e9a9202 && W(m, 33) == 0x00000600 && W(m, 34) == 0xb131c0f0 && W(m, 35) == 0x16263bc6
    && W(m, 36) == 0x4ebed41e && W(m, 37) == 0x626380a1 && W(m, 38) == 0x16263806 && W(m, 39) == 0x000018c0
  }

  /** Words 40 to 47 of the message schedule. */
  predicate Words40(m: Block) {
    && W(m, 40) == 0xd2e138c4 && W(m, 41) == 0x00000f00 && W(m, 42) == 0x3afb5079 && W(m, 43) == 0x898e04e5
    && W(m, 44) == 0xe2ba3c2b && W(m, 45) == 0x000060c0 && W(m, 46) == 0x053a37cd && W(m, 47) == 0x74458547
  }

  /** Words 48 to 55 of the message schedule. */
  predicate Words48(m: Block) {
    && W(m, 48) == 0xda9415ed && W(m, 49) == 0x26380a16 && W(m, 50) == 0x626383a1 && W(m, 51) == 0x4ebf54de
    && W(m, 52) == 0x3835b44b && W(m, 53) == 0x0000f600 && W(m, 54) == 0x1e84c7a3 && W(m, 55) == 0x98e04d98
  }

  /** Words 56 to 63 of the message schedule. */
  predicate Words56(m: Block) {
    && W(m, 56) == 0x651d16a0 && W(m, 57) == 0x62658ca1 && W(m, 58) == 0x458544d6 && W(m, 59) == 0x44584cb7
    && W(m, 60) == 0x7ba06619 && W(m, 61) == 0x6380aea2 && W(m, 62) == 0x0ae55269 && W(m, 63) == 0x627b49a1
  }

  /** Words 64 to 71 of the message schedule. */
  predicate Words64(m: Block) {
    && W(m, 64) == 0x7cd45c9d && W(m, 65) == 0x000f0000 && W(m, 66) == 0xfb50753a && W(m, 67) == 0xec6765e8
    && W(m, 68) == 0xba3c2be2 && W(m, 69) == 0x0060c000 && W(m, 70) == 0x3a37cd05 && W(m, 71) == 0x458546f4
  }

  /** Words 72 to 79 of the message schedule. */
  predicate Words72(m: Block) {
    && W(m, 72) == 0xb8599dd6 && W(m, 73) == 0x380a1a26 && W(m, 74) == 0x01e02203 && W(m, 75) == 0xe7cc3456
    && W(m, 76) == 0xe6e60b69 && W(m, 77) == 0x00f60a00 && W(m, 78) == 0x5795ef4f && W(m, 79) == 0x822e0879
  }

  lemma FirstWords(m: Block)
    requires m == [0x61626380, 0, 0, 0, 0, 0, 0, 0, 0, 0, 0, 0, 0, 0, 0, 0x18]
    ensures Words0(m) && Words8(m)
  {
    assert forall t | 0 <= t < 16 :: W(m, t) == m[t];
    hide W;
  }

  lemma Next(m: Block, t: nat)
    requires t >= 16
    ensures W(m, t) == RotL(W(m, t - 3) ^ W(m, t - 8) ^ W(m, t - 14) ^ W(m, t - 16), 1)
  {
  }

  lemma Then16(m: Block)
    requires Words0(m) && Words8(m)
    ensures Words16(m)
  {
    Turns();
    hide W, RotL;
    Next(m, 16);
    assert W(m, 16) == RotL(0x00000000 ^ 0x00000000 ^ 0x00000000 ^ 0x61626380, 1) == 0xc2c4c700;
    Next(m, 17);
    assert W(m, 17) == RotL(0x00000000 ^ 0x00000000 ^ 0x00000000 ^ 0x00000000, 1) == 0x00000000;
    Next(m, 18);
    assert W(m, 18) == RotL(0x00000018 ^ 0x00000000 ^ 0x00000000 ^ 0x00000000, 1) == 0x00000030;
    Next(m, 19);
    assert W(m, 19) == RotL(0xc2c4c700 ^ 0x00000000 ^ 0x00000000 ^ 0x00000000, 1) == 0x85898e01;
    Next(m, 20);
    assert W(m, 20) == RotL(0x00000000 ^ 0x00000000 ^ 0x00000000 ^ 0x00000000, 1) == 0x00000000;
    Next(m, 21);
    assert W(m, 21) == RotL(0x00000030 ^ 0x00000000 ^ 0x00000000 ^ 0x00000000, 1) == 0x00000060;
    Next(m, 22);
    assert W(m, 22) == RotL(0x85898e01 ^ 0x00000000 ^ 0x00000000 ^ 0x00000000, 1) == 0x0b131c03;
    Next(m, 23);
    assert W(m, 23) == RotL(0x00000000 ^ 0x00000018 ^ 0x00000000 ^ 0x00000000, 1) == 0x00000030;
  }

  lemma Then24(m: Block)
    requires Words8(m) && Words16(m)
    ensures Words24(m)
  {
    Turns();
    hide W, RotL;
    Next(m, 24);
    assert W(m, 24) == RotL(0x00000060 ^ 0xc2c4c700 ^ 0x00000000 ^ 0x00000000, 1) == 0x85898ec1;
    Next(m, 25);
    assert W(m, 25) == RotL(0x0b131c03 ^ 0x00000000 ^ 0x00000000 ^ 0x00000000, 1) == 0x16263806;
    Next(m, 26);
    assert W(m, 26) == RotL(0x00000030 ^ 0x00000030 ^ 0x00000000 ^ 0x00000000, 1) == 0x00000000;
    Next(m, 27);
    assert W(m, 27) == RotL(0x85898ec1 ^ 0x85898e01 ^ 0x00000000 ^ 0x00000000, 1) == 0x00000180;
    Next(m, 28);
    assert W(m, 28) == RotL(0x16263806 ^ 0x00000000 ^ 0x00000000 ^ 0x00000000, 1) == 0x2c4c700c;
    Next(m, 29);
    assert W(m, 29) == RotL(0x00000000 ^ 0x00000060 ^ 0x00000018 ^ 0x00000000, 1) == 0x000000f0;
    Next(m, 30);
    assert W(m, 30) == RotL(0x00000180 ^ 0x0b131c03 ^ 0xc2c4c700 ^ 0x00000000, 1) == 0x93afb507;
    Next(m, 31);
    assert W(m, 31) == RotL(0x2c4c700c ^ 0x00000030 ^ 0x00000000 ^ 0x00000018, 1) == 0x5898e048;
  }

  lemma Then32(m: Block)
    requires Words16(m) && Words24(m)
    ensures Words32(m)
  {
    Turns();
    hide W, RotL;
    Next(m, 32);
    assert W(m, 32) == RotL(0x000000f0 ^ 0x85898ec1 ^ 0x00000030 ^ 0xc2c4c700, 1) == 0x8e9a9202;
    Next(m, 33);
    assert W(m, 33) == RotL(0x93afb507 ^ 0x16263806 ^ 0x85898e01 ^ 0x00000000, 1) == 0x00000600;
    Next(m, 34);
    assert W(m, 34) == RotL(0x5898e048 ^ 0x00000000 ^ 0x00000000 ^ 0x00000030, 1) == 0xb131c0f0;
    Next(m, 35);
    assert W(m, 35) == RotL(0x8e9a9202 ^ 0x00000180 ^ 0x00000060 ^ 0x85898e01, 1) == 0x16263bc6;
    Next(m, 36);
    assert W(m, 36) == RotL(0x00000600 ^ 0x2c4c700c ^ 0x0b131c03 ^ 0x00000000, 1) == 0x4ebed41e;
    Next(m, 37);
    assert W(m, 37) == RotL(0xb131c0f0 ^ 0x000000f0 ^ 0x00000030 ^ 0x00000060, 1) == 0x626380a1;
    Next(m, 38);
    assert W(m, 38) == RotL(0x16263bc6 ^ 0x93afb507 ^ 0x85898ec1 ^ 0x0b131c03, 1) == 0x16263806;
    Next(m, 39);
    assert W(m, 39) == RotL(0x4ebed41e ^ 0x5898e048 ^ 0x16263806 ^ 0x00000030, 1) == 0x000018c0;
  }

  lemma Then40(m: Block)
    requires Words24(m) && Words32(m)
    ensures Words40(m)
  {
    Turns();
    hide W, RotL;
    Next(m, 40);
    assert W(m, 40) == RotL(0x626380a1 ^ 0x8e9a9202 ^ 0x00000000 ^ 0x85898ec1, 1) == 0xd2e138c4;
    Next(m, 41);
    assert W(m, 41) == RotL(0x16263806 ^ 0x00000600 ^ 0x00000180 ^ 0x16263806, 1) == 0x00000f00;
    Next(m, 42);
    assert W(m, 42) == RotL(0x000018c0 ^ 0xb131c0f0 ^ 0x2c4c700c ^ 0x00000000, 1) == 0x3afb5079;
    Next(m, 43);
    assert W(m, 43) == RotL(0xd2e138c4 ^ 0x16263bc6 ^ 0x000000f0 ^ 0x00000180, 1) == 0x898e04e5;
    Next(m, 44);
    assert W(m, 44) == RotL(0x00000f00 ^ 0x4ebed41e ^ 0x93afb507 ^ 0x2c4c700c, 1) == 0xe2ba3c2b;
    Next(m, 45);
    assert W(m, 45) == RotL(0x3afb5079 ^ 0x626380a1 ^ 0x5898e048 ^ 0x000000f0, 1) == 0x000060c0;
    Next(m, 46);
    assert W(m, 46) == RotL(0x898e04e5 ^ 0x16263806 ^ 0x8e9a9202 ^ 0x93afb507, 1) == 0x053a37cd;
    Next(m, 47);
    assert W(m, 47) == RotL(0xe2ba3c2b ^ 0x000018c0 ^ 0x00000600 ^ 0x5898e048, 1) == 0x74458547;
  }

  lemma Then48(m: Block)
    requires Words32(m) && Words40(m)
    ensures Words48(m)
  {
    Turns();
    hide W, RotL;
    Next(m, 48);
    assert W(m, 48) == RotL(0x000060c0 ^ 0xd2e138c4 ^ 0xb131c0f0 ^ 0x8e9a9202, 1) == 0xda9415ed;
    Next(m, 49);
    assert W(m, 49) == RotL(0x053a37cd ^ 0x00000f00 ^ 0x16263bc6 ^ 0x00000600, 1) == 0x26380a16;
    Next(m, 50);
    assert W(m, 50) == RotL(0x74458547 ^ 0x3afb5079 ^ 0x4ebed41e ^ 0xb131c0f0, 1) == 0x626383a1;
    Next(m, 51);
    assert W(m, 51) == RotL(0xda9415ed ^ 0x898e04e5 ^ 0x626380a1 ^ 0x16263bc6, 1) == 0x4ebf54de;
    Next(m, 52);
    assert W(m, 52) == RotL(0x26380a16 ^ 0xe2ba3c2b ^ 0x16263806 ^ 0x4ebed41e, 1) == 0x3835b44b;
    Next(m, 53);
    assert W(m, 53) == RotL(0x626383a1 ^ 0x000060c0 ^ 0x000018c0 ^ 0x626380a1, 1) == 0x0000f600;
    Next(m, 54);
    assert W(m, 54) == RotL(0x4ebf54de ^ 0x053a37cd ^ 0xd2e138c4 ^ 0x16263806, 1) == 0x1e84c7a3;
    Next(m, 55);
    assert W(m, 55) == RotL(0x3835b44b ^ 0x74458547 ^ 0x00000f00 ^ 0x000018c0, 1) == 0x98e04d98;
  }

  lemma Then56(m: Block)
    requires Words40(m) && Words48(m)
    ensures Words56(m)
  {
    Turns();
    hide W, RotL;
    Next(m, 56);
    assert W(m, 56) == RotL(0x0000f600 ^ 0xda9415ed ^ 0x3afb5079 ^ 0xd2e138c4, 1) == 0x651d16a0;
    Next(m, 57);
    assert W(m, 57) == RotL(0x1e84c7a3 ^ 0x26380a16 ^ 0x898e04e5 ^ 0x00000f00, 1) == 0x62658ca1;
    Next(m, 58);
    assert W(m, 58) == RotL(0x98e04d98 ^ 0x626383a1 ^ 0xe2ba3c2b ^ 0x3afb5079, 1) == 0x458544d6;
    Next(m, 59);
    assert W(m, 59) == RotL(0x651d16a0 ^ 0x4ebf54de ^ 0x000060c0 ^ 0x898e04e5, 1) == 0x44584cb7;
    Next(m, 60);
    assert W(m, 60) == RotL(0x62658ca1 ^ 0x3835b44b ^ 0x053a37cd ^ 0xe2ba3c2b, 1) == 0x7ba06619;
    Next(m, 61);
    assert W(m, 61) == RotL(0x458544d6 ^ 0x0000f600 ^ 0x74458547 ^ 0x000060c0, 1) == 0x6380aea2;
    Next(m, 62);
    assert W(m, 62) == RotL(0x44584cb7 ^ 0x1e84c7a3 ^ 0xda9415ed ^ 0x053a37cd, 1) == 0x0ae55269;
    Next(m, 63);
    assert W(m, 63) == RotL(0x7ba06619 ^ 0x98e04d98 ^ 0x26380a16 ^ 0x74458547, 1) == 0x627b49a1;
  }

  lemma Then64(m: Block)
    requires Words48(m) && Words56(m)
    ensures Words64(m)
  {
    Turns();
    hide W, RotL;
    Next(m, 64);
    assert W(m, 64) == RotL(0x6380aea2 ^ 0x651d16a0 ^ 0x626383a1 ^ 0xda9415ed, 1) == 0x7cd45c9d;
    Next(m, 65);
    assert W(m, 65) == RotL(0x0ae55269 ^ 0x62658ca1 ^ 0x4ebf54de ^ 0x26380a16, 1) == 0x000f0000;
    Next(m, 66);
    assert W(m, 66) == RotL(0x627b49a1 ^ 0x458544d6 ^ 0x3835b44b ^ 0x626383a1, 1) == 0xfb50753a;
    Next(m, 67);
    assert W(m, 67) == RotL(0x7cd45c9d ^ 0x44584cb7 ^ 0x0000f600 ^ 0x4ebf54de, 1) == 0xec6765e8;
    Next(m, 68);
    assert W(m, 68) == RotL(0x000f0000 ^ 0x7ba06619 ^ 0x1e84c7a3 ^ 0x3835b44b, 1) == 0xba3c2be2;
    Next(m, 69);
    assert W(m, 69) == RotL(0xfb50753a ^ 0x6380aea2 ^ 0x98e04d98 ^ 0x0000f600, 1) == 0x0060c000;
    Next(m, 70);
    assert W(m, 70) == RotL(0xec6765e8 ^ 0x0ae55269 ^ 0x651d16a0 ^ 0x1e84c7a3, 1) == 0x3a37cd05;
    Next(m, 71);
    assert W(m, 71) == RotL(0xba3c2be2 ^ 0x627b49a1 ^ 0x62658ca1 ^ 0x98e04d98, 1) == 0x458546f4;
  }

  lemma Then72(m: Block)
    requires Words56(m) && Words64(m)
    ensures Words72(m)
  {
    Turns();
    hide W, RotL;
    Next(m, 72);
    assert W(m, 72) == RotL(0x0060c000 ^ 0x7cd45c9d ^ 0x458544d6 ^ 0x651d16a0, 1) == 0xb8599dd6;
    Next(m, 73);
    assert W(m, 73) == RotL(0x3a37cd05 ^ 0x000f0000 ^ 0x44584cb7 ^ 0x62658ca1, 1) == 0x380a1a26;
    Next(m, 74);
    assert W(m, 74) == RotL(0x458546f4 ^ 0xfb50753a ^ 0x7ba06619 ^ 0x458544d6, 1) == 0x01e02203;
    Next(m, 75);
    assert W(m, 75) == RotL(0xb8599dd6 ^ 0xec6765e8 ^ 0x6380aea2 ^ 0x44584cb7, 1) == 0xe7cc3456;
    Next(m, 76);
    assert W(m, 76) == RotL(0x380a1a26 ^ 0xba3c2be2 ^ 0x0ae55269 ^ 0x7ba06619, 1) == 0xe6e60b69;
    Next(m, 77);
    assert W(m, 77) == RotL(0x01e02203 ^ 0x0060c000 ^ 0x627b49a1 ^ 0x6380aea2, 1) == 0x00f60a00;
    Next(m, 78);
    assert W(m, 78) == RotL(0xe7cc3456 ^ 0x3a37cd05 ^ 0x7cd45c9d ^ 0x0ae55269, 1) == 0x5795ef4f;
    Next(m, 79);
    assert W(m, 79) == RotL(0xe6e60b69 ^ 0x458546f4 ^ 0x000f0000 ^ 0x627b49a1, 1) == 0x822e0879;
  }

  lemma Turns()
    ensures forall x: word :: RotL(x, 1) == (x << 1) | (x >> 31)
    ensures forall x: word :: RotL(x, 5) == (x << 5) | (x >> 27)
    ensures forall x: word :: RotL(x, 30) == (x << 30) | (x >> 2)
  {
  }

  lemma Mixed0()
    ensures Round(Regs(0x67452301, 0xefcdab89, 0x98badcfe, 0x10325476, 0xc3d2e1f0), 0, 0x61626380)
         == Regs(0x0116fc33, 0x67452301, 0x7bf36ae2, 0x98badcfe, 0x10325476)
    ensures Round(Regs(0x0116fc33, 0x67452301, 0x7bf36ae2, 0x98badcfe, 0x10325476), 1, 0x00000000)
         == Regs(0x8990536d, 0x0116fc33, 0x59d148c0, 0x7bf36ae2, 0x98badcfe)
    ensures Round(Regs(0x8990536d, 0x0116fc33, 0x59d148c0, 0x7bf36ae2, 0x98badcfe), 2, 0x00000000)
         == Regs(0xa1390f08, 0x8990536d, 0xc045bf0c, 0x59d148c0, 0x7bf36ae2)
    ensures Round(Regs(0xa1390f08, 0x8990536d, 0xc045bf0c, 0x59d148c0, 0x7bf36ae2), 3, 0x00000000)
         == Regs(0xcdd8e11b, 0xa1390f08, 0x626414db, 0xc045bf0c, 0x59d148c0)
    ensures Round(Regs(0xcdd8e11b, 0xa1390f08, 0x626414db, 0xc045bf0c, 0x59d148c0), 4, 0x00000000)
         == Regs(0xcfd499de, 0xcdd8e11b, 0x284e43c2, 0x626414db, 0xc045bf0c)
    ensures Round(Regs(0xcfd499de, 0xcdd8e11b, 0x284e43c2, 0x626414db, 0xc045bf0c), 5, 0x00000000)
         == Regs(0x3fc7ca40, 0xcfd499de, 0xf3763846, 0x284e43c2, 0x626414db)
    ensures Round(Regs(0x3fc7ca40, 0xcfd499de, 0xf3763846, 0x284e43c2, 0x626414db), 6, 0x00000000)
         == Regs(0x993e30c1, 0x3fc7ca40, 0xb3f52677, 0xf3763846, 0x284e43c2)
    ensures Round(Regs(0x993e30c1, 0x3fc7ca40, 0xb3f52677, 0xf3763846, 0x284e43c2), 7, 0x00000000)
         == Regs(0x9e8c07d4, 0x993e30c1, 0x0ff1f290, 0xb3f52677, 0xf3763846)
  {
    Turns();
    hide RotL;
  }

  lemma Mixed8()
    ensures Round(Regs(0x9e8c07d4, 0x993e30c1, 0x0ff1f290, 0xb3f52677, 0xf3763846), 8, 0x00000000)
         == Regs(0x4b6ae328, 0x9e8c07d4, 0x664f8c30, 0x0ff1f290, 0xb3f52677)
    ensures Round(Regs(0x4b6ae328, 0x9e8c07d4, 0x664f8c30, 0x0ff1f290, 0xb3f52677), 9, 0x00000000)
         == Regs(0x8351f929, 0x4b6ae328, 0x27a301f5, 0x664f8c30, 0x0ff1f290)
    ensures Round(Regs(0x8351f929, 0x4b6ae328, 0x27a301f5, 0x664f8c30, 0x0ff1f290), 10, 0x00000000)
         == Regs(0xfbda9e89, 0x8351f929, 0x12dab8ca, 0x27a301f5, 0x664f8c30)
    ensures Round(Regs(0xfbda9e89, 0x8351f929, 0x12dab8ca, 0x27a301f5, 0x664f8c30), 11, 0x00000000)
         == Regs(0x63188fe4, 0xfbda9e89, 0x60d47e4a, 0x12dab8ca, 0x27a301f5)
    ensures Round(Regs(0x63188fe4, 0xfbda9e89, 0x60d47e4a, 0x12dab8ca, 0x27a301f5), 12, 0x00000000)
         == Regs(0x4607b664, 0x63188fe4, 0x7ef6a7a2, 0x60d47e4a, 0x12dab8ca)
    ensures Round(Regs(0x4607b664, 0x63188fe4, 0x7ef6a7a2, 0x60d47e4a, 0x12dab8ca), 13, 0x00000000)
         == Regs(0x9128f695, 0x4607b664, 0x18c623f9, 0x7ef6a7a2, 0x60d47e4a)
    ensures Round(Regs(0x9128f695, 0x4607b664, 0x18c623f9, 0x7ef6a7a2, 0x60d47e4a), 14, 0x00000000)
         == Regs(0x196bee77, 0x9128f695, 0x1181ed99, 0x18c623f9, 0x7ef6a7a2)
    ensures Round(Regs(0x196bee77, 0x9128f695, 0x1181ed99, 0x18c623f9, 0x7ef6a7a2), 15, 0x00000018)
         == Regs(0x20bdd62f, 0x196bee77, 0x644a3da5, 0x1181ed99, 0x18c623f9)
  {
    Turns();
    hide RotL;
  }

  lemma Mixed16()
    ensures Round(Regs(0x20bdd62f, 0x196bee77, 0x644a3da5, 0x1181ed99, 0x18c623f9), 16, 0xc2c4c700)
         == Regs(0x4e925823, 0x20bdd62f, 0xc65afb9d, 0x644a3da5, 0x1181ed99)
    ensures Round(Regs(0x4e925823, 0x20bdd62f, 0xc65afb9d, 0x644a3da5, 0x1181ed99), 17, 0x00000000)
         == Regs(0x82aa6728, 0x4e925823, 0xc82f758b, 0xc65afb9d, 0x644a3da5)
    ensures Round(Regs(0x82aa6728, 0x4e925823, 0xc82f758b, 0xc65afb9d, 0x644a3da5), 18, 0x00000030)
         == Regs(0xdc64901d, 0x82aa6728, 0xd3a49608, 0xc82f758b, 0xc65afb9d)
    ensures Round(Regs(0xdc64901d, 0x82aa6728, 0xd3a49608, 0xc82f758b, 0xc65afb9d), 19, 0x85898e01)
         == Regs(0xfd9e1d7d, 0xdc64901d, 0x20aa99ca, 0xd3a49608, 0xc82f758b)
    ensures Round(Regs(0xfd9e1d7d, 0xdc64901d, 0x20aa99ca, 0xd3a49608, 0xc82f758b), 20, 0x00000000)
         == Regs(0x1a37b0ca, 0xfd9e1d7d, 0x77192407, 0x20aa99ca, 0xd3a49608)
    ensures Round(Regs(0x1a37b0ca, 0xfd9e1d7d, 0x77192407, 0x20aa99ca, 0xd3a49608), 21, 0x00000060)
         == Regs(0x33a23bfc, 0x1a37b0ca, 0x7f67875f, 0x77192407, 0x20aa99ca)
    ensures Round(Regs(0x33a23bfc, 0x1a37b0ca, 0x7f67875f, 0x77192407, 0x20aa99ca), 22, 0x0b131c03)
         == Regs(0x21283486, 0x33a23bfc, 0x868dec32, 0x7f67875f, 0x77192407)
    ensures Round(Regs(0x21283486, 0x33a23bfc, 0x868dec32, 0x7f67875f, 0x77192407), 23, 0x00000030)
         == Regs(0xd541f12d, 0x21283486, 0x0ce88eff, 0x868dec32, 0x7f67875f)
  {
    Turns();
    hide RotL;
  }

  lemma Mixed24()
    ensures Round(Regs(0xd541f12d, 0x21283486, 0x0ce88eff, 0x868dec32, 0x7f67875f), 24, 0x85898ec1)
         == Regs(0xc7567dc6, 0xd541f12d, 0x884a0d21, 0x0ce88eff, 0x868dec32)
    ensures Round(Regs(0xc7567dc6, 0xd541f12d, 0x884a0d21, 0x0ce88eff, 0x868dec32), 25, 0x16263806)
         == Regs(0x48413ba4, 0xc7567dc6, 0x75507c4b, 0x884a0d21, 0x0ce88eff)
    ensures Round(Regs(0x48413ba4, 0xc7567dc6, 0x75507c4b, 0x884a0d21, 0x0ce88eff), 26, 0x00000000)
         == Regs(0xbe35fbd5, 0x48413ba4, 0xb1d59f71, 0x75507c4b, 0x884a0d21)
    ensures Round(Regs(0xbe35fbd5, 0x48413ba4, 0xb1d59f71, 0x75507c4b, 0x884a0d21), 27, 0x00000180)
         == Regs(0x4aa84d97, 0xbe35fbd5, 0x12104ee9, 0xb1d59f71, 0x75507c4b)
    ensures Round(Regs(0x4aa84d97, 0xbe35fbd5, 0x12104ee9, 0xb1d59f71, 0x75507c4b), 28, 0x2c4c700c)
         == Regs(0x8370b52e, 0x4aa84d97, 0x6f8d7ef5, 0x12104ee9, 0xb1d59f71)
    ensures Round(Regs(0x8370b52e, 0x4aa84d97, 0x6f8d7ef5, 0x12104ee9, 0xb1d59f71), 29, 0x000000f0)
         == Regs(0xc5fbaf5d, 0x8370b52e, 0xd2aa1365, 0x6f8d7ef5, 0x12104ee9)
    ensures Round(Regs(0xc5fbaf5d, 0x8370b52e, 0xd2aa1365, 0x6f8d7ef5, 0x12104ee9), 30, 0x93afb507)
         == Regs(0x1267b407, 0xc5fbaf5d, 0xa0dc2d4b, 0xd2aa1365, 0x6f8d7ef5)
    ensures Round(Regs(0x1267b407, 0xc5fbaf5d, 0xa0dc2d4b, 0xd2aa1365, 0x6f8d7ef5), 31, 0x5898e048)
         == Regs(0x3b845d33, 0x1267b407, 0x717eebd7, 0xa0dc2d4b, 0xd2aa1365)
  {
    Turns();
    hide RotL;
  }

  lemma Mixed32()
    ensures Round(Regs(0x3b845d33, 0x1267b407, 0x717eebd7, 0xa0dc2d4b, 0xd2aa1365), 32, 0x8e9a9202)
         == Regs(0x046faa0a, 0x3b845d33, 0xc499ed01, 0x717eebd7, 0xa0dc2d4b)
    ensures Round(Regs(0x046faa0a, 0x3b845d33, 0xc499ed01, 0x717eebd7, 0xa0dc2d4b), 33, 0x00000600)
         == Regs(0x2c0ebc11, 0x046faa0a, 0xcee1174c, 0xc499ed01, 0x717eebd7)
    ensures Round(Regs(0x2c0ebc11, 0x046faa0a, 0xcee1174c, 0xc499ed01, 0x717eebd7), 34, 0xb131c0f0)
         == Regs(0x21796ad4, 0x2c0ebc11, 0x811bea82, 0xcee1174c, 0xc499ed01)
    ensures Round(Regs(0x21796ad4, 0x2c0ebc11, 0x811bea82, 0xcee1174c, 0xc499ed01), 35, 0x16263bc6)
         == Regs(0xdcbbb0cb, 0x21796ad4, 0x4b03af04, 0x811bea82, 0xcee1174c)
    ensures Round(Regs(0xdcbbb0cb, 0x21796ad4, 0x4b03af04, 0x811bea82, 0xcee1174c), 36, 0x4ebed41e)
         == Regs(0x0f511fd8, 0xdcbbb0cb, 0x085e5ab5, 0x4b03af04, 0x811bea82)
    ensures Round(Regs(0x0f511fd8, 0xdcbbb0cb, 0x085e5ab5, 0x4b03af04, 0x811bea82), 37, 0x626380a1)
         == Regs(0xdc63973f, 0x0f511fd8, 0xf72eec32, 0x085e5ab5, 0x4b03af04)
    ensures Round(Regs(0xdc63973f, 0x0f511fd8, 0xf72eec32, 0x085e5ab5, 0x4b03af04), 38, 0x16263806)
         == Regs(0x4c986405, 0xdc63973f, 0x03d447f6, 0xf72eec32, 0x085e5ab5)
    ensures Round(Regs(0x4c986405, 0xdc63973f, 0x03d447f6, 0xf72eec32, 0x085e5ab5), 39, 0x000018c0)
         == Regs(0x32de1cba, 0x4c986405, 0xf718e5cf, 0x03d447f6, 0xf72eec32)
  {
    Turns();
    hide RotL;
  }

  lemma Mixed40()
    ensures Round(Regs(0x32de1cba, 0x4c986405, 0xf718e5cf, 0x03d447f6, 0xf72eec32), 40, 0xd2e138c4)
         == Regs(0xfc87dedf, 0x32de1cba, 0x53261901, 0xf718e5cf, 0x03d447f6)
    ensures Round(Regs(0xfc87dedf, 0x32de1cba, 0x53261901, 0xf718e5cf, 0x03d447f6), 41, 0x00000f00)
         == Regs(0x970a0d5c, 0xfc87dedf, 0x8cb7872e, 0x53261901, 0xf718e5cf)
    ensures Round(Regs(0x970a0d5c, 0xfc87dedf, 0x8cb7872e, 0x53261901, 0xf718e5cf), 42, 0x3afb5079)
         == Regs(0x7f193dc5, 0x970a0d5c, 0xff21f7b7, 0x8cb7872e, 0x53261901)
    ensures Round(Regs(0x7f193dc5, 0x970a0d5c, 0xff21f7b7, 0x8cb7872e, 0x53261901), 43, 0x898e04e5)
         == Regs(0xee1b1aaf, 0x7f193dc5, 0x25c28357, 0xff21f7b7, 0x8cb7872e)
    ensures Round(Regs(0xee1b1aaf, 0x7f193dc5, 0x25c28357, 0xff21f7b7, 0x8cb7872e), 44, 0xe2ba3c2b)
         == Regs(0x40f28e09, 0xee1b1aaf, 0x5fc64f71, 0x25c28357, 0xff21f7b7)
    ensures Round(Regs(0x40f28e09, 0xee1b1aaf, 0x5fc64f71, 0x25c28357, 0xff21f7b7), 45, 0x000060c0)
         == Regs(0x1c51e1f2, 0x40f28e09, 0xfb86c6ab, 0x5fc64f71, 0x25c28357)
    ensures Round(Regs(0x1c51e1f2, 0x40f28e09, 0xfb86c6ab, 0x5fc64f71, 0x25c28357), 46, 0x053a37cd)
         == Regs(0xa01b846c, 0x1c51e1f2, 0x503ca382, 0xfb86c6ab, 0x5fc64f71)
    ensures Round(Regs(0xa01b846c, 0x1c51e1f2, 0x503ca382, 0xfb86c6ab, 0x5fc64f71), 47, 0x74458547)
         == Regs(0xbead02ca, 0xa01b846c, 0x8714787c, 0x503ca382, 0xfb86c6ab)
  {
    Turns();
    hide RotL;
  }

  lemma Mixed48()
    ensures Round(Regs(0xbead02ca, 0xa01b846c, 0x8714787c, 0x503ca382, 0xfb86c6ab), 48, 0xda9415ed)
         == Regs(0xbaf39337, 0xbead02ca, 0x2806e11b, 0x8714787c, 0x503ca382)
    ensures Round(Regs(0xbaf39337, 0xbead02ca, 0x2806e11b, 0x8714787c, 0x503ca382), 49, 0x26380a16)
         == Regs(0x120731c5, 0xbaf39337, 0xafab40b2, 0x2806e11b, 0x8714787c)
    ensures Round(Regs(0x120731c5, 0xbaf39337, 0xafab40b2, 0x2806e11b, 0x8714787c), 50, 0x626383a1)
         == Regs(0x641db2ce, 0x120731c5, 0xeebce4cd, 0xafab40b2, 0x2806e11b)
    ensures Round(Regs(0x641db2ce, 0x120731c5, 0xeebce4cd, 0xafab40b2, 0x2806e11b), 51, 0x4ebf54de)
         == Regs(0x3847ad66, 0x641db2ce, 0x4481cc71, 0xeebce4cd, 0xafab40b2)
    ensures Round(Regs(0x3847ad66, 0x641db2ce, 0x4481cc71, 0xeebce4cd, 0xafab40b2), 52, 0x3835b44b)
         == Regs(0xe490436d, 0x3847ad66, 0x99076cb3, 0x4481cc71, 0xeebce4cd)
    ensures Round(Regs(0xe490436d, 0x3847ad66, 0x99076cb3, 0x4481cc71, 0xeebce4cd), 53, 0x0000f600)
         == Regs(0x27e9f1d8, 0xe490436d, 0x8e11eb59, 0x99076cb3, 0x4481cc71)
    ensures Round(Regs(0x27e9f1d8, 0xe490436d, 0x8e11eb59, 0x99076cb3, 0x4481cc71), 54, 0x1e84c7a3)
         == Regs(0x7b71f76d, 0x27e9f1d8, 0x792410db, 0x8e11eb59, 0x99076cb3)
    ensures Round(Regs(0x7b71f76d, 0x27e9f1d8, 0x792410db, 0x8e11eb59, 0x99076cb3), 55, 0x98e04d98)
         == Regs(0x5e6456af, 0x7b71f76d, 0x09fa7c76, 0x792410db, 0x8e11eb59)
  {
    Turns();
    hide RotL;
  }

  lemma Mixed56()
    ensures Round(Regs(0x5e6456af, 0x7b71f76d, 0x09fa7c76, 0x792410db, 0x8e11eb59), 56, 0x651d16a0)
         == Regs(0xc846093f, 0x5e6456af, 0x5edc7ddb, 0x09fa7c76, 0x792410db)
    ensures Round(Regs(0xc846093f, 0x5e6456af, 0x5edc7ddb, 0x09fa7c76, 0x792410db), 57, 0x62658ca1)
         == Regs(0xd262ff50, 0xc846093f, 0xd79915ab, 0x5edc7ddb, 0x09fa7c76)
    ensures Round(Regs(0xd262ff50, 0xc846093f, 0xd79915ab, 0x5edc7ddb, 0x09fa7c76), 58, 0x458544d6)
         == Regs(0x09d785fd, 0xd262ff50, 0xf211824f, 0xd79915ab, 0x5edc7ddb)
    ensures Round(Regs(0x09d785fd, 0xd262ff50, 0xf211824f, 0xd79915ab, 0x5edc7ddb), 59, 0x44584cb7)
         == Regs(0x3f52de5a, 0x09d785fd, 0x3498bfd4, 0xf211824f, 0xd79915ab)
    ensures Round(Regs(0x3f52de5a, 0x09d785fd, 0x3498bfd4, 0xf211824f, 0xd79915ab), 60, 0x7ba06619)
         == Regs(0xd756c147, 0x3f52de5a, 0x4275e17f, 0x3498bfd4, 0xf211824f)
    ensures Round(Regs(0xd756c147, 0x3f52de5a, 0x4275e17f, 0x3498bfd4, 0xf211824f), 61, 0x6380aea2)
         == Regs(0x548c9cb2, 0xd756c147, 0x8fd4b796, 0x4275e17f, 0x3498bfd4)
    ensures Round(Regs(0x548c9cb2, 0xd756c147, 0x8fd4b796, 0x4275e17f, 0x3498bfd4), 62, 0x0ae55269)
         == Regs(0xb66c020b, 0x548c9cb2, 0xf5d5b051, 0x8fd4b796, 0x4275e17f)
    ensures Round(Regs(0xb66c020b, 0x548c9cb2, 0xf5d5b051, 0x8fd4b796, 0x4275e17f), 63, 0x627b49a1)
         == Regs(0x6b61c9e1, 0xb66c020b, 0x9523272c, 0xf5d5b051, 0x8fd4b796)
  {
    Turns();
    hide RotL;
  }

  lemma Mixed64()
    ensures Round(Regs(0x6b61c9e1, 0xb66c020b, 0x9523272c, 0xf5d5b051, 0x8fd4b796), 64, 0x7cd45c9d)
         == Regs(0x19dfa7ac, 0x6b61c9e1, 0xed9b0082, 0x9523272c, 0xf5d5b051)
    ensures Round(Regs(0x19dfa7ac, 0x6b61c9e1, 0xed9b0082, 0x9523272c, 0xf5d5b051), 65, 0x000f0000)
         == Regs(0x101655f9, 0x19dfa7ac, 0x5ad87278, 0xed9b0082, 0x9523272c)
    ensures Round(Regs(0x101655f9, 0x19dfa7ac, 0x5ad87278, 0xed9b0082, 0x9523272c), 66, 0xfb50753a)
         == Regs(0x0c3df2b4, 0x101655f9, 0x0677e9eb, 0x5ad87278, 0xed9b0082)
    ensures Round(Regs(0x0c3df2b4, 0x101655f9, 0x0677e9eb, 0x5ad87278, 0xed9b0082), 67, 0xec6765e8)
         == Regs(0x78dd4d2b, 0x0c3df2b4, 0x4405957e, 0x0677e9eb, 0x5ad87278)
    ensures Round(Regs(0x78dd4d2b, 0x0c3df2b4, 0x4405957e, 0x0677e9eb, 0x5ad87278), 68, 0xba3c2be2)
         == Regs(0x497093c0, 0x78dd4d2b, 0x030f7cad, 0x4405957e, 0x0677e9eb)
    ensures Round(Regs(0x497093c0, 0x78dd4d2b, 0x030f7cad, 0x4405957e, 0x0677e9eb), 69, 0x0060c000)
         == Regs(0x3f2588c2, 0x497093c0, 0xde37534a, 0x030f7cad, 0x4405957e)
    ensures Round(Regs(0x3f2588c2, 0x497093c0, 0xde37534a, 0x030f7cad, 0x4405957e), 70, 0x3a37cd05)
         == Regs(0xc199f8c7, 0x3f2588c2, 0x125c24f0, 0xde37534a, 0x030f7cad)
    ensures Round(Regs(0xc199f8c7, 0x3f2588c2, 0x125c24f0, 0xde37534a, 0x030f7cad), 71, 0x458546f4)
         == Regs(0x39859de7, 0xc199f8c7, 0x8fc96230, 0x125c24f0, 0xde37534a)
  {
    Turns();
    hide RotL;
  }

  lemma Mixed72()
    ensures Round(Regs(0x39859de7, 0xc199f8c7, 0x8fc96230, 0x125c24f0, 0xde37534a), 72, 0xb8599dd6)
         == Regs(0xedb42de4, 0x39859de7, 0xf0667e31, 0x8fc96230, 0x125c24f0)
    ensures Round(Regs(0xedb42de4, 0x39859de7, 0xf0667e31, 0x8fc96230, 0x125c24f0), 73, 0x380a1a26)
         == Regs(0x11793f6f, 0xedb42de4, 0xce616779, 0xf0667e31, 0x8fc96230)
    ensures Round(Regs(0x11793f6f, 0xedb42de4, 0xce616779, 0xf0667e31, 0x8fc96230), 74, 0x01e02203)
         == Regs(0x5ee76897, 0x11793f6f, 0x3b6d0b79, 0xce616779, 0xf0667e31)
    ensures Round(Regs(0x5ee76897, 0x11793f6f, 0x3b6d0b79, 0xce616779, 0xf0667e31), 75, 0xe7cc3456)
         == Regs(0x63f7dab7, 0x5ee76897, 0xc45e4fdb, 0x3b6d0b79, 0xce616779)
    ensures Round(Regs(0x63f7dab7, 0x5ee76897, 0xc45e4fdb, 0x3b6d0b79, 0xce616779), 76, 0xe6e60b69)
         == Regs(0xa079b7d9, 0x63f7dab7, 0xd7b9da25, 0xc45e4fdb, 0x3b6d0b79)
    ensures Round(Regs(0xa079b7d9, 0x63f7dab7, 0xd7b9da25, 0xc45e4fdb, 0x3b6d0b79), 77, 0x00f60a00)
         == Regs(0x860d21cc, 0xa079b7d9, 0xd8fdf6ad, 0xd7b9da25, 0xc45e4fdb)
    ensures Round(Regs(0x860d21cc, 0xa079b7d9, 0xd8fdf6ad, 0xd7b9da25, 0xc45e4fdb), 78, 0x5795ef4f)
         == Regs(0x5738d5e1, 0x860d21cc, 0x681e6df6, 0xd8fdf6ad, 0xd7b9da25)
    ensures Round(Regs(0x5738d5e1, 0x860d21cc, 0x681e6df6, 0xd8fdf6ad, 0xd7b9da25), 79, 0x822e0879)
         == Regs(0x42541b35, 0x5738d5e1, 0x21834873, 0x681e6df6, 0xd8fdf6ad)
  {
    Turns();
    hide RotL;
  }

  lemma After8(m: Block)
    requires Words0(m) && Rounds(H0, m, 0) == Regs(0x67452301, 0xefcdab89, 0x98badcfe, 0x10325476, 0xc3d2e1f0)
    ensures Rounds(H0, m, 8) == Regs(0x9e8c07d4, 0x993e30c1, 0x0ff1f290, 0xb3f52677, 0xf3763846)
  {
    Mixed0();
    hide W, Round;
    Unfolds(m, 0);
  }

  lemma After16(m: Block)
    requires Words8(m) && Rounds(H0, m, 8) == Regs(0x9e8c07d4, 0x993e30c1, 0x0ff1f290, 0xb3f52677, 0xf3763846)
    ensures Rounds(H0, m, 16) == Regs(0x20bdd62f, 0x196bee77, 0x644a3da5, 0x1181ed99, 0x18c623f9)
  {
    Mixed8();
    hide W, Round;
    Unfolds(m, 8);
  }

  lemma After24(m: Block)
    requires Words16(m) && Rounds(H0, m, 16) == Regs(0x20bdd62f, 0x196bee77, 0x644a3da5, 0x1181ed99, 0x18c623f9)
    ensures Rounds(H0, m, 24) == Regs(0xd541f12d, 0x21283486, 0x0ce88eff, 0x868dec32, 0x7f67875f)
  {
    Mixed16();
    hide W, Round;
    Unfolds(m, 16);
  }

  lemma After32(m: Block)
    requires Words24(m) && Rounds(H0, m, 24) == Regs(0xd541f12d, 0x21283486, 0x0ce88eff, 0x868dec32, 0x7f67875f)
    ensures Rounds(H0, m, 32) == Regs(0x3b845d33, 0x1267b407, 0x717eebd7, 0xa0dc2d4b, 0xd2aa1365)
  {
    Mixed24();
    hide W, Round;
    Unfolds(m, 24);
  }

  lemma After40(m: Block)
    requires Words32(m) && Rounds(H0, m, 32) == Regs(0x3b845d33, 0x1267b407, 0x717eebd7, 0xa0dc2d4b, 0xd2aa1365)
    ensures Rounds(H0, m, 40) == Regs(0x32de1cba, 0x4c986405, 0xf718e5cf, 0x03d447f6, 0xf72eec32)
  {
    Mixed32();
    hide W, Round;
    Unfolds(m, 32);
  }

  lemma After48(m: Block)
    requires Words40(m) && Rounds(H0, m, 40) == Regs(0x32de1cba, 0x4c986405, 0xf718e5cf, 0x03d447f6, 0xf72eec32)
    ensures Rounds(H0, m, 48) == Regs(0xbead02ca, 0xa01b846c, 0x8714787c, 0x503ca382, 0xfb86c6ab)
  {
    Mixed40();
    hide W, Round;
    Unfolds(m, 40);
  }

  lemma After56(m: Block)
    requires Words48(m) && Rounds(H0, m, 48) == Regs(0xbead02ca, 0xa01b846c, 0x8714787c, 0x503ca382, 0xfb86c6ab)
    ensures Rounds(H0, m, 56) == Regs(0x5e6456af, 0x7b71f76d, 0x09fa7c76, 0x792410db, 0x8e11eb59)
  {
    Mixed48();
    hide W, Round;
    Unfolds(m, 48);
  }

  lemma After64(m: Block)
    requires Words56(m) && Rounds(H0, m, 56) == Regs(0x5e6456af, 0x7b71f76d, 0x09fa7c76, 0x792410db, 0x8e11eb59)
    ensures Rounds(H0, m, 64) == Regs(0x6b61c9e1, 0xb66c020b, 0x9523272c, 0xf5d5b051, 0x8fd4b796)
  {
    Mixed56();
    hide W, Round;
    Unfolds(m, 56);
  }

  lemma After72(m: Block)
    requires Words64(m) && Rounds(H0, m, 64) == Regs(0x6b61c9e1, 0xb66c020b, 0x9523272c, 0xf5d5b051, 0x8fd4b796)
    ensures Rounds(H0, m, 72) == Regs(0x39859de7, 0xc199f8c7, 0x8fc96230, 0x125c24f0, 0xde37534a)
  {
    Mixed64();
    hide W, Round;
    Unfolds(m, 64);
  }

  lemma After80(m: Block)
    requires Words72(m) && Rounds(H0, m, 72) == Regs(0x39859de7, 0xc199f8c7, 0x8fc96230, 0x125c24f0, 0xde37534a)
    ensures Rounds(H0, m, 80) == Regs(0x42541b35, 0x5738d5e1, 0x21834873, 0x681e6df6, 0xd8fdf6ad)
  {
    Mixed72();
    hide W, Round;
    Unfolds(m, 72);
  }

  /** Eight rounds, one after the other. */
  lemma Unfolds(m: Block, t: nat)
    ensures Rounds(H0, m, t + 1) == Round(Rounds(H0, m, t + 0), t + 0, W(m, t + 0))
    ensures Rounds(H0, m, t + 2) == Round(Rounds(H0, m, t + 1), t + 1, W(m, t + 1))
    ensures Rounds(H0, m, t + 3) == Round(Rounds(H0, m, t + 2), t + 2, W(m, t + 2))
    ensures Rounds(H0, m, t + 4) == Round(Rounds(H0, m, t + 3), t + 3, W(m, t + 3))
    ensures Rounds(H0, m, t + 5) == Round(Rounds(H0, m, t + 4), t + 4, W(m, t + 4))
    ensures Rounds(H0, m, t + 6) == Round(Rounds(H0, m, t + 5), t + 5, W(m, t + 5))
    ensures Rounds(H0, m, t + 7) == Round(Rounds(H0, m, t + 6), t + 6, W(m, t + 6))
    ensures Rounds(H0, m, t + 8) == Round(Rounds(H0, m, t + 7), t + 7, W(m, t + 7))
  {
  }

  lemma AllRounds(m: Block)
    requires m == [0x61626380, 0, 0, 0, 0, 0, 0, 0, 0, 0, 0, 0, 0, 0, 0, 0x18]
    ensures Rounds(H0, m, 80) == Regs(0x42541b35, 0x5738d5e1, 0x21834873, 0x681e6df6, 0xd8fdf6ad)
  {
    FirstWords(m);
    NoRounds(m);
    hide W, Rounds, Round, Words0, Words8, Words16, Words24, Words32, Words40, Words48, Words56, Words64, Words72;
    Then16(m);
    Then24(m);
    Then32(m);
    Then40(m);
    Then48(m);
    Then56(m);
    Then64(m);
    Then72(m);
    After8(m);
    After16(m);
    After24(m);
    After32(m);
    After40(m);
    After48(m);
    After56(m);
    After64(m);
    After72(m);
    After80(m);
  }

  lemma NoRounds(m: Block)
    ensures Rounds(H0, m, 0) == H0
  {
  }

  lemma AbcPad(msg: seq<byte>)
    requires msg == [0x61, 0x62, 0x63]
    ensures Pad(msg) == msg + [0x80] + Zeros(52) + [0, 0, 0, 0, 0, 0, 0, 24]
  {
    assert PadZeros(3) == 52;
    assert BigEndian(24, 8) == [0, 0, 0, 0, 0, 0, 0, 24];
  }

  /** The block the padded message is. */
  lemma AbcBlock(msg: seq<byte>)
    requires msg == [0x61, 0x62, 0x63]
    ensures |Pad(msg)| == 64 && BlockOf(Pad(msg)) == [0x61626380, 0, 0, 0, 0, 0, 0, 0, 0, 0, 0, 0, 0, 0, 0, 0x18]
  {
    AbcPad(msg);
    hide Pad;
    var p := Pad(msg);
    assert p[0] == 0x61 && p[1] == 0x62 && p[2] == 0x63 && p[3] == 0x80 && p[63] == 24;
    assert forall i | 4 <= i < 63 :: p[i] == 0;
    hide Zeros;
    FirstAndLast(p);
    forall i | 1 <= i < 15 ensures WordAt(p, 4 * i) == 0 { ZeroWord(p, 4 * i); }
    hide WordAt;
    var b := BlockOf(p);
    assert b[0] == WordAt(p, 4 * 0) && b[15] == WordAt(p, 4 * 15);
    assert forall i | 1 <= i < 15 :: b[i] == WordAt(p, 4 * i);
  }

  lemma ZeroWord(p: seq<byte>, at: nat)
    requires at + 4 <= |p| && p[at] == p[at + 1] == p[at + 2] == p[at + 3] == 0
    ensures WordAt(p, at) == 0
  {
  }

  lemma FirstAndLast(p: seq<byte>)
    requires |p| == 64 && p[..4] == [0x61, 0x62, 0x63, 0x80] && p[60..] == [0, 0, 0, 24]
    ensures WordAt(p, 0) == 0x61626380 && WordAt(p, 60) == 0x18
  {
    hide WordAt;
    assert p[0] == p[..4][0] && p[1] == p[..4][1] && p[2] == p[..4][2] && p[3] == p[..4][3];
    FirstWord(p);
    assert p[60] == p[60..][0] && p[61] == p[60..][1] && p[62] == p[60..][2] && p[63] == p[60..][3];
    LastWord(p);
  }

  lemma FirstWord(p: seq<byte>)
    requires |p| == 64 && p[0] == 0x61 && p[1] == 0x62 && p[2] == 0x63 && p[3] == 0x80
    ensures WordAt(p, 0) == 0x61626380
  {
    WordOf(p, 0, 0x61626380);
    hide WordAt;
    Numerals();
  }

  lemma LastWord(p: seq<byte>)
    requires |p| == 64 && p[60] == 0 && p[61] == 0 && p[62] == 0 && p[63] == 24
    ensures WordAt(p, 60) == 0x18
  {
    WordOf(p, 60, 0x18);
    hide WordAt;
    Numerals();
  }

  lemma Numerals()
    ensures (0x61626380 as int) as word == 0x61626380 && (0x18 as int) as word == 0x18
  {
  }

  lemma WordOf(p: seq<byte>, at: nat, n: nat)
    requires at + 4 <= |p| && n < 0x1_0000_0000
    requires n == p[at] as int * 0x100_0000 + p[at + 1] as int * 0x1_0000 + p[at + 2] as int * 0x100 + p[at + 3] as int
    ensures WordAt(p, at) == n as word
  {
  }

  /** "abc" has the digest the standard gives for it. */
  lemma AbcDigest(msg: seq<byte>)
    requires msg == [0x61, 0x62, 0x63]
    ensures Digest(msg) == [
      0xa9, 0x99, 0x3e, 0x36,
      0x47, 0x06, 0x81, 0x6a,
      0xba, 0x3e, 0x25, 0x71,
      0x78, 0x50, 0xc2, 0x6c,
      0x9c, 0xd0, 0xd8, 0x9d]
  {
    AbcBlock(msg);
    var m := BlockOf(Pad(msg));
    AllRounds(m);
    hide Rounds, W, Round, Pad, BlockOf, WordBytes, Absorb, Add;
    AbsorbsOne(Pad(msg), m);
    SumsUp();
    BytesOfDigest();
  }

  lemma AbsorbsOne(p: seq<byte>, m: Block)
    requires |p| == 64 && BlockOf(p) == m
    ensures Absorb(p) == Add(H0, Rounds(H0, m, 80))
  {
    hide Rounds, BlockOf;
    assert p[..0] == [] && p[0..] == p;
  }

  lemma SumsUp()
    ensures Add(H0, Regs(0x42541b35, 0x5738d5e1, 0x21834873, 0x681e6df6, 0xd8fdf6ad))
         == Regs(0xa9993e36, 0x4706816a, 0xba3e2571, 0x7850c26c, 0x9cd0d89d)
  {
  }

  lemma FourBytes(n: nat)
    requires n < 0x1_0000_0000
    ensures BigEndian(n, 4) == [n / 0x100_0000, n / 0x1_0000 % 256, n / 0x100 % 256, n % 256]
  {
    assert BigEndian(n / 0x100_0000, 1) == [n / 0x100_0000];
    assert BigEndian(n / 0x1_0000, 2) == [n / 0x100_0000, n / 0x1_0000 % 256];
    assert BigEndian(n / 0x100, 3) == [n / 0x100_0000, n / 0x1_0000 % 256, n / 0x100 % 256];
  }

  lemma BytesOfDigest()
    ensures WordBytes(0xa9993e36) == [0xa9, 0x99, 0x3e, 0x36]
    ensures WordBytes(0x4706816a) == [0x47, 0x06, 0x81, 0x6a]
    ensures WordBytes(0xba3e2571) == [0xba, 0x3e, 0x25, 0x71]
    ensures WordBytes(0x7850c26c) == [0x78, 0x50, 0xc2, 0x6c]
    ensures WordBytes(0x9cd0d89d) == [0x9c, 0xd0, 0xd8, 0x9d]
  {
    hide BigEndian;
    FourBytes(0xa9993e36);
    assert (0xa9993e36 as word) as nat == 0xa9993e36;
    FourBytes(0x4706816a);
    assert (0x4706816a as word) as nat == 0x4706816a;
    FourBytes(0xba3e2571);
    assert (0xba3e2571 as word) as nat == 0xba3e2571;
    FourBytes(0x7850c26c);
    assert (0x7850c26c as word) as nat == 0x7850c26c;
    FourBytes(0x9cd0d89d);
    assert (0x9cd0d89d as word) as nat == 0x9cd0d89d;
  }
}
