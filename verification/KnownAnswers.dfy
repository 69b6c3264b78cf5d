/** SHA-1, HMAC and the derived key on inputs for which FIPS 180-4 and RFC 6070 publish the result. */
module KnownAnswers {
  import opened Pbkdf2
  import opened Sha1Spec
  import opened Sha1Trace

  // ---------------------------------------------------------------- the text "abc"

  const AB_W0 := Row(0x61626380, 0x00000000, 0x00000000, 0x00000000, 0x00000000, 0x00000000, 0x00000000, 0x00000000)
  const AB_W1 := Row(0x00000000, 0x00000000, 0x00000000, 0x00000000, 0x00000000, 0x00000000, 0x00000000, 0x00000018)
  const AB_W2 := Row(0xc2c4c700, 0x00000000, 0x00000030, 0x85898e01, 0x00000000, 0x00000060, 0x0b131c03, 0x00000030)
  const AB_W3 := Row(0x85898ec1, 0x16263806, 0x00000000, 0x00000180, 0x2c4c700c, 0x000000f0, 0x93afb507, 0x5898e048)
  const AB_W4 := Row(0x8e9a9202, 0x00000600, 0xb131c0f0, 0x16263bc6, 0x4ebed41e, 0x626380a1, 0x16263806, 0x000018c0)
  const AB_W5 := Row(0xd2e138c4, 0x00000f00, 0x3afb5079, 0x898e04e5, 0xe2ba3c2b, 0x000060c0, 0x053a37cd, 0x74458547)
  const AB_W6 := Row(0xda9415ed, 0x26380a16, 0x626383a1, 0x4ebf54de, 0x3835b44b, 0x0000f600, 0x1e84c7a3, 0x98e04d98)
  const AB_W7 := Row(0x651d16a0, 0x62658ca1, 0x458544d6, 0x44584cb7, 0x7ba06619, 0x6380aea2, 0x0ae55269, 0x627b49a1)
  const AB_W8 := Row(0x7cd45c9d, 0x000f0000, 0xfb50753a, 0xec6765e8, 0xba3c2be2, 0x0060c000, 0x3a37cd05, 0x458546f4)
  const AB_W9 := Row(0xb8599dd6, 0x380a1a26, 0x01e02203, 0xe7cc3456, 0xe6e60b69, 0x00f60a00, 0x5795ef4f, 0x822e0879)
  const AB_A0 := Row(0x0116fc33, 0x8990536d, 0xa1390f08, 0xcdd8e11b, 0xcfd499de, 0x3fc7ca40, 0x993e30c1, 0x9e8c07d4)
  const AB_A1 := Row(0x4b6ae328, 0x8351f929, 0xfbda9e89, 0x63188fe4, 0x4607b664, 0x9128f695, 0x196bee77, 0x20bdd62f)
  const AB_A2 := Row(0x4e925823, 0x82aa6728, 0xdc64901d, 0xfd9e1d7d, 0x1a37b0ca, 0x33a23bfc, 0x21283486, 0xd541f12d)
  const AB_A3 := Row(0xc7567dc6, 0x48413ba4, 0xbe35fbd5, 0x4aa84d97, 0x8370b52e, 0xc5fbaf5d, 0x1267b407, 0x3b845d33)
  const AB_A4 := Row(0x046faa0a, 0x2c0ebc11, 0x21796ad4, 0xdcbbb0cb, 0x0f511fd8, 0xdc63973f, 0x4c986405, 0x32de1cba)
  const AB_A5 := Row(0xfc87dedf, 0x970a0d5c, 0x7f193dc5, 0xee1b1aaf, 0x40f28e09, 0x1c51e1f2, 0xa01b846c, 0xbead02ca)
  const AB_A6 := Row(0xbaf39337, 0x120731c5, 0x641db2ce, 0x3847ad66, 0xe490436d, 0x27e9f1d8, 0x7b71f76d, 0x5e6456af)
  const AB_A7 := Row(0xc846093f, 0xd262ff50, 0x09d785fd, 0x3f52de5a, 0xd756c147, 0x548c9cb2, 0xb66c020b, 0x6b61c9e1)
  const AB_A8 := Row(0x19dfa7ac, 0x101655f9, 0x0c3df2b4, 0x78dd4d2b, 0x497093c0, 0x3f2588c2, 0xc199f8c7, 0x39859de7)
  const AB_A9 := Row(0xedb42de4, 0x11793f6f, 0x5ee76897, 0x63f7dab7, 0xa079b7d9, 0x860d21cc, 0x5738d5e1, 0x42541b35)
  const AB_HASH := Hash(0xa9993e36, 0x4706816a, 0xba3e2571, 0x7850c26c, 0x9cd0d89d)

  lemma AbRow0() ensures After(AB_W0, AB_W1, AB_W2) {}
  lemma AbRow1() ensures After(AB_W1, AB_W2, AB_W3) {}
  lemma AbRow2() ensures After(AB_W2, AB_W3, AB_W4) {}
  lemma AbRow3() ensures After(AB_W3, AB_W4, AB_W5) {}
  lemma AbRow4() ensures After(AB_W4, AB_W5, AB_W6) {}
  lemma AbRow5() ensures After(AB_W5, AB_W6, AB_W7) {}
  lemma AbRow6() ensures After(AB_W6, AB_W7, AB_W8) {}
  lemma AbRow7() ensures After(AB_W7, AB_W8, AB_W9) {}
  lemma AbTurn0() ensures Leads(IV, 0, AB_W0, Last(AB_A0)) { Turns(IV, 0, AB_W0, AB_A0); }
  lemma AbTurn1() ensures Leads(Last(AB_A0), 8, AB_W1, Last(AB_A1)) { Turns(Last(AB_A0), 8, AB_W1, AB_A1); }
  lemma AbTurn2() ensures Leads(Last(AB_A1), 16, AB_W2, Last(AB_A2)) { Turns(Last(AB_A1), 16, AB_W2, AB_A2); }
  lemma AbTurn3() ensures Leads(Last(AB_A2), 24, AB_W3, Last(AB_A3)) { Turns(Last(AB_A2), 24, AB_W3, AB_A3); }
  lemma AbTurn4() ensures Leads(Last(AB_A3), 32, AB_W4, Last(AB_A4)) { Turns(Last(AB_A3), 32, AB_W4, AB_A4); }
  lemma AbTurn5() ensures Leads(Last(AB_A4), 40, AB_W5, Last(AB_A5)) { Turns(Last(AB_A4), 40, AB_W5, AB_A5); }
  lemma AbTurn6() ensures Leads(Last(AB_A5), 48, AB_W6, Last(AB_A6)) { Turns(Last(AB_A5), 48, AB_W6, AB_A6); }
  lemma AbTurn7() ensures Leads(Last(AB_A6), 56, AB_W7, Last(AB_A7)) { Turns(Last(AB_A6), 56, AB_W7, AB_A7); }
  lemma AbTurn8() ensures Leads(Last(AB_A7), 64, AB_W8, Last(AB_A8)) { Turns(Last(AB_A7), 64, AB_W8, AB_A8); }
  lemma AbTurn9() ensures Leads(Last(AB_A8), 72, AB_W9, Last(AB_A9)) { Turns(Last(AB_A8), 72, AB_W9, AB_A9); }
  lemma AbSum() ensures Sum(IV, Last(AB_A9)) == AB_HASH {}

  lemma Ab(b: seq<bv32>)
    requires |b| == 16 && Window(b, 0, AB_W0) && Window(b, 8, AB_W1)
    ensures Compress(IV, b) == AB_HASH
  {
    hide *;
    CompressIs(IV, b);
    AbRow0(); AbTurn0(); Eight(IV, b, 0, IV, AB_W0, AB_W1, AB_W2, Last(AB_A0));
    AbRow1(); AbTurn1(); Eight(IV, b, 8, Last(AB_A0), AB_W1, AB_W2, AB_W3, Last(AB_A1));
    AbRow2(); AbTurn2(); Eight(IV, b, 16, Last(AB_A1), AB_W2, AB_W3, AB_W4, Last(AB_A2));
    AbRow3(); AbTurn3(); Eight(IV, b, 24, Last(AB_A2), AB_W3, AB_W4, AB_W5, Last(AB_A3));
    AbRow4(); AbTurn4(); Eight(IV, b, 32, Last(AB_A3), AB_W4, AB_W5, AB_W6, Last(AB_A4));
    AbRow5(); AbTurn5(); Eight(IV, b, 40, Last(AB_A4), AB_W5, AB_W6, AB_W7, Last(AB_A5));
    AbRow6(); AbTurn6(); Eight(IV, b, 48, Last(AB_A5), AB_W6, AB_W7, AB_W8, Last(AB_A6));
    AbRow7(); AbTurn7(); Eight(IV, b, 56, Last(AB_A6), AB_W7, AB_W8, AB_W9, Last(AB_A7));
    AbTurn8(); LastEight(IV, b, 64, Last(AB_A7), AB_W8, Last(AB_A8));
    AbTurn9(); LastEight(IV, b, 72, Last(AB_A8), AB_W9, Last(AB_A9));
    AbSum();
  }

  // ---------------------------------------------------------------- the key "password", for the inner hash

  const KI_W0 := Row(0x46574545, 0x41594452, 0x36363636, 0x36363636, 0x36363636, 0x36363636, 0x36363636, 0x36363636)
  const KI_W1 := Row(0x36363636, 0x36363636, 0x36363636, 0x36363636, 0x36363636, 0x36363636, 0x36363636, 0x36363636)
  const KI_W2 := Row(0xe0c2e6e6, 0xeedee4c8, 0x00000000, 0xade9a1a1, 0xb1d1a5fd, 0x6c6c6c6c, 0x37bf2f2f, 0x0fcf2797)
  const KI_W3 := Row(0x195d1515, 0xb2c397cf, 0x1f9e4f2e, 0x69696969, 0x06246464, 0xe7e44684, 0x10452d2d, 0xa207221b)
  const KI_W4 := Row(0x3cf76aee, 0xc363ff17, 0x18919190, 0x28379c95, 0x86522342, 0x39ad39df, 0x2d211704, 0x32b36203)
  const KI_W5 := Row(0x07321214, 0x6bd02d6a, 0x6731b1b2, 0x431142d9, 0xf7c68ec3, 0x36ffd9e4, 0x8504243c, 0x48226399)
  const KI_W6 := Row(0x2b56611c, 0x0b00d5a8, 0x63a0c1f3, 0xf3bb0d1e, 0xaf6ade5a, 0xbc828796, 0xb9585864, 0x7c57e555)
  const KI_W7 := Row(0xefae8a59, 0x3533c4ff, 0x1e0037af, 0xd3f638f4, 0xd13760b5, 0xb8be1489, 0x89f84b61, 0xdc8467a3)
  const KI_W8 := Row(0x3fcc7c7e, 0x88e0ae50, 0x1c9c9f4a, 0x46079c05, 0x9fca91b6, 0xc9efd200, 0x32120ab3, 0x1455af7e)
  const KI_W9 := Row(0x0f1a2710, 0xb86eb1d0, 0x8ffcce5d, 0x44ab2ed0, 0xfed61764, 0x4452deee, 0x811a26f9, 0x7dcee3d3)
  const KI_A0 := Row(0xe60bddf8, 0x6985d07b, 0xb41f06fc, 0xca5dd341, 0xcfc655e6, 0xdb2c4945, 0x332b2181, 0xd6d7d785)
  const KI_A1 := Row(0x9126a9d2, 0xce4a3fea, 0x2eb8a159, 0x6a958db5, 0xfbf1e7d9, 0x8ec55fe0, 0x77a6a729, 0x30203740)
  const KI_A2 := Row(0xc5ea0bf0, 0x9950b867, 0xc454885e, 0x063f56d0, 0x08189e29, 0x6152fb08, 0x6fcf137f, 0x4c7bae72)
  const KI_A3 := Row(0x4eda2eea, 0xcec65cb2, 0x85cf9193, 0x3c9788ed, 0x40d6e64d, 0x73a7832c, 0x9641f59a, 0x274b7df6)
  const KI_A4 := Row(0xbf04a450, 0x013b0ebd, 0x5efd3be7, 0xc3727b5b, 0x1ec12b34, 0x04f1ab24, 0xb42225ef, 0xf12ed9d2)
  const KI_A5 := Row(0xb23612f1, 0x2a8b5d24, 0x0500104d, 0x8bc32704, 0xc81376f1, 0x40da00b6, 0x7a5313fa, 0xc5b16d8b)
  const KI_A6 := Row(0x05a72aed, 0x55bb928f, 0xd0099bd4, 0x7408e43d, 0x827948f9, 0x503c1312, 0x3967c52a, 0xbc8cc18b)
  const KI_A7 := Row(0x9d73f5e9, 0x6f7a5316, 0xbfe94d86, 0x5e100963, 0x9029a391, 0x59e714d2, 0x15742eef, 0xefd0d92a)
  const KI_A8 := Row(0xc2d5e948, 0xceff19c7, 0x19d93406, 0x56ac4038, 0xd67d1905, 0xb810fa2a, 0x37f41c5b, 0x3bd6f620)
  const KI_A9 := Row(0x5676218b, 0x1f64bb0d, 0x8a79cb75, 0xf050f554, 0xfa8aaf34, 0x0ac0b90f, 0x8f6e1a2f, 0xa1098e0e)
  const KI_HASH := Hash(0x084eb10f, 0x7f3bc5b8, 0x5b6b0b41, 0x4ed50043, 0xffe71f45)

  lemma KiRow0() ensures After(KI_W0, KI_W1, KI_W2) {}
  lemma KiRow1() ensures After(KI_W1, KI_W2, KI_W3) {}
  lemma KiRow2() ensures After(KI_W2, KI_W3, KI_W4) {}
  lemma KiRow3() ensures After(KI_W3, KI_W4, KI_W5) {}
  lemma KiRow4() ensures After(KI_W4, KI_W5, KI_W6) {}
  lemma KiRow5() ensures After(KI_W5, KI_W6, KI_W7) {}
  lemma KiRow6() ensures After(KI_W6, KI_W7, KI_W8) {}
  lemma KiRow7() ensures After(KI_W7, KI_W8, KI_W9) {}
  lemma KiTurn0() ensures Leads(IV, 0, KI_W0, Last(KI_A0)) { Turns(IV, 0, KI_W0, KI_A0); }
  lemma KiTurn1() ensures Leads(Last(KI_A0), 8, KI_W1, Last(KI_A1)) { Turns(Last(KI_A0), 8, KI_W1, KI_A1); }
  lemma KiTurn2() ensures Leads(Last(KI_A1), 16, KI_W2, Last(KI_A2)) { Turns(Last(KI_A1), 16, KI_W2, KI_A2); }
  lemma KiTurn3() ensures Leads(Last(KI_A2), 24, KI_W3, Last(KI_A3)) { Turns(Last(KI_A2), 24, KI_W3, KI_A3); }
  lemma KiTurn4() ensures Leads(Last(KI_A3), 32, KI_W4, Last(KI_A4)) { Turns(Last(KI_A3), 32, KI_W4, KI_A4); }
  lemma KiTurn5() ensures Leads(Last(KI_A4), 40, KI_W5, Last(KI_A5)) { Turns(Last(KI_A4), 40, KI_W5, KI_A5); }
  lemma KiTurn6() ensures Leads(Last(KI_A5), 48, KI_W6, Last(KI_A6)) { Turns(Last(KI_A5), 48, KI_W6, KI_A6); }
  lemma KiTurn7() ensures Leads(Last(KI_A6), 56, KI_W7, Last(KI_A7)) { Turns(Last(KI_A6), 56, KI_W7, KI_A7); }
  lemma KiTurn8() ensures Leads(Last(KI_A7), 64, KI_W8, Last(KI_A8)) { Turns(Last(KI_A7), 64, KI_W8, KI_A8); }
  lemma KiTurn9() ensures Leads(Last(KI_A8), 72, KI_W9, Last(KI_A9)) { Turns(Last(KI_A8), 72, KI_W9, KI_A9); }
  lemma KiSum() ensures Sum(IV, Last(KI_A9)) == KI_HASH {}

  lemma Ki(b: seq<bv32>)
    requires |b| == 16 && Window(b, 0, KI_W0) && Window(b, 8, KI_W1)
    ensures Compress(IV, b) == KI_HASH
  {
    hide *;
    CompressIs(IV, b);
    KiRow0(); KiTurn0(); Eight(IV, b, 0, IV, KI_W0, KI_W1, KI_W2, Last(KI_A0));
    KiRow1(); KiTurn1(); Eight(IV, b, 8, Last(KI_A0), KI_W1, KI_W2, KI_W3, Last(KI_A1));
    KiRow2(); KiTurn2(); Eight(IV, b, 16, Last(KI_A1), KI_W2, KI_W3, KI_W4, Last(KI_A2));
    KiRow3(); KiTurn3(); Eight(IV, b, 24, Last(KI_A2), KI_W3, KI_W4, KI_W5, Last(KI_A3));
    KiRow4(); KiTurn4(); Eight(IV, b, 32, Last(KI_A3), KI_W4, KI_W5, KI_W6, Last(KI_A4));
    KiRow5(); KiTurn5(); Eight(IV, b, 40, Last(KI_A4), KI_W5, KI_W6, KI_W7, Last(KI_A5));
    KiRow6(); KiTurn6(); Eight(IV, b, 48, Last(KI_A5), KI_W6, KI_W7, KI_W8, Last(KI_A6));
    KiRow7(); KiTurn7(); Eight(IV, b, 56, Last(KI_A6), KI_W7, KI_W8, KI_W9, Last(KI_A7));
    KiTurn8(); LastEight(IV, b, 64, Last(KI_A7), KI_W8, Last(KI_A8));
    KiTurn9(); LastEight(IV, b, 72, Last(KI_A8), KI_W9, Last(KI_A9));
    KiSum();
  }

  // ---------------------------------------------------------------- the text "salt" and the number 1

  const TI_W0 := Row(0x73616c74, 0x00000001, 0x80000000, 0x00000000, 0x00000000, 0x00000000, 0x00000000, 0x00000000)
  const TI_W1 := Row(0x00000000, 0x00000000, 0x00000000, 0x00000000, 0x00000000, 0x00000000, 0x00000000, 0x00000240)
  const TI_W2 := Row(0xe6c2d8e9, 0x00000002, 0x00000481, 0xcd85b1d3, 0x00000004, 0x00000902, 0x9b0b63a7, 0x00000488)
  const TI_W3 := Row(0xcd85a3d7, 0x3616c74b, 0x00000012, 0x00002408, 0x6c2d8e9e, 0x000016a0, 0xfb933e8c, 0xd85b10a8)
  const TI_W4 := Row(0x568ed23e, 0x0000902c, 0xb0b6287f, 0x36169dcf, 0xee4cfa23, 0x616c66ab, 0x3616c667, 0x00025290)
  const TI_W5 := Row(0xf4ce2ea1, 0x00016a10, 0xb933e8c7, 0x85b1038d, 0xf3e64042, 0x000910c8, 0x3d7452b0, 0x577f24ac)
  const TI_W6 := Row(0x25ff8850, 0x16c66a86, 0x616c3c6f, 0xee68e173, 0x7af42d00, 0x00163138, 0x2388b60a, 0x5b106258)
  const TI_W7 := Row(0xd028fe1c, 0x61fd6a23, 0xe153ed64, 0x77f01855, 0xab36aba3, 0x6c67d071, 0x99e6e97e, 0x633f0fa3)
  const TI_W8 := Row(0xf1b934a5, 0x016a1150, 0x33e9e751, 0xd06ff976, 0xe64043f3, 0x0910c880, 0x7452b03d, 0x7f248857)
  const TI_W9 := Row(0x93a5debb, 0xc66ba636, 0x0d505382, 0xb0bbdfd2, 0x25f74e30, 0x163089a0, 0x596d6469, 0x710db128)
  const TI_A0 := Row(0x33902876, 0x76cc43f1, 0x1dd4fc52, 0xb9c8a35d, 0xf35aa3f0, 0x182e3588, 0x2473786c, 0xeebcef10)
  const TI_A1 := Row(0xbd1a0d7d, 0x42baa0be, 0xf0f0fa09, 0xfcc63450, 0xce9ee8db, 0x19d2d4a0, 0x63bc53db, 0x85eccefb)
  const TI_A2 := Row(0xd0487832, 0xda35701d, 0x70946bf3, 0xc4ded27e, 0x9e3a9933, 0x58b5cda7, 0x8a54978a, 0xa39edbea)
  const TI_A3 := Row(0x1d6a041a, 0x10e669dc, 0x78ed31a0, 0x6e70c7ba, 0x4d965357, 0x1d70ffd5, 0xe4f7ee18, 0x59f766bb)
  const TI_A4 := Row(0x10c00c70, 0x81d8416c, 0xa174affd, 0x605a2088, 0xc41b8d38, 0x805917ac, 0x84d9e6d8, 0x1bbfc200)
  const TI_A5 := Row(0x340f9b6c, 0x634db962, 0xf64d117e, 0x06f55abf, 0x04e0abd8, 0xd5117dde, 0x8d44809d, 0x0df7b896)
  const TI_A6 := Row(0xbb13b993, 0x2ee6bd06, 0x25f5a1ae, 0x4e6ee25e, 0x0b5fd32e, 0x756f2c84, 0x77a3aae4, 0xfbfea0b4)
  const TI_A7 := Row(0x8a88750f, 0xe2faa86c, 0x0c096b2a, 0x891ccd98, 0xae48a529, 0x15219208, 0x504862f6, 0x16a51331)
  const TI_A8 := Row(0xf197bf41, 0xf25653bc, 0x6e8c6877, 0xcc0cdb96, 0xa663d0b6, 0x478de65e, 0x3bcbcf18, 0xfbba6be7)
  const TI_A9 := Row(0x8c099717, 0x204620e0, 0xee70a91b, 0x95d198c7, 0xaedf08d7, 0x05d306e9, 0x9679d037, 0x11574723)
  const TI_HASH := Hash(0x19a5f832, 0x15b595ef, 0x9cdfccfb, 0x3a8cc278, 0xe55b8576)

  lemma TiRow0() ensures After(TI_W0, TI_W1, TI_W2) {}
  lemma TiRow1() ensures After(TI_W1, TI_W2, TI_W3) {}
  lemma TiRow2() ensures After(TI_W2, TI_W3, TI_W4) {}
  lemma TiRow3() ensures After(TI_W3, TI_W4, TI_W5) {}
  lemma TiRow4() ensures After(TI_W4, TI_W5, TI_W6) {}
  lemma TiRow5() ensures After(TI_W5, TI_W6, TI_W7) {}
  lemma TiRow6() ensures After(TI_W6, TI_W7, TI_W8) {}
  lemma TiRow7() ensures After(TI_W7, TI_W8, TI_W9) {}
  lemma TiTurn0() ensures Leads(KI_HASH, 0, TI_W0, Last(TI_A0)) { Turns(KI_HASH, 0, TI_W0, TI_A0); }
  lemma TiTurn1() ensures Leads(Last(TI_A0), 8, TI_W1, Last(TI_A1)) { Turns(Last(TI_A0), 8, TI_W1, TI_A1); }
  lemma TiTurn2() ensures Leads(Last(TI_A1), 16, TI_W2, Last(TI_A2)) { Turns(Last(TI_A1), 16, TI_W2, TI_A2); }
  lemma TiTurn3() ensures Leads(Last(TI_A2), 24, TI_W3, Last(TI_A3)) { Turns(Last(TI_A2), 24, TI_W3, TI_A3); }
  lemma TiTurn4() ensures Leads(Last(TI_A3), 32, TI_W4, Last(TI_A4)) { Turns(Last(TI_A3), 32, TI_W4, TI_A4); }
  lemma TiTurn5() ensures Leads(Last(TI_A4), 40, TI_W5, Last(TI_A5)) { Turns(Last(TI_A4), 40, TI_W5, TI_A5); }
  lemma TiTurn6() ensures Leads(Last(TI_A5), 48, TI_W6, Last(TI_A6)) { Turns(Last(TI_A5), 48, TI_W6, TI_A6); }
  lemma TiTurn7() ensures Leads(Last(TI_A6), 56, TI_W7, Last(TI_A7)) { Turns(Last(TI_A6), 56, TI_W7, TI_A7); }
  lemma TiTurn8() ensures Leads(Last(TI_A7), 64, TI_W8, Last(TI_A8)) { Turns(Last(TI_A7), 64, TI_W8, TI_A8); }
  lemma TiTurn9() ensures Leads(Last(TI_A8), 72, TI_W9, Last(TI_A9)) { Turns(Last(TI_A8), 72, TI_W9, TI_A9); }
  lemma TiSum() ensures Sum(KI_HASH, Last(TI_A9)) == TI_HASH {}

  lemma Ti(b: seq<bv32>)
    requires |b| == 16 && Window(b, 0, TI_W0) && Window(b, 8, TI_W1)
    ensures Compress(KI_HASH, b) == TI_HASH
  {
    hide *;
    CompressIs(KI_HASH, b);
    TiRow0(); TiTurn0(); Eight(KI_HASH, b, 0, KI_HASH, TI_W0, TI_W1, TI_W2, Last(TI_A0));
    TiRow1(); TiTurn1(); Eight(KI_HASH, b, 8, Last(TI_A0), TI_W1, TI_W2, TI_W3, Last(TI_A1));
    TiRow2(); TiTurn2(); Eight(KI_HASH, b, 16, Last(TI_A1), TI_W2, TI_W3, TI_W4, Last(TI_A2));
    TiRow3(); TiTurn3(); Eight(KI_HASH, b, 24, Last(TI_A2), TI_W3, TI_W4, TI_W5, Last(TI_A3));
    TiRow4(); TiTurn4(); Eight(KI_HASH, b, 32, Last(TI_A3), TI_W4, TI_W5, TI_W6, Last(TI_A4));
    TiRow5(); TiTurn5(); Eight(KI_HASH, b, 40, Last(TI_A4), TI_W5, TI_W6, TI_W7, Last(TI_A5));
    TiRow6(); TiTurn6(); Eight(KI_HASH, b, 48, Last(TI_A5), TI_W6, TI_W7, TI_W8, Last(TI_A6));
    TiRow7(); TiTurn7(); Eight(KI_HASH, b, 56, Last(TI_A6), TI_W7, TI_W8, TI_W9, Last(TI_A7));
    TiTurn8(); LastEight(KI_HASH, b, 64, Last(TI_A7), TI_W8, Last(TI_A8));
    TiTurn9(); LastEight(KI_HASH, b, 72, Last(TI_A8), TI_W9, Last(TI_A9));
    TiSum();
  }

  // ---------------------------------------------------------------- the key "password", for the outer hash

  const KO_W0 := Row(0x2c3d2f2f, 0x2b332e38, 0x5c5c5c5c, 0x5c5c5c5c, 0x5c5c5c5c, 0x5c5c5c5c, 0x5c5c5c5c, 0x5c5c5c5c)
  const KO_W1 := Row(0x5c5c5c5c, 0x5c5c5c5c, 0x5c5c5c5c, 0x5c5c5c5c, 0x5c5c5c5c, 0x5c5c5c5c, 0x5c5c5c5c, 0x5c5c5c5c)
  const KO_W2 := Row(0xe0c2e6e6, 0xeedee4c8, 0x00000000, 0x793d7575, 0x65057129, 0xb8b8b8b8, 0x4ac25252, 0x72b25aea)
  const KO_W3 := Row(0xb0f4bcbc, 0x48396d35, 0xe564b5d4, 0x93939393, 0x5a783838, 0xbbb81ad8, 0xcb9ef6f6, 0x3491b48d)
  const KO_W4 := Row(0xd71c8105, 0x288814fc, 0x69e0e0e1, 0x0a15beb7, 0xba6e1f7e, 0x30a430d6, 0x777b4d5e, 0x68e93859)
  const KO_W5 := Row(0x64517177, 0x08b34e09, 0x7c2aaaa9, 0x8cde8d16, 0x46773f72, 0x874e6855, 0xce4f6f77, 0x650f4eb4)
  const KO_W6 := Row(0xbbc6f18c, 0xc8c3166b, 0x95563705, 0x1b53e5f6, 0x8742f672, 0x94aaafbe, 0x8c6d6d51, 0x042f9d2d)
  const KO_W7 := Row(0x6e2f0bd8, 0x8187704b, 0x56487fe7, 0xfdd816da, 0x1dfbac79, 0x4147ed70, 0x0879cae0, 0x6830d317)
  const KO_W8 := Row(0x03f04042, 0xb4dc926c, 0x58d8db0e, 0xe3a239a0, 0x44114a6d, 0x123409db, 0x13332b92, 0x5312e839)
  const KO_W9 := Row(0x53467b4c, 0xb761bedf, 0x80f3c152, 0x18f7728c, 0xcde52457, 0x7761eddd, 0x009ba778, 0x84371a2a)
  const KO_A0 := Row(0xcbf1c7e2, 0x101cf79e, 0xcd0c0f75, 0x2e31a968, 0x8dd9c9a7, 0xc71b92ad, 0x99e2b3ee, 0x320ed220)
  const KO_A1 := Row(0x781c6500, 0x01aa8d18, 0xec580a9b, 0xf45c0fed, 0x61339b7d, 0xeb900187, 0x2460ae33, 0x9a11a1fe)
  const KO_A2 := Row(0x72fce53a, 0xea3f0e1b, 0x48cca835, 0x432c89b1, 0x0ef14e6e, 0x8e0c0ba2, 0x81b6bbd9, 0xc812661d)
  const KO_A3 := Row(0x1470792c, 0xd4db9bf6, 0x994e7194, 0x306c7cf7, 0x724ae568, 0x1c13d841, 0x0a2d37e7, 0xdc00b79a)
  const KO_A4 := Row(0xe3e3f7eb, 0x8a02c3e6, 0xf680d757, 0xd18ff749, 0xbf3fbc93, 0x0f1e1f4d, 0xa396482d, 0xdcde6d3e)
  const KO_A5 := Row(0xe766a325, 0xbd3ae5e0, 0xddd23e7e, 0xfc6355a1, 0x97100454, 0x31aaf645, 0x792933cd, 0x064eea23)
  const KO_A6 := Row(0x0140f9c5, 0xf40cf9af, 0x33bee031, 0x40a6b094, 0x5ddabecf, 0x6c163d02, 0xf83fc4f2, 0x3c6a5d97)
  const KO_A7 := Row(0x75f7b7b2, 0x6520b03c, 0x239f8ac3, 0x8c2dd2c2, 0xe4dda925, 0xa25fde6b, 0xc751c55e, 0x5e17e407)
  const KO_A8 := Row(0x8b4c5040, 0x69552966, 0x23969961, 0x6eb05d68, 0x57167979, 0x9e39c054, 0x43830acf, 0xa70cf39f)
  const KO_A9 := Row(0x4cbcacf4, 0xbf81fed5, 0xd8c42094, 0x122cf2bf, 0x6bb4ef12, 0x178f426c, 0xc5d6121d, 0x89766ce4)
  const KO_HASH := Hash(0xf0bb8fe5, 0xb5a3bda6, 0x9e9ead99, 0xab1f903a, 0x885e1e9f)

  lemma KoRow0() ensures After(KO_W0, KO_W1, KO_W2) {}
  lemma KoRow1() ensures After(KO_W1, KO_W2, KO_W3) {}
  lemma KoRow2() ensures After(KO_W2, KO_W3, KO_W4) {}
  lemma KoRow3() ensures After(KO_W3, KO_W4, KO_W5) {}
  lemma KoRow4() ensures After(KO_W4, KO_W5, KO_W6) {}
  lemma KoRow5() ensures After(KO_W5, KO_W6, KO_W7) {}
  lemma KoRow6() ensures After(KO_W6, KO_W7, KO_W8) {}
  lemma KoRow7() ensures After(KO_W7, KO_W8, KO_W9) {}
  lemma KoTurn0() ensures Leads(IV, 0, KO_W0, Last(KO_A0)) { Turns(IV, 0, KO_W0, KO_A0); }
  lemma KoTurn1() ensures Leads(Last(KO_A0), 8, KO_W1, Last(KO_A1)) { Turns(Last(KO_A0), 8, KO_W1, KO_A1); }
  lemma KoTurn2() ensures Leads(Last(KO_A1), 16, KO_W2, Last(KO_A2)) { Turns(Last(KO_A1), 16, KO_W2, KO_A2); }
  lemma KoTurn3() ensures Leads(Last(KO_A2), 24, KO_W3, Last(KO_A3)) { Turns(Last(KO_A2), 24, KO_W3, KO_A3); }
  lemma KoTurn4() ensures Leads(Last(KO_A3), 32, KO_W4, Last(KO_A4)) { Turns(Last(KO_A3), 32, KO_W4, KO_A4); }
  lemma KoTurn5() ensures Leads(Last(KO_A4), 40, KO_W5, Last(KO_A5)) { Turns(Last(KO_A4), 40, KO_W5, KO_A5); }
  lemma KoTurn6() ensures Leads(Last(KO_A5), 48, KO_W6, Last(KO_A6)) { Turns(Last(KO_A5), 48, KO_W6, KO_A6); }
  lemma KoTurn7() ensures Leads(Last(KO_A6), 56, KO_W7, Last(KO_A7)) { Turns(Last(KO_A6), 56, KO_W7, KO_A7); }
  lemma KoTurn8() ensures Leads(Last(KO_A7), 64, KO_W8, Last(KO_A8)) { Turns(Last(KO_A7), 64, KO_W8, KO_A8); }
  lemma KoTurn9() ensures Leads(Last(KO_A8), 72, KO_W9, Last(KO_A9)) { Turns(Last(KO_A8), 72, KO_W9, KO_A9); }
  lemma KoSum() ensures Sum(IV, Last(KO_A9)) == KO_HASH {}

  lemma Ko(b: seq<bv32>)
    requires |b| == 16 && Window(b, 0, KO_W0) && Window(b, 8, KO_W1)
    ensures Compress(IV, b) == KO_HASH
  {
    hide *;
    CompressIs(IV, b);
    KoRow0(); KoTurn0(); Eight(IV, b, 0, IV, KO_W0, KO_W1, KO_W2, Last(KO_A0));
    KoRow1(); KoTurn1(); Eight(IV, b, 8, Last(KO_A0), KO_W1, KO_W2, KO_W3, Last(KO_A1));
    KoRow2(); KoTurn2(); Eight(IV, b, 16, Last(KO_A1), KO_W2, KO_W3, KO_W4, Last(KO_A2));
    KoRow3(); KoTurn3(); Eight(IV, b, 24, Last(KO_A2), KO_W3, KO_W4, KO_W5, Last(KO_A3));
    KoRow4(); KoTurn4(); Eight(IV, b, 32, Last(KO_A3), KO_W4, KO_W5, KO_W6, Last(KO_A4));
    KoRow5(); KoTurn5(); Eight(IV, b, 40, Last(KO_A4), KO_W5, KO_W6, KO_W7, Last(KO_A5));
    KoRow6(); KoTurn6(); Eight(IV, b, 48, Last(KO_A5), KO_W6, KO_W7, KO_W8, Last(KO_A6));
    KoRow7(); KoTurn7(); Eight(IV, b, 56, Last(KO_A6), KO_W7, KO_W8, KO_W9, Last(KO_A7));
    KoTurn8(); LastEight(IV, b, 64, Last(KO_A7), KO_W8, Last(KO_A8));
    KoTurn9(); LastEight(IV, b, 72, Last(KO_A8), KO_W9, Last(KO_A9));
    KoSum();
  }

  // ---------------------------------------------------------------- the inner hash

  const TO_W0 := Row(0x19a5f832, 0x15b595ef, 0x9cdfccfb, 0x3a8cc278, 0xe55b8576, 0x80000000, 0x00000000, 0x00000000)
  const TO_W1 := Row(0x00000000, 0x00000000, 0x00000000, 0x00000000, 0x00000000, 0x00000000, 0x00000000, 0x000002a0)
  const TO_W2 := Row(0x0af46993, 0x5e72af2e, 0xf308965a, 0x60f157d7, 0x765254b1, 0xe6112cb4, 0xc1e2afae, 0xeca4ac22)
  const TO_W3 := Row(0xd9ca8a4f, 0x3f200101, 0x3f5874f0, 0x7277bb31, 0x92e4ab60, 0xb292b5c9, 0x72c2fa19, 0x40655598)
  const TO_W4 := Row(0x2549809f, 0xe6c207c2, 0xf4cfc707, 0xa3bc819b, 0x872caf7b, 0x99d1e4b0, 0x92acbcc7, 0x299aaf80)
  const TO_W5 := Row(0xb4153520, 0x7272026a, 0xe1d36e2e, 0xae997487, 0x2af1f8d0, 0x15ead59f, 0xd77d658c, 0x4b980a15)
  const TO_W6 := Row(0xe0f34e4e, 0xc0e3c37f, 0xb350188f, 0xe80ebfc4, 0xff245027, 0x2de30c40, 0x3394a75e, 0xdea9efb1)
  const TO_W7 := Row(0x31ac3201, 0x5f382598, 0x4db6c381, 0xc5a259ba, 0xbb21d1c6, 0x7c4e2096, 0x8371aa4d, 0xdde7ee3b)
  const TO_W8 := Row(0x3c8288ac, 0xe949e6dd, 0xb84aca25, 0x799ac524, 0x3db180c5, 0x6e9c1284, 0xf1a7f46d, 0xc38f49ae)
  const TO_W9 := Row(0x5c08d750, 0x04e8dd25, 0x1aa52399, 0x38fcd6b1, 0x02124cd6, 0xab21ff61, 0xed50007a, 0xea661b3d)
  const TO_A0 := Row(0xb2973ac0, 0x1c6ba751, 0x60e4c639, 0xcb36b95e, 0x6ee5d771, 0x301ba804, 0xd7f00ad2, 0x439a2bd8)
  const TO_A1 := Row(0x8c9f2204, 0x57bcf297, 0x900db938, 0x159c6c40, 0xd2260532, 0x86ce6559, 0x2e65ccca, 0xd0e89f14)
  const TO_A2 := Row(0x389b6a1c, 0x228700ec, 0xb338f9f3, 0xc46aaa9d, 0x5c7b9f1e, 0x128b2b81, 0x4c72d771, 0xcb372b49)
  const TO_A3 := Row(0xc0738426, 0x3012adb6, 0xd6cddd5f, 0x00ed8f15, 0x7d13dbae, 0xed5f4b71, 0xe226cea0, 0x1bed6b0b)
  const TO_A4 := Row(0x58421bff, 0x555774b8, 0x30210f23, 0x94feadcf, 0x503c04c2, 0x33e022c3, 0x0becca75, 0x24e6b60a)
  const TO_A5 := Row(0x523366e3, 0x2103cf78, 0xa09c4941, 0x154359ec, 0x6c3f7a88, 0x09c6111c, 0x13d38c1f, 0xc693335d)
  const TO_A6 := Row(0x5b19d964, 0x953c2ecf, 0x3e17fceb, 0x14c36bed, 0xce99d677, 0x6cc77a29, 0x10809395, 0xb3049922)
  const TO_A7 := Row(0xba2cc5cb, 0x7ab3ae2a, 0x3a9a48ff, 0xdaaa81cc, 0xd2538586, 0x0a4dbd31, 0x6098b598, 0x127bf17f)
  const TO_A8 := Row(0x23ad568c, 0x26bb0eed, 0x9bb860a0, 0xbdfe6f84, 0x677f2649, 0x048da740, 0x065d077e, 0xf2af089f)
  const TO_A9 := Row(0x0a6df041, 0xe904913e, 0x7e0eead5, 0x9e08641e, 0x11020730, 0x542c1e2d, 0xe07b50cb, 0x1ba5382a)
  const TO_HASH := Hash(0x0c60c80f, 0x961f0e71, 0xf3a9b524, 0xaf601206, 0x2fe037a6)

  lemma ToRow0() ensures After(TO_W0, TO_W1, TO_W2) {}
  lemma ToRow1() ensures After(TO_W1, TO_W2, TO_W3) {}
  lemma ToRow2() ensures After(TO_W2, TO_W3, TO_W4) {}
  lemma ToRow3() ensures After(TO_W3, TO_W4, TO_W5) {}
  lemma ToRow4() ensures After(TO_W4, TO_W5, TO_W6) {}
  lemma ToRow5() ensures After(TO_W5, TO_W6, TO_W7) {}
  lemma ToRow6() ensures After(TO_W6, TO_W7, TO_W8) {}
  lemma ToRow7() ensures After(TO_W7, TO_W8, TO_W9) {}
  lemma ToTurn0() ensures Leads(KO_HASH, 0, TO_W0, Last(TO_A0)) { Turns(KO_HASH, 0, TO_W0, TO_A0); }
  lemma ToTurn1() ensures Leads(Last(TO_A0), 8, TO_W1, Last(TO_A1)) { Turns(Last(TO_A0), 8, TO_W1, TO_A1); }
  lemma ToTurn2() ensures Leads(Last(TO_A1), 16, TO_W2, Last(TO_A2)) { Turns(Last(TO_A1), 16, TO_W2, TO_A2); }
  lemma ToTurn3() ensures Leads(Last(TO_A2), 24, TO_W3, Last(TO_A3)) { Turns(Last(TO_A2), 24, TO_W3, TO_A3); }
  lemma ToTurn4() ensures Leads(Last(TO_A3), 32, TO_W4, Last(TO_A4)) { Turns(Last(TO_A3), 32, TO_W4, TO_A4); }
  lemma ToTurn5() ensures Leads(Last(TO_A4), 40, TO_W5, Last(TO_A5)) { Turns(Last(TO_A4), 40, TO_W5, TO_A5); }
  lemma ToTurn6() ensures Leads(Last(TO_A5), 48, TO_W6, Last(TO_A6)) { Turns(Last(TO_A5), 48, TO_W6, TO_A6); }
  lemma ToTurn7() ensures Leads(Last(TO_A6), 56, TO_W7, Last(TO_A7)) { Turns(Last(TO_A6), 56, TO_W7, TO_A7); }
  lemma ToTurn8() ensures Leads(Last(TO_A7), 64, TO_W8, Last(TO_A8)) { Turns(Last(TO_A7), 64, TO_W8, TO_A8); }
  lemma ToTurn9() ensures Leads(Last(TO_A8), 72, TO_W9, Last(TO_A9)) { Turns(Last(TO_A8), 72, TO_W9, TO_A9); }
  lemma ToSum() ensures Sum(KO_HASH, Last(TO_A9)) == TO_HASH {}

  lemma To(b: seq<bv32>)
    requires |b| == 16 && Window(b, 0, TO_W0) && Window(b, 8, TO_W1)
    ensures Compress(KO_HASH, b) == TO_HASH
  {
    hide *;
    CompressIs(KO_HASH, b);
    ToRow0(); ToTurn0(); Eight(KO_HASH, b, 0, KO_HASH, TO_W0, TO_W1, TO_W2, Last(TO_A0));
    ToRow1(); ToTurn1(); Eight(KO_HASH, b, 8, Last(TO_A0), TO_W1, TO_W2, TO_W3, Last(TO_A1));
    ToRow2(); ToTurn2(); Eight(KO_HASH, b, 16, Last(TO_A1), TO_W2, TO_W3, TO_W4, Last(TO_A2));
    ToRow3(); ToTurn3(); Eight(KO_HASH, b, 24, Last(TO_A2), TO_W3, TO_W4, TO_W5, Last(TO_A3));
    ToRow4(); ToTurn4(); Eight(KO_HASH, b, 32, Last(TO_A3), TO_W4, TO_W5, TO_W6, Last(TO_A4));
    ToRow5(); ToTurn5(); Eight(KO_HASH, b, 40, Last(TO_A4), TO_W5, TO_W6, TO_W7, Last(TO_A5));
    ToRow6(); ToTurn6(); Eight(KO_HASH, b, 48, Last(TO_A5), TO_W6, TO_W7, TO_W8, Last(TO_A6));
    ToRow7(); ToTurn7(); Eight(KO_HASH, b, 56, Last(TO_A6), TO_W7, TO_W8, TO_W9, Last(TO_A7));
    ToTurn8(); LastEight(KO_HASH, b, 64, Last(TO_A7), TO_W8, Last(TO_A8));
    ToTurn9(); LastEight(KO_HASH, b, 72, Last(TO_A8), TO_W9, Last(TO_A9));
    ToSum();
  }

  // ---------------------------------------------------------------- the results

  lemma NoByte()
    ensures ByteOf(0) == 0
  {
  }

  lemma ShortLength(n: nat)
    requires n < 0x1_0000
    ensures Length64(n) == Zeros(6) + [ByteOf(n / 0x100), ByteOf(n)]
  {
    hide ByteOf;
    NoByte();
  }

  lemma ByteValues()
    ensures ByteOf(0) == 0 && ByteOf(2) == 2 && ByteOf(24) == 0x18 && ByteOf(64) == 0x40 && ByteOf(160) == 0xa0
  {
  }

  lemma WrappedByte(n: nat)
    requires 512 <= n < 768
    ensures ByteOf(n) == ByteOf(n - 512)
  {
    assert n % 256 == n - 512;
  }

  lemma LengthBytes()
    ensures Length64(24) == Zeros(7) + [0x18]
    ensures Length64(576) == Zeros(6) + [2, 0x40] && Length64(672) == Zeros(6) + [2, 0xa0]
  {
    hide Length64, ByteOf;
    ShortLength(24);
    ShortLength(576);
    ShortLength(672);
    ByteValues();
    WrappedByte(576);
    WrappedByte(672);
  }

  function AbcBlock(): (b: seq<bv32>)
    ensures |b| == 16
  {
    [0x61626380] + seq(14, _ => 0) + [0x18]
  }

  lemma AbcBytes()
    ensures WordBytes(0x61626380) == [0x61, 0x62, 0x63, 0x80] && WordBytes(0x18) == Zeros(3) + [0x18]
  {
  }

  lemma AbcPadded()
    ensures Pad([0x61, 0x62, 0x63]) == Flat(AbcBlock())
  {
    hide Flat, WordBytes, Length64;
    var z: seq<bv32> := seq(14, _ => 0);
    FlatOne(0x61626380);
    FlatZeros(14);
    FlatOne(0x18);
    FlatAppend([0x61626380] + z, [0x18]);
    FlatAppend([0x61626380], z);
    AbcBytes();
    LengthBytes();
    assert Zeros(52) + Zeros(4) == Zeros(56);
  }

  lemma AbcRows()
    ensures Window(AbcBlock(), 0, AB_W0) && Window(AbcBlock(), 8, AB_W1)
  {
    hide Window;
    FirstRows(AbcBlock(), AB_W0, AB_W1);
  }

  lemma AbcDigest()
    ensures DigestBytes(AB_HASH) == [0xa9, 0x99, 0x3e, 0x36, 0x47, 0x06, 0x81, 0x6a, 0xba, 0x3e,
                       0x25, 0x71, 0x78, 0x50, 0xc2, 0x6c, 0x9c, 0xd0, 0xd8, 0x9d]
  {
  }

  /** The digest of "abc". */
  lemma Sha1OfAbc()
    ensures Sha1Spec.Sha1([0x61, 0x62, 0x63]) == [0xa9, 0x99, 0x3e, 0x36, 0x47, 0x06, 0x81, 0x6a, 0xba, 0x3e,
                       0x25, 0x71, 0x78, 0x50, 0xc2, 0x6c, 0x9c, 0xd0, 0xd8, 0x9d]
  {
    hide Pad, Absorb, Flat, AbcBlock, Window, DigestBytes, Compress, AB_HASH;
    AbcPadded();
    AbcRows();
    Ab(AbcBlock());
    AbsorbBlock([], AbcBlock());
    assert [] + Flat(AbcBlock()) == Flat(AbcBlock());
    AbcDigest();
  }

  /** The last block of a message that ends in these words. */
  function TextBlock(ws: seq<bv32>, bits: bv32): (b: seq<bv32>)
    requires |ws| <= 13
    ensures |b| == 16
  {
    ws + [0x8000_0000] + seq(13 - |ws|, _ => 0) + [0, bits]
  }

  lemma TopBit()
    ensures WordBytes(0x8000_0000) == [0x80] + Zeros(3)
  {
  }

  lemma TextIsPadded(ws: seq<bv32>, bits: bv32)
    requires |ws| <= 13
    ensures Flat(TextBlock(ws, bits)) == Flat(ws) + [0x80] + Zeros(55 - 4 * |ws|) + Flat([0, bits])
  {
    hide Flat, WordBytes;
    var z := seq(13 - |ws|, _ => 0 as bv32);
    FlatOne(0x8000_0000);
    FlatZeros(13 - |ws|);
    FlatAppend(ws + [0x8000_0000] + z, [0, bits]);
    FlatAppend(ws + [0x8000_0000], z);
    FlatAppend(ws, [0x8000_0000]);
    TopBit();
    assert Zeros(3) + Zeros(4 * (13 - |ws|)) == Zeros(55 - 4 * |ws|);
  }

  /** A message of a block and a few words takes two compressions. */
  lemma TwoBlocks(k: seq<bv32>, ws: seq<bv32>, bits: bv32, h: Hash, r: Hash)
    requires |k| == 16 && |ws| <= 13 && Compress(IV, k) == h && Compress(h, TextBlock(ws, bits)) == r
    requires Length64(8 * (64 + 4 * |ws|)) == Flat([0, bits])
    ensures Sha1Spec.Sha1(Flat(k) + Flat(ws)) == DigestBytes(r)
  {
    hide Compress, Absorb, Flat, Length64, TextBlock, DigestBytes;
    var b := TextBlock(ws, bits);
    AbsorbBlock([], k);
    AbsorbBlock(Flat(k), b);
    TextIsPadded(ws, bits);
    assert [] + Flat(k) == Flat(k);
    assert (55 - (64 + 4 * |ws|)) % BLOCK == 55 - 4 * |ws|;
    assert Pad(Flat(k) + Flat(ws)) == Flat(k) + Flat(b);
  }

  function HashWords(h: Hash): seq<bv32> {
    [h.a, h.b, h.c, h.d, h.e]
  }

  lemma {:induction false} DigestIsFlat(r: Hash)
    ensures DigestBytes(r) == Flat(HashWords(r))
  {
    hide WordBytes, Flat;
    FlatOne(r.a);
    FlatOne(r.b);
    FlatOne(r.c);
    FlatOne(r.d);
    FlatOne(r.e);
    FlatAppend([r.a], [r.b]);
    FlatAppend([r.a] + [r.b], [r.c]);
    FlatAppend([r.a] + [r.b] + [r.c], [r.d]);
    FlatAppend([r.a] + [r.b] + [r.c] + [r.d], [r.e]);
    assert HashWords(r) == [r.a] + [r.b] + [r.c] + [r.d] + [r.e];
  }

  // ---------------------------------------------------------------- "password" and "salt"

  const PASSWORD: seq<bv8> := [0x70, 0x61, 0x73, 0x73, 0x77, 0x6f, 0x72, 0x64]
  const SALT: seq<bv8> := [0x73, 0x61, 0x6c, 0x74]

  /** A block that begins with two words and goes on with others all alike. */
  function KeyWords(u: bv32, v: bv32, w: bv32): (b: seq<bv32>)
    ensures |b| == 16
  {
    [u, v] + seq(14, _ => w)
  }

  lemma XorZeros(n: nat, pad: bv8)
    ensures XorWith(Zeros(n), pad) == seq(n, _ => pad)
  {
    assert forall i :: 0 <= i < n ==> XorWith(Zeros(n), pad)[i] == 0 ^ pad == pad;
  }

  lemma XorAppendAt(s: seq<bv8>, t: seq<bv8>, pad: bv8, i: nat)
    requires i < |s + t|
    ensures XorWith(s + t, pad)[i] == (XorWith(s, pad) + XorWith(t, pad))[i]
  {
    if i < |s| {
      assert (s + t)[i] == s[i];
    } else {
      assert (s + t)[i] == t[i - |s|];
    }
  }

  lemma XorAppend(s: seq<bv8>, t: seq<bv8>, pad: bv8)
    ensures XorWith(s + t, pad) == XorWith(s, pad) + XorWith(t, pad)
  {
    hide XorWith;
    forall i | 0 <= i < |s + t|
      ensures XorWith(s + t, pad)[i] == (XorWith(s, pad) + XorWith(t, pad))[i]
    {
      XorAppendAt(s, t, pad, i);
    }
  }

  lemma KeyIsFlat(pad: bv8, u: bv32, v: bv32, w: bv32)
    requires WordBytes(u) + WordBytes(v) == XorWith(PASSWORD, pad) && WordBytes(w) == [pad, pad, pad, pad]
    ensures XorWith(KeyBlock(PASSWORD), pad) == Flat(KeyWords(u, v, w))
  {
    hide WordBytes, Sha1Spec.Sha1, XorWith, Flat;
    assert KeyBlock(PASSWORD) == PASSWORD + Zeros(56);
    XorAppend(PASSWORD, Zeros(56), pad);
    XorZeros(56, pad);
    FlatTwo(u, v);
    FlatSame(14, w, pad);
    FlatAppend([u, v], seq(14, _ => w));
  }

  lemma KeyBytes()
    ensures WordBytes(KI_W0.w0) + WordBytes(KI_W0.w1) == XorWith(PASSWORD, IPAD)
    ensures WordBytes(KO_W0.w0) + WordBytes(KO_W0.w1) == XorWith(PASSWORD, OPAD)
    ensures WordBytes(0x36363636) == [IPAD, IPAD, IPAD, IPAD] && WordBytes(0x5c5c5c5c) == [OPAD, OPAD, OPAD, OPAD]
  {
  }

  lemma InnerKey() returns (k: seq<bv32>)
    ensures |k| == 16 && XorWith(KeyBlock(PASSWORD), IPAD) == Flat(k) && Compress(IV, k) == KI_HASH
  {
    hide WordBytes, XorWith, Flat, KeyBlock, Compress, Window;
    k := KeyWords(KI_W0.w0, KI_W0.w1, 0x36363636);
    KeyBytes();
    KeyIsFlat(IPAD, KI_W0.w0, KI_W0.w1, 0x36363636);
    FirstRows(k, KI_W0, KI_W1);
    Ki(k);
  }

  lemma OuterKey() returns (k: seq<bv32>)
    ensures |k| == 16 && XorWith(KeyBlock(PASSWORD), OPAD) == Flat(k) && Compress(IV, k) == KO_HASH
  {
    hide WordBytes, XorWith, Flat, KeyBlock, Compress, Window;
    k := KeyWords(KO_W0.w0, KO_W0.w1, 0x5c5c5c5c);
    KeyBytes();
    KeyIsFlat(OPAD, KO_W0.w0, KO_W0.w1, 0x5c5c5c5c);
    FirstRows(k, KO_W0, KO_W1);
    Ko(k);
  }

  lemma Lengths()
    ensures Length64(8 * 72) == Flat([0, 0x240]) && Length64(8 * 84) == Flat([0, 0x2a0])
  {
    assert WordBytes(0x240) == [0, 0, 2, 0x40] && WordBytes(0x2a0) == [0, 0, 2, 0xa0] && WordBytes(0) == [0, 0, 0, 0];
    hide Flat, Length64;
    LengthBytes();
    FlatTwo(0, 0x240);
    FlatTwo(0, 0x2a0);
  }

  lemma SaltIsFlat()
    ensures SALT + Int32(1) == Flat([0x73616c74, 1])
  {
    hide Flat;
    FlatTwo(0x73616c74, 1);
  }

  lemma InnerText()
    ensures Compress(KI_HASH, TextBlock([0x73616c74, 1], 0x240)) == TI_HASH
  {
    hide Compress, Window;
    FirstRows(TextBlock([0x73616c74, 1], 0x240), TI_W0, TI_W1);
    Ti(TextBlock([0x73616c74, 1], 0x240));
  }

  lemma OuterText()
    ensures Compress(KO_HASH, TextBlock(HashWords(TI_HASH), 0x2a0)) == TO_HASH
  {
    hide Compress, Window;
    FirstRows(TextBlock(HashWords(TI_HASH), 0x2a0), TO_W0, TO_W1);
    To(TextBlock(HashWords(TI_HASH), 0x2a0));
  }

  lemma InnerHash() returns (k: seq<bv32>)
    ensures |k| == 16 && Compress(IV, k) == KO_HASH && XorWith(KeyBlock(PASSWORD), OPAD) == Flat(k)
    ensures Sha1Spec.Sha1(XorWith(KeyBlock(PASSWORD), IPAD) + (SALT + Int32(1))) == DigestBytes(TI_HASH)
  {
    hide *;
    k := InnerKey();
    SaltIsFlat();
    Lengths();
    InnerText();
    TwoBlocks(k, [0x73616c74, 1], 0x240, KI_HASH, TI_HASH);
    k := OuterKey();
  }

  lemma MacDigest()
    ensures DigestBytes(TO_HASH) == [0x0c, 0x60, 0xc8, 0x0f, 0x96, 0x1f, 0x0e, 0x71, 0xf3, 0xa9,
                       0xb5, 0x24, 0xaf, 0x60, 0x12, 0x06, 0x2f, 0xe0, 0x37, 0xa6]
  {
  }

  /** The MAC of "salt" and the number 1 under the key "password". */
  lemma HmacOfSalt()
    ensures Hmac(PASSWORD, SALT + Int32(1)) == [0x0c, 0x60, 0xc8, 0x0f, 0x96, 0x1f, 0x0e, 0x71, 0xf3, 0xa9,
                       0xb5, 0x24, 0xaf, 0x60, 0x12, 0x06, 0x2f, 0xe0, 0x37, 0xa6]
  {
    hide Sha1Spec.Sha1, XorWith, KeyBlock, Flat, Compress, TextBlock, DigestBytes, Length64, Int32;
    var k := InnerHash();
    Lengths();
    OuterText();
    DigestIsFlat(TI_HASH);
    TwoBlocks(k, HashWords(TI_HASH), 0x2a0, KO_HASH, TO_HASH);
    MacDigest();
  }

  /** The first test vector of RFC 6070: "password", "salt", one iteration, 20 bytes. */
  lemma Rfc6070()
    ensures DerivedKey(PASSWORD, SALT, 1, 20) == [0x0c, 0x60, 0xc8, 0x0f, 0x96, 0x1f, 0x0e, 0x71, 0xf3, 0xa9,
                       0xb5, 0x24, 0xaf, 0x60, 0x12, 0x06, 0x2f, 0xe0, 0x37, 0xa6]
  {
    hide Hmac, PASSWORD, SALT, Int32;
    HmacOfSalt();
    assert Blocks(PASSWORD, SALT, 1, 1) == Blocks(PASSWORD, SALT, 1, 0) + T(PASSWORD, SALT, 1, 1);
    assert T(PASSWORD, SALT, 1, 1) == Hmac(PASSWORD, SALT + Int32(1));
  }
}
