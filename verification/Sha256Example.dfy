/**
 The example that is published with the standard, worked out word by word and round by round: the
 hash of "abc". It holds the functions, the constants, the message schedule and the order of the
 working variables to what they are for everybody else.
 */
module Sha256Example {
  import opened Sha256Words
  import opened Sha256

  /** The one block of the padded message. */
  const ABC: Bytes := [0x61, 0x62, 0x63, 0x80] + Zeros(59) + [24]

  const DIGEST: Bytes :=
    [0xba, 0x78, 0x16, 0xbf, 0x8f, 0x01, 0xcf, 0xea, 0x41, 0x41, 0x40, 0xde, 0x5d, 0xae, 0x22, 0x23,
     0xb0, 0x03, 0x61, 0xa3, 0x96, 0x17, 0x7a, 0x9c, 0xb4, 0x10, 0xff, 0x61, 0xf2, 0x00, 0x15, 0xad]

  lemma Words0()
    ensures W(ABC, 0) == 0x61626380 && W(ABC, 1) == 0x00000000 && W(ABC, 2) == 0x00000000 && W(ABC, 3) == 0x00000000
    ensures W(ABC, 4) == 0x00000000 && W(ABC, 5) == 0x00000000 && W(ABC, 6) == 0x00000000 && W(ABC, 7) == 0x00000000
  {}

  lemma Constants0()
    ensures K[0] == 0x428a2f98 && K[1] == 0x71374491 && K[2] == 0xb5c0fbcf && K[3] == 0xe9b5dba5
    ensures K[4] == 0x3956c25b && K[5] == 0x59f111f1 && K[6] == 0x923f82a4 && K[7] == 0xab1c5ed5
  {}

  lemma Words1()
    ensures W(ABC, 8) == 0x00000000 && W(ABC, 9) == 0x00000000 && W(ABC, 10) == 0x00000000 && W(ABC, 11) == 0x00000000
    ensures W(ABC, 12) == 0x00000000 && W(ABC, 13) == 0x00000000 && W(ABC, 14) == 0x00000000 && W(ABC, 15) == 0x00000018
  {}

  lemma Constants1()
    ensures K[8] == 0xd807aa98 && K[9] == 0x12835b01 && K[10] == 0x243185be && K[11] == 0x550c7dc3
    ensures K[12] == 0x72be5d74 && K[13] == 0x80deb1fe && K[14] == 0x9bdc06a7 && K[15] == 0xc19bf174
  {}

  lemma Words2()
    ensures W(ABC, 16) == 0x61626380 && W(ABC, 17) == 0x000f0000 && W(ABC, 18) == 0x7da86405 && W(ABC, 19) == 0x600003c6
    ensures W(ABC, 20) == 0x3e9d7b78 && W(ABC, 21) == 0x0183fc00 && W(ABC, 22) == 0x12dcbfdb && W(ABC, 23) == 0xe2e2c38e
  {
    Words0();
    Words1();
  }

  lemma Constants2()
    ensures K[16] == 0xe49b69c1 && K[17] == 0xefbe4786 && K[18] == 0x0fc19dc6 && K[19] == 0x240ca1cc
    ensures K[20] == 0x2de92c6f && K[21] == 0x4a7484aa && K[22] == 0x5cb0a9dc && K[23] == 0x76f988da
  {}

  lemma Words3()
    ensures W(ABC, 24) == 0xc8215c1a && W(ABC, 25) == 0xb73679a2 && W(ABC, 26) == 0xe5bc3909 && W(ABC, 27) == 0x32663c5b
    ensures W(ABC, 28) == 0x9d209d67 && W(ABC, 29) == 0xec8726cb && W(ABC, 30) == 0x702138a4 && W(ABC, 31) == 0xd3b7973b
  {
    Words1();
    Words2();
  }

  lemma Constants3()
    ensures K[24] == 0x983e5152 && K[25] == 0xa831c66d && K[26] == 0xb00327c8 && K[27] == 0xbf597fc7
    ensures K[28] == 0xc6e00bf3 && K[29] == 0xd5a79147 && K[30] == 0x06ca6351 && K[31] == 0x14292967
  {}

  lemma Words4()
    ensures W(ABC, 32) == 0x93f5997f && W(ABC, 33) == 0x3b68ba73 && W(ABC, 34) == 0xaff4ffc1 && W(ABC, 35) == 0xf10a5c62
    ensures W(ABC, 36) == 0x0a8b3996 && W(ABC, 37) == 0x72af830a && W(ABC, 38) == 0x9409e33e && W(ABC, 39) == 0x24641522
  {
    Words2();
    Words3();
  }

  lemma Constants4()
    ensures K[32] == 0x27b70a85 && K[33] == 0x2e1b2138 && K[34] == 0x4d2c6dfc && K[35] == 0x53380d13
    ensures K[36] == 0x650a7354 && K[37] == 0x766a0abb && K[38] == 0x81c2c92e && K[39] == 0x92722c85
  {}

  lemma Words5()
    ensures W(ABC, 40) == 0x9f47bf94 && W(ABC, 41) == 0xf0a64f5a && W(ABC, 42) == 0x3e246a79 && W(ABC, 43) == 0x27333ba3
    ensures W(ABC, 44) == 0x0c4763f2 && W(ABC, 45) == 0x840abf27 && W(ABC, 46) == 0x7a290d5d && W(ABC, 47) == 0x065c43da
  {
    Words3();
    Words4();
  }

  lemma Constants5()
    ensures K[40] == 0xa2bfe8a1 && K[41] == 0xa81a664b && K[42] == 0xc24b8b70 && K[43] == 0xc76c51a3
    ensures K[44] == 0xd192e819 && K[45] == 0xd6990624 && K[46] == 0xf40e3585 && K[47] == 0x106aa070
  {}

  lemma Words6()
    ensures W(ABC, 48) == 0xfb3e89cb && W(ABC, 49) == 0xcc7617db && W(ABC, 50) == 0xb9e66c34 && W(ABC, 51) == 0xa9993667
    ensures W(ABC, 52) == 0x84badedd && W(ABC, 53) == 0xc21462bc && W(ABC, 54) == 0x1487472c && W(ABC, 55) == 0xb20f7a99
  {
    Words4();
    Words5();
  }

  lemma Constants6()
    ensures K[48] == 0x19a4c116 && K[49] == 0x1e376c08 && K[50] == 0x2748774c && K[51] == 0x34b0bcb5
    ensures K[52] == 0x391c0cb3 && K[53] == 0x4ed8aa4a && K[54] == 0x5b9cca4f && K[55] == 0x682e6ff3
  {}

  lemma Words7()
    ensures W(ABC, 56) == 0xef57b9cd && W(ABC, 57) == 0xebe6b238 && W(ABC, 58) == 0x9fe3095e && W(ABC, 59) == 0x78bc8d4b
    ensures W(ABC, 60) == 0xa43fcf15 && W(ABC, 61) == 0x668b2ff8 && W(ABC, 62) == 0xeeaba2cc && W(ABC, 63) == 0x12b1edeb
  {
    Words5();
    Words6();
  }

  lemma Constants7()
    ensures K[56] == 0x748f82ee && K[57] == 0x78a5636f && K[58] == 0x84c87814 && K[59] == 0x8cc70208
    ensures K[60] == 0x90befffa && K[61] == 0xa4506ceb && K[62] == 0xbef9a3f7 && K[63] == 0xc67178f2
  {}

  lemma Rounds0() returns (s: Hash)
    ensures Rounds(H0, K, ABC, 4) == s
    ensures s == Hash(0xd550f666, 0xc8c347a7, 0x5a6ad9ad, 0x5d6aebcd, 0x24e00850, 0xf92939eb, 0x78ce7989, 0xfa2a4622)
  {
    s := H0;
    Words0();
    Constants0();
    s := OneMore(0, s, 0x428a2f98, 0x61626380, 0x5d6aebcd, 0xfa2a4622);
    s := OneMore(1, s, 0x71374491, 0x00000000, 0x5a6ad9ad, 0x78ce7989);
    s := OneMore(2, s, 0xb5c0fbcf, 0x00000000, 0xc8c347a7, 0xf92939eb);
    s := OneMore(3, s, 0xe9b5dba5, 0x00000000, 0xd550f666, 0x24e00850);
  }

  lemma Rounds1() returns (s: Hash)
    ensures Rounds(H0, K, ABC, 8) == s
    ensures s == Hash(0x85a07b5f, 0xe5030380, 0x2b4209f5, 0x04409a6a, 0x0c657a79, 0x9b27a401, 0x714260ad, 0x43ada245)
  {
    s := Rounds0();
    Words0();
    Constants0();
    s := OneMore(4, s, 0x3956c25b, 0x00000000, 0x04409a6a, 0x43ada245);
    s := OneMore(5, s, 0x59f111f1, 0x00000000, 0x2b4209f5, 0x714260ad);
    s := OneMore(6, s, 0x923f82a4, 0x00000000, 0xe5030380, 0x9b27a401);
    s := OneMore(7, s, 0xab1c5ed5, 0x00000000, 0x85a07b5f, 0x0c657a79);
  }

  lemma Rounds2() returns (s: Hash)
    ensures Rounds(H0, K, ABC, 12) == s
    ensures s == Hash(0xf71fc5a9, 0x4798a3f4, 0x8c87346b, 0x8e04ecb9, 0x816fd6e9, 0x436b23e8, 0x1cc92596, 0x32ca2d8c)
  {
    s := Rounds1();
    Words1();
    Constants1();
    s := OneMore(8, s, 0xd807aa98, 0x00000000, 0x8e04ecb9, 0x32ca2d8c);
    s := OneMore(9, s, 0x12835b01, 0x00000000, 0x8c87346b, 0x1cc92596);
    s := OneMore(10, s, 0x243185be, 0x00000000, 0x4798a3f4, 0x436b23e8);
    s := OneMore(11, s, 0x550c7dc3, 0x00000000, 0xf71fc5a9, 0x816fd6e9);
  }

  lemma Rounds3() returns (s: Hash)
    ensures Rounds(H0, K, ABC, 16) == s
    ensures s == Hash(0xb0fa238e, 0xc0645fde, 0xd932eb16, 0x87912990, 0x07590dcd, 0x0b92f20c, 0x745a48de, 0x1e578218)
  {
    s := Rounds2();
    Words1();
    Constants1();
    s := OneMore(12, s, 0x72be5d74, 0x00000000, 0x87912990, 0x1e578218);
    s := OneMore(13, s, 0x80deb1fe, 0x00000000, 0xd932eb16, 0x745a48de);
    s := OneMore(14, s, 0x9bdc06a7, 0x00000000, 0xc0645fde, 0x0b92f20c);
    s := OneMore(15, s, 0xc19bf174, 0x00000018, 0xb0fa238e, 0x07590dcd);
  }

  lemma Rounds4() returns (s: Hash)
    ensures Rounds(H0, K, ABC, 20) == s
    ensures s == Hash(0xe1f20c33, 0xfe777bbf, 0xc2fbd9d1, 0x21da9a9b, 0xb0638179, 0xcc899961, 0x846ee454, 0x8034229c)
  {
    s := Rounds3();
    Words2();
    Constants2();
    s := OneMore(16, s, 0xe49b69c1, 0x61626380, 0x21da9a9b, 0x8034229c);
    s := OneMore(17, s, 0xefbe4786, 0x000f0000, 0xc2fbd9d1, 0x846ee454);
    s := OneMore(18, s, 0x0fc19dc6, 0x7da86405, 0xfe777bbf, 0xcc899961);
    s := OneMore(19, s, 0x240ca1cc, 0x600003c6, 0xe1f20c33, 0xb0638179);
  }

  lemma Rounds5() returns (s: Hash)
    ensures Rounds(H0, K, ABC, 24) == s
    ensures s == Hash(0xc5d53d8d, 0xa7a3623f, 0xc2606d6d, 0x9dc68b63, 0xaa47c347, 0x49f5114a, 0xe1257970, 0x8ada8930)
  {
    s := Rounds4();
    Words2();
    Constants2();
    s := OneMore(20, s, 0x2de92c6f, 0x3e9d7b78, 0x9dc68b63, 0x8ada8930);
    s := OneMore(21, s, 0x4a7484aa, 0x0183fc00, 0xc2606d6d, 0xe1257970);
    s := OneMore(22, s, 0x5cb0a9dc, 0x12dcbfdb, 0xa7a3623f, 0x49f5114a);
    s := OneMore(23, s, 0x76f988da, 0xe2e2c38e, 0xc5d53d8d, 0xaa47c347);
  }

  lemma Rounds6() returns (s: Hash)
    ensures Rounds(H0, K, ABC, 28) == s
    ensures s == Hash(0x77d37528, 0xb62ec4bc, 0xcde8037d, 0x1c2c2838, 0xedffbff8, 0xc74c6516, 0x14383d8e, 0x2823ef91)
  {
    s := Rounds5();
    Words3();
    Constants3();
    s := OneMore(24, s, 0x983e5152, 0xc8215c1a, 0x1c2c2838, 0x2823ef91);
    s := OneMore(25, s, 0xa831c66d, 0xb73679a2, 0xcde8037d, 0x14383d8e);
    s := OneMore(26, s, 0xb00327c8, 0xe5bc3909, 0xb62ec4bc, 0xc74c6516);
    s := OneMore(27, s, 0xbf597fc7, 0x32663c5b, 0x77d37528, 0xedffbff8);
  }

  lemma Rounds7() returns (s: Hash)
    ensures Rounds(H0, K, ABC, 32) == s
    ensures s == Hash(0x73b33bf5, 0xea992a22, 0xa0060b30, 0x363482c9, 0xba591112, 0x0109ab3a, 0xade79437, 0x6112a3b7)
  {
    s := Rounds6();
    Words3();
    Constants3();
    s := OneMore(28, s, 0xc6e00bf3, 0x9d209d67, 0x363482c9, 0x6112a3b7);
    s := OneMore(29, s, 0xd5a79147, 0xec8726cb, 0xa0060b30, 0xade79437);
    s := OneMore(30, s, 0x06ca6351, 0x702138a4, 0xea992a22, 0x0109ab3a);
    s := OneMore(31, s, 0x14292967, 0xd3b7973b, 0x73b33bf5, 0xba591112);
  }

  lemma Rounds8() returns (s: Hash)
    ensures Rounds(H0, K, ABC, 36) == s
    ensures s == Hash(0x65a0cfe4, 0xa9a7738c, 0xfe604df5, 0x98e12507, 0xf4b002d6, 0x085f3833, 0x59249dd3, 0x9cd9f5f6)
  {
    s := Rounds7();
    Words4();
    Constants4();
    s := OneMore(32, s, 0x27b70a85, 0x93f5997f, 0x98e12507, 0x9cd9f5f6);
    s := OneMore(33, s, 0x2e1b2138, 0x3b68ba73, 0xfe604df5, 0x59249dd3);
    s := OneMore(34, s, 0x4d2c6dfc, 0xaff4ffc1, 0xa9a7738c, 0x085f3833);
    s := OneMore(35, s, 0x53380d13, 0xf10a5c62, 0x65a0cfe4, 0xf4b002d6);
  }

  lemma Rounds9() returns (s: Hash)
    ensures Rounds(H0, K, ABC, 40) == s
    ensures s == Hash(0x79ea687a, 0x6dc57a8a, 0x34df1604, 0x41a65cb1, 0x1efbc0a0, 0xf0781bc8, 0xa507a53d, 0x0772a26b)
  {
    s := Rounds8();
    Words4();
    Constants4();
    s := OneMore(36, s, 0x650a7354, 0x0a8b3996, 0x41a65cb1, 0x0772a26b);
    s := OneMore(37, s, 0x766a0abb, 0x72af830a, 0x34df1604, 0xa507a53d);
    s := OneMore(38, s, 0x81c2c92e, 0x9409e33e, 0x6dc57a8a, 0xf0781bc8);
    s := OneMore(39, s, 0x92722c85, 0x24641522, 0x79ea687a, 0x1efbc0a0);
  }

  lemma Rounds10() returns (s: Hash)
    ensures Rounds(H0, K, ABC, 44) == s
    ensures s == Hash(0x9d4baf93, 0x17aa0dfe, 0xdf46652f, 0xd6670766, 0xfda24c2e, 0xdecd4715, 0x838b2711, 0x26352d63)
  {
    s := Rounds9();
    Words5();
    Constants5();
    s := OneMore(40, s, 0xa2bfe8a1, 0x9f47bf94, 0xd6670766, 0x26352d63);
    s := OneMore(41, s, 0xa81a664b, 0xf0a64f5a, 0xdf46652f, 0x838b2711);
    s := OneMore(42, s, 0xc24b8b70, 0x3e246a79, 0x17aa0dfe, 0xdecd4715);
    s := OneMore(43, s, 0xc76c51a3, 0x27333ba3, 0x9d4baf93, 0xfda24c2e);
  }

  lemma Rounds11() returns (s: Hash)
    ensures Rounds(H0, K, ABC, 48) == s
    ensures s == Hash(0x4172328d, 0xa14c14b0, 0x72ab4b91, 0x26628815, 0xfecf0bc6, 0xd57b94a9, 0xb7755da1, 0xa80f11f0)
  {
    s := Rounds10();
    Words5();
    Constants5();
    s := OneMore(44, s, 0xd192e819, 0x0c4763f2, 0x26628815, 0xa80f11f0);
    s := OneMore(45, s, 0xd6990624, 0x840abf27, 0x72ab4b91, 0xb7755da1);
    s := OneMore(46, s, 0xf40e3585, 0x7a290d5d, 0xa14c14b0, 0xd57b94a9);
    s := OneMore(47, s, 0x106aa070, 0x065c43da, 0x4172328d, 0xfecf0bc6);
  }

  lemma Rounds12() returns (s: Hash)
    ensures Rounds(H0, K, ABC, 52) == s
    ensures s == Hash(0x886e7a22, 0x7a0508a1, 0xf11bfaa8, 0x05757ceb, 0x49231c1e, 0x52f1ccf7, 0x6e5c390c, 0xbd714038)
  {
    s := Rounds11();
    Words6();
    Constants6();
    s := OneMore(48, s, 0x19a4c116, 0xfb3e89cb, 0x05757ceb, 0xbd714038);
    s := OneMore(49, s, 0x1e376c08, 0xcc7617db, 0xf11bfaa8, 0x6e5c390c);
    s := OneMore(50, s, 0x2748774c, 0xb9e66c34, 0x7a0508a1, 0x52f1ccf7);
    s := OneMore(51, s, 0x34b0bcb5, 0xa9993667, 0x886e7a22, 0x49231c1e);
  }

  lemma Rounds13() returns (s: Hash)
    ensures Rounds(H0, K, ABC, 56) == s
    ensures s == Hash(0x38cc9913, 0x3ec45cdb, 0xf5702fdb, 0x101fd28f, 0x54cb266b, 0xe50e1b4f, 0x9f4787c3, 0x529e7d00)
  {
    s := Rounds12();
    Words6();
    Constants6();
    s := OneMore(52, s, 0x391c0cb3, 0x84badedd, 0x101fd28f, 0x529e7d00);
    s := OneMore(53, s, 0x4ed8aa4a, 0xc21462bc, 0xf5702fdb, 0x9f4787c3);
    s := OneMore(54, s, 0x5b9cca4f, 0x1487472c, 0x3ec45cdb, 0xe50e1b4f);
    s := OneMore(55, s, 0x682e6ff3, 0xb20f7a99, 0x38cc9913, 0x54cb266b);
  }

  lemma Rounds14() returns (s: Hash)
    ensures Rounds(H0, K, ABC, 60) == s
    ensures s == Hash(0xb6ae8fff, 0xffb70472, 0xc062d46f, 0xfcd1887b, 0xb21bad3d, 0x6d83bfc6, 0x7e44008e, 0x9b5e906c)
  {
    s := Rounds13();
    Words7();
    Constants7();
    s := OneMore(56, s, 0x748f82ee, 0xef57b9cd, 0xfcd1887b, 0x9b5e906c);
    s := OneMore(57, s, 0x78a5636f, 0xebe6b238, 0xc062d46f, 0x7e44008e);
    s := OneMore(58, s, 0x84c87814, 0x9fe3095e, 0xffb70472, 0x6d83bfc6);
    s := OneMore(59, s, 0x8cc70208, 0x78bc8d4b, 0xb6ae8fff, 0xb21bad3d);
  }

  lemma Rounds15() returns (s: Hash)
    ensures Rounds(H0, K, ABC, 64) == s
    ensures s == Hash(0x506e3058, 0xd39a2165, 0x04d24d6c, 0xb85e2ce9, 0x5ef50f24, 0xfb121210, 0x948d25b6, 0x961f4894)
  {
    s := Rounds14();
    Words7();
    Constants7();
    s := OneMore(60, s, 0x90befffa, 0xa43fcf15, 0xb85e2ce9, 0x961f4894);
    s := OneMore(61, s, 0xa4506ceb, 0x668b2ff8, 0x04d24d6c, 0x948d25b6);
    s := OneMore(62, s, 0xbef9a3f7, 0xeeaba2cc, 0xd39a2165, 0xfb121210);
    s := OneMore(63, s, 0xc67178f2, 0x12b1edeb, 0x506e3058, 0x5ef50f24);
  }

  /** One round, which changes a and e and moves the other words on. */
  lemma OneMore(t: nat, s: Hash, k: Word, w: Word, a: Word, e: Word) returns (s1: Hash)
    requires t < 64 && Rounds(H0, K, ABC, t) == s && K[t] == k && W(ABC, t) == w
    requires Round(s, k, w).a == a && Round(s, k, w).e == e
    ensures s1 == Hash(a, s.a, s.b, s.c, e, s.e, s.f, s.g) && Rounds(H0, K, ABC, t + 1) == s1
  {
    s1 := Round(s, k, w);
  }

  lemma AbcIsPadded()
    ensures Pad([0x61, 0x62, 0x63]) == ABC
  {
    LengthOfAbc();
    assert Pad([0x61, 0x62, 0x63]) == [0x61, 0x62, 0x63] + [0x80] + Zeros(52) + (Zeros(7) + [24]);
    assert Zeros(52) + Zeros(7) == Zeros(59);
  }

  lemma LengthOfAbc()
    ensures LengthBlock(24) == Zeros(7) + [24]
  {
    NoByte(24, 0x100_0000_0000_0000);
    NoByte(24, 0x1_0000_0000_0000);
    NoByte(24, 0x100_0000_0000);
    NoByte(24, 0x1_0000_0000);
    NoByte(24, 0x100_0000);
    NoByte(24, 0x1_0000);
    NoByte(24, 0x100);
    assert Digit(24, 1) == 24;
  }

  lemma NoByte(n: nat, unit: nat)
    requires n < unit
    ensures ByteAt(n, unit) == 0
  {
    assert Digit(n, unit) == 0;
  }

  lemma AbcIsCompressed()
    ensures Compress(H0, ABC) == Hash(0xba7816bf, 0x8f01cfea, 0x414140de, 0x5dae2223, 0xb00361a3, 0x96177a9c, 0xb410ff61, 0xf20015ad)
  {
    var s := Rounds15();
  }

  lemma OneBlock()
    ensures Digest(H0, ABC) == Compress(H0, ABC)
  {
    assert ABC[..0] == [] && ABC[0..] == ABC;
  }

  lemma DigestInBytes()
    ensures HashBytes(Hash(0xba7816bf, 0x8f01cfea, 0x414140de, 0x5dae2223, 0xb00361a3, 0x96177a9c, 0xb410ff61, 0xf20015ad)) == DIGEST
  {}

  /** SHA-256 of "abc". */
  lemma AbcIsHashed()
    ensures Sha256.Sha256([0x61, 0x62, 0x63]) == DIGEST
  {
    AbcIsPadded();
    AbcIsCompressed();
    OneBlock();
    DigestInBytes();
  }
}
