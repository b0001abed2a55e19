// The published example of FIPS 180-4: the digest of "abc", round by round
// (core/src/crypto.cpp:10-110).
module Sha256Example {
  import opened Sha256

  // The one block of the padded message: three letters, the bit behind them, 24 bits of length.
  predicate IsAbc(b: Octets) {
    && |b| == 64 && b[0] == 0x61 && b[1] == 0x62 && b[2] == 0x63 && b[3] == 0x80 && b[63] == 0x18
    && forall i :: 4 <= i < 63 ==> b[i] == 0
  }

  // ----- the schedule -----

  lemma {:induction false} Words0(b: Octets)
    requires |b| == 64 && IsAbc(b)
    ensures W(b, 0) == 0x61626380 && W(b, 15) == 0x18
    ensures forall t :: 1 <= t < 15 ==> W(b, t) == 0
  {
    assert BigEndian(0x61, 0x62, 0x63, 0x80) == 0x61626380 && BigEndian(0, 0, 0, 0x18) == 0x18 && BigEndian(0, 0, 0, 0) == 0;
  }

  lemma {:induction false} Words16(b: Octets)
    requires |b| == 64 && IsAbc(b)
    ensures W(b, 16) == 0x61626380 && W(b, 17) == 0x000f0000 && W(b, 18) == 0x7da86405 && W(b, 19) == 0x600003c6
    ensures W(b, 20) == 0x3e9d7b78 && W(b, 21) == 0x0183fc00 && W(b, 22) == 0x12dcbfdb && W(b, 23) == 0xe2e2c38e
  {
    hide IsAbc;
    Words0(b);
    assert W(b, 16) == NextWord(0x00000000, 0x00000000, 0x00000000, 0x61626380);
    assert W(b, 17) == NextWord(0x00000018, 0x00000000, 0x00000000, 0x00000000);
    assert W(b, 18) == NextWord(0x61626380, 0x00000000, 0x00000000, 0x00000000);
    assert W(b, 19) == NextWord(0x000f0000, 0x00000000, 0x00000000, 0x00000000);
    assert W(b, 20) == NextWord(0x7da86405, 0x00000000, 0x00000000, 0x00000000);
    assert W(b, 21) == NextWord(0x600003c6, 0x00000000, 0x00000000, 0x00000000);
    assert W(b, 22) == NextWord(0x3e9d7b78, 0x00000018, 0x00000000, 0x00000000);
    assert W(b, 23) == NextWord(0x0183fc00, 0x61626380, 0x00000000, 0x00000000);
  }

  lemma {:induction false} Words24(b: Octets)
    requires |b| == 64 && IsAbc(b)
    ensures W(b, 24) == 0xc8215c1a && W(b, 25) == 0xb73679a2 && W(b, 26) == 0xe5bc3909 && W(b, 27) == 0x32663c5b
    ensures W(b, 28) == 0x9d209d67 && W(b, 29) == 0xec8726cb && W(b, 30) == 0x702138a4 && W(b, 31) == 0xd3b7973b
  {
    hide IsAbc;
    Words0(b);
    Words16(b);
    assert W(b, 24) == NextWord(0x12dcbfdb, 0x000f0000, 0x00000000, 0x00000000);
    assert W(b, 25) == NextWord(0xe2e2c38e, 0x7da86405, 0x00000000, 0x00000000);
    assert W(b, 26) == NextWord(0xc8215c1a, 0x600003c6, 0x00000000, 0x00000000);
    assert W(b, 27) == NextWord(0xb73679a2, 0x3e9d7b78, 0x00000000, 0x00000000);
    assert W(b, 28) == NextWord(0xe5bc3909, 0x0183fc00, 0x00000000, 0x00000000);
    assert W(b, 29) == NextWord(0x32663c5b, 0x12dcbfdb, 0x00000000, 0x00000000);
    assert W(b, 30) == NextWord(0x9d209d67, 0xe2e2c38e, 0x00000018, 0x00000000);
    assert W(b, 31) == NextWord(0xec8726cb, 0xc8215c1a, 0x61626380, 0x00000018);
  }

  lemma {:induction false} Words32(b: Octets)
    requires |b| == 64 && IsAbc(b)
    ensures W(b, 32) == 0x93f5997f && W(b, 33) == 0x3b68ba73 && W(b, 34) == 0xaff4ffc1 && W(b, 35) == 0xf10a5c62
    ensures W(b, 36) == 0x0a8b3996 && W(b, 37) == 0x72af830a && W(b, 38) == 0x9409e33e && W(b, 39) == 0x24641522
  {
    hide IsAbc;
    Words16(b);
    Words24(b);
    assert W(b, 32) == NextWord(0x702138a4, 0xb73679a2, 0x000f0000, 0x61626380);
    assert W(b, 33) == NextWord(0xd3b7973b, 0xe5bc3909, 0x7da86405, 0x000f0000);
    assert W(b, 34) == NextWord(0x93f5997f, 0x32663c5b, 0x600003c6, 0x7da86405);
    assert W(b, 35) == NextWord(0x3b68ba73, 0x9d209d67, 0x3e9d7b78, 0x600003c6);
    assert W(b, 36) == NextWord(0xaff4ffc1, 0xec8726cb, 0x0183fc00, 0x3e9d7b78);
    assert W(b, 37) == NextWord(0xf10a5c62, 0x702138a4, 0x12dcbfdb, 0x0183fc00);
    assert W(b, 38) == NextWord(0x0a8b3996, 0xd3b7973b, 0xe2e2c38e, 0x12dcbfdb);
    assert W(b, 39) == NextWord(0x72af830a, 0x93f5997f, 0xc8215c1a, 0xe2e2c38e);
  }

  lemma {:induction false} Words40(b: Octets)
    requires |b| == 64 && IsAbc(b)
    ensures W(b, 40) == 0x9f47bf94 && W(b, 41) == 0xf0a64f5a && W(b, 42) == 0x3e246a79 && W(b, 43) == 0x27333ba3
    ensures W(b, 44) == 0x0c4763f2 && W(b, 45) == 0x840abf27 && W(b, 46) == 0x7a290d5d && W(b, 47) == 0x065c43da
  {
    hide IsAbc;
    Words24(b);
    Words32(b);
    assert W(b, 40) == NextWord(0x9409e33e, 0x3b68ba73, 0xb73679a2, 0xc8215c1a);
    assert W(b, 41) == NextWord(0x24641522, 0xaff4ffc1, 0xe5bc3909, 0xb73679a2);
    assert W(b, 42) == NextWord(0x9f47bf94, 0xf10a5c62, 0x32663c5b, 0xe5bc3909);
    assert W(b, 43) == NextWord(0xf0a64f5a, 0x0a8b3996, 0x9d209d67, 0x32663c5b);
    assert W(b, 44) == NextWord(0x3e246a79, 0x72af830a, 0xec8726cb, 0x9d209d67);
    assert W(b, 45) == NextWord(0x27333ba3, 0x9409e33e, 0x702138a4, 0xec8726cb);
    assert W(b, 46) == NextWord(0x0c4763f2, 0x24641522, 0xd3b7973b, 0x702138a4);
    assert W(b, 47) == NextWord(0x840abf27, 0x9f47bf94, 0x93f5997f, 0xd3b7973b);
  }

  lemma {:induction false} Words48(b: Octets)
    requires |b| == 64 && IsAbc(b)
    ensures W(b, 48) == 0xfb3e89cb && W(b, 49) == 0xcc7617db && W(b, 50) == 0xb9e66c34 && W(b, 51) == 0xa9993667
    ensures W(b, 52) == 0x84badedd && W(b, 53) == 0xc21462bc && W(b, 54) == 0x1487472c && W(b, 55) == 0xb20f7a99
  {
    hide IsAbc;
    Words32(b);
    Words40(b);
    assert W(b, 48) == NextWord(0x7a290d5d, 0xf0a64f5a, 0x3b68ba73, 0x93f5997f);
    assert W(b, 49) == NextWord(0x065c43da, 0x3e246a79, 0xaff4ffc1, 0x3b68ba73);
    assert W(b, 50) == NextWord(0xfb3e89cb, 0x27333ba3, 0xf10a5c62, 0xaff4ffc1);
    assert W(b, 51) == NextWord(0xcc7617db, 0x0c4763f2, 0x0a8b3996, 0xf10a5c62);
    assert W(b, 52) == NextWord(0xb9e66c34, 0x840abf27, 0x72af830a, 0x0a8b3996);
    assert W(b, 53) == NextWord(0xa9993667, 0x7a290d5d, 0x9409e33e, 0x72af830a);
    assert W(b, 54) == NextWord(0x84badedd, 0x065c43da, 0x24641522, 0x9409e33e);
    assert W(b, 55) == NextWord(0xc21462bc, 0xfb3e89cb, 0x9f47bf94, 0x24641522);
  }

  lemma {:induction false} Words56(b: Octets)
    requires |b| == 64 && IsAbc(b)
    ensures W(b, 56) == 0xef57b9cd && W(b, 57) == 0xebe6b238 && W(b, 58) == 0x9fe3095e && W(b, 59) == 0x78bc8d4b
    ensures W(b, 60) == 0xa43fcf15 && W(b, 61) == 0x668b2ff8 && W(b, 62) == 0xeeaba2cc && W(b, 63) == 0x12b1edeb
  {
    hide IsAbc;
    Words40(b);
    Words48(b);
    assert W(b, 56) == NextWord(0x1487472c, 0xcc7617db, 0xf0a64f5a, 0x9f47bf94);
    assert W(b, 57) == NextWord(0xb20f7a99, 0xb9e66c34, 0x3e246a79, 0xf0a64f5a);
    assert W(b, 58) == NextWord(0xef57b9cd, 0xa9993667, 0x27333ba3, 0x3e246a79);
    assert W(b, 59) == NextWord(0xebe6b238, 0x84badedd, 0x0c4763f2, 0x27333ba3);
    assert W(b, 60) == NextWord(0x9fe3095e, 0xc21462bc, 0x840abf27, 0x0c4763f2);
    assert W(b, 61) == NextWord(0x78bc8d4b, 0x1487472c, 0x7a290d5d, 0x840abf27);
    assert W(b, 62) == NextWord(0xa43fcf15, 0xb20f7a99, 0x065c43da, 0x7a290d5d);
    assert W(b, 63) == NextWord(0x668b2ff8, 0xef57b9cd, 0xfb3e89cb, 0x065c43da);
  }

  // ----- the rounds -----

  lemma {:induction false} Rounds4(b: Octets)
    requires |b| == 64 && IsAbc(b)
    ensures Rounds(b, INITIAL, 4) == Vars(0xd550f666, 0xc8c347a7, 0x5a6ad9ad, 0x5d6aebcd, 0x24e00850, 0xf92939eb, 0x78ce7989, 0xfa2a4622)
  {
    hide IsAbc, W;
    Words0(b);
    assert Rounds(b, INITIAL, 1) == Vars(0x5d6aebcd, 0x6a09e667, 0xbb67ae85, 0x3c6ef372, 0xfa2a4622, 0x510e527f, 0x9b05688c, 0x1f83d9ab);
    assert Rounds(b, INITIAL, 2) == Vars(0x5a6ad9ad, 0x5d6aebcd, 0x6a09e667, 0xbb67ae85, 0x78ce7989, 0xfa2a4622, 0x510e527f, 0x9b05688c);
    assert Rounds(b, INITIAL, 3) == Vars(0xc8c347a7, 0x5a6ad9ad, 0x5d6aebcd, 0x6a09e667, 0xf92939eb, 0x78ce7989, 0xfa2a4622, 0x510e527f);
  }

  lemma {:induction false} Rounds8(b: Octets)
    requires |b| == 64 && IsAbc(b)
    ensures Rounds(b, INITIAL, 8) == Vars(0x85a07b5f, 0xe5030380, 0x2b4209f5, 0x04409a6a, 0x0c657a79, 0x9b27a401, 0x714260ad, 0x43ada245)
  {
    hide IsAbc, W;
    Words0(b);
    Rounds4(b);
    assert Rounds(b, INITIAL, 5) == Vars(0x04409a6a, 0xd550f666, 0xc8c347a7, 0x5a6ad9ad, 0x43ada245, 0x24e00850, 0xf92939eb, 0x78ce7989);
    assert Rounds(b, INITIAL, 6) == Vars(0x2b4209f5, 0x04409a6a, 0xd550f666, 0xc8c347a7, 0x714260ad, 0x43ada245, 0x24e00850, 0xf92939eb);
    assert Rounds(b, INITIAL, 7) == Vars(0xe5030380, 0x2b4209f5, 0x04409a6a, 0xd550f666, 0x9b27a401, 0x714260ad, 0x43ada245, 0x24e00850);
  }

  lemma {:induction false} Rounds12(b: Octets)
    requires |b| == 64 && IsAbc(b)
    ensures Rounds(b, INITIAL, 12) == Vars(0xf71fc5a9, 0x4798a3f4, 0x8c87346b, 0x8e04ecb9, 0x816fd6e9, 0x436b23e8, 0x1cc92596, 0x32ca2d8c)
  {
    hide IsAbc, W;
    Words0(b);
    Rounds8(b);
    assert Rounds(b, INITIAL, 9) == Vars(0x8e04ecb9, 0x85a07b5f, 0xe5030380, 0x2b4209f5, 0x32ca2d8c, 0x0c657a79, 0x9b27a401, 0x714260ad);
    assert Rounds(b, INITIAL, 10) == Vars(0x8c87346b, 0x8e04ecb9, 0x85a07b5f, 0xe5030380, 0x1cc92596, 0x32ca2d8c, 0x0c657a79, 0x9b27a401);
    assert Rounds(b, INITIAL, 11) == Vars(0x4798a3f4, 0x8c87346b, 0x8e04ecb9, 0x85a07b5f, 0x436b23e8, 0x1cc92596, 0x32ca2d8c, 0x0c657a79);
  }

  lemma {:induction false} Rounds16(b: Octets)
    requires |b| == 64 && IsAbc(b)
    ensures Rounds(b, INITIAL, 16) == Vars(0xb0fa238e, 0xc0645fde, 0xd932eb16, 0x87912990, 0x07590dcd, 0x0b92f20c, 0x745a48de, 0x1e578218)
  {
    hide IsAbc, W;
    Words0(b);
    Rounds12(b);
    assert Rounds(b, INITIAL, 13) == Vars(0x87912990, 0xf71fc5a9, 0x4798a3f4, 0x8c87346b, 0x1e578218, 0x816fd6e9, 0x436b23e8, 0x1cc92596);
    assert Rounds(b, INITIAL, 14) == Vars(0xd932eb16, 0x87912990, 0xf71fc5a9, 0x4798a3f4, 0x745a48de, 0x1e578218, 0x816fd6e9, 0x436b23e8);
    assert Rounds(b, INITIAL, 15) == Vars(0xc0645fde, 0xd932eb16, 0x87912990, 0xf71fc5a9, 0x0b92f20c, 0x745a48de, 0x1e578218, 0x816fd6e9);
  }

  lemma {:induction false} Rounds20(b: Octets)
    requires |b| == 64 && IsAbc(b)
    ensures Rounds(b, INITIAL, 20) == Vars(0xe1f20c33, 0xfe777bbf, 0xc2fbd9d1, 0x21da9a9b, 0xb0638179, 0xcc899961, 0x846ee454, 0x8034229c)
  {
    hide IsAbc, W;
    Words16(b);
    Rounds16(b);
    assert Rounds(b, INITIAL, 17) == Vars(0x21da9a9b, 0xb0fa238e, 0xc0645fde, 0xd932eb16, 0x8034229c, 0x07590dcd, 0x0b92f20c, 0x745a48de);
    assert Rounds(b, INITIAL, 18) == Vars(0xc2fbd9d1, 0x21da9a9b, 0xb0fa238e, 0xc0645fde, 0x846ee454, 0x8034229c, 0x07590dcd, 0x0b92f20c);
    assert Rounds(b, INITIAL, 19) == Vars(0xfe777bbf, 0xc2fbd9d1, 0x21da9a9b, 0xb0fa238e, 0xcc899961, 0x846ee454, 0x8034229c, 0x07590dcd);
  }

  lemma {:induction false} Rounds24(b: Octets)
    requires |b| == 64 && IsAbc(b)
    ensures Rounds(b, INITIAL, 24) == Vars(0xc5d53d8d, 0xa7a3623f, 0xc2606d6d, 0x9dc68b63, 0xaa47c347, 0x49f5114a, 0xe1257970, 0x8ada8930)
  {
    hide IsAbc, W;
    Words16(b);
    Rounds20(b);
    assert Rounds(b, INITIAL, 21) == Vars(0x9dc68b63, 0xe1f20c33, 0xfe777bbf, 0xc2fbd9d1, 0x8ada8930, 0xb0638179, 0xcc899961, 0x846ee454);
    assert Rounds(b, INITIAL, 22) == Vars(0xc2606d6d, 0x9dc68b63, 0xe1f20c33, 0xfe777bbf, 0xe1257970, 0x8ada8930, 0xb0638179, 0xcc899961);
    assert Rounds(b, INITIAL, 23) == Vars(0xa7a3623f, 0xc2606d6d, 0x9dc68b63, 0xe1f20c33, 0x49f5114a, 0xe1257970, 0x8ada8930, 0xb0638179);
  }

  lemma {:induction false} Rounds28(b: Octets)
    requires |b| == 64 && IsAbc(b)
    ensures Rounds(b, INITIAL, 28) == Vars(0x77d37528, 0xb62ec4bc, 0xcde8037d, 0x1c2c2838, 0xedffbff8, 0xc74c6516, 0x14383d8e, 0x2823ef91)
  {
    hide IsAbc, W;
    Words24(b);
    Rounds24(b);
    assert Rounds(b, INITIAL, 25) == Vars(0x1c2c2838, 0xc5d53d8d, 0xa7a3623f, 0xc2606d6d, 0x2823ef91, 0xaa47c347, 0x49f5114a, 0xe1257970);
    assert Rounds(b, INITIAL, 26) == Vars(0xcde8037d, 0x1c2c2838, 0xc5d53d8d, 0xa7a3623f, 0x14383d8e, 0x2823ef91, 0xaa47c347, 0x49f5114a);
    assert Rounds(b, INITIAL, 27) == Vars(0xb62ec4bc, 0xcde8037d, 0x1c2c2838, 0xc5d53d8d, 0xc74c6516, 0x14383d8e, 0x2823ef91, 0xaa47c347);
  }

  lemma {:induction false} Rounds32(b: Octets)
    requires |b| == 64 && IsAbc(b)
    ensures Rounds(b, INITIAL, 32) == Vars(0x73b33bf5, 0xea992a22, 0xa0060b30, 0x363482c9, 0xba591112, 0x0109ab3a, 0xade79437, 0x6112a3b7)
  {
    hide IsAbc, W;
    Words24(b);
    Rounds28(b);
    assert Rounds(b, INITIAL, 29) == Vars(0x363482c9, 0x77d37528, 0xb62ec4bc, 0xcde8037d, 0x6112a3b7, 0xedffbff8, 0xc74c6516, 0x14383d8e);
    assert Rounds(b, INITIAL, 30) == Vars(0xa0060b30, 0x363482c9, 0x77d37528, 0xb62ec4bc, 0xade79437, 0x6112a3b7, 0xedffbff8, 0xc74c6516);
    assert Rounds(b, INITIAL, 31) == Vars(0xea992a22, 0xa0060b30, 0x363482c9, 0x77d37528, 0x0109ab3a, 0xade79437, 0x6112a3b7, 0xedffbff8);
  }

  lemma {:induction false} Rounds36(b: Octets)
    requires |b| == 64 && IsAbc(b)
    ensures Rounds(b, INITIAL, 36) == Vars(0x65a0cfe4, 0xa9a7738c, 0xfe604df5, 0x98e12507, 0xf4b002d6, 0x085f3833, 0x59249dd3, 0x9cd9f5f6)
  {
    hide IsAbc, W;
    Words32(b);
    Rounds32(b);
    assert Rounds(b, INITIAL, 33) == Vars(0x98e12507, 0x73b33bf5, 0xea992a22, 0xa0060b30, 0x9cd9f5f6, 0xba591112, 0x0109ab3a, 0xade79437);
    assert Rounds(b, INITIAL, 34) == Vars(0xfe604df5, 0x98e12507, 0x73b33bf5, 0xea992a22, 0x59249dd3, 0x9cd9f5f6, 0xba591112, 0x0109ab3a);
    assert Rounds(b, INITIAL, 35) == Vars(0xa9a7738c, 0xfe604df5, 0x98e12507, 0x73b33bf5, 0x085f3833, 0x59249dd3, 0x9cd9f5f6, 0xba591112);
  }

  lemma {:induction false} Rounds40(b: Octets)
    requires |b| == 64 && IsAbc(b)
    ensures Rounds(b, INITIAL, 40) == Vars(0x79ea687a, 0x6dc57a8a, 0x34df1604, 0x41a65cb1, 0x1efbc0a0, 0xf0781bc8, 0xa507a53d, 0x0772a26b)
  {
    hide IsAbc, W;
    Words32(b);
    Rounds36(b);
    assert Rounds(b, INITIAL, 37) == Vars(0x41a65cb1, 0x65a0cfe4, 0xa9a7738c, 0xfe604df5, 0x0772a26b, 0xf4b002d6, 0x085f3833, 0x59249dd3);
    assert Rounds(b, INITIAL, 38) == Vars(0x34df1604, 0x41a65cb1, 0x65a0cfe4, 0xa9a7738c, 0xa507a53d, 0x0772a26b, 0xf4b002d6, 0x085f3833);
    assert Rounds(b, INITIAL, 39) == Vars(0x6dc57a8a, 0x34df1604, 0x41a65cb1, 0x65a0cfe4, 0xf0781bc8, 0xa507a53d, 0x0772a26b, 0xf4b002d6);
  }

  lemma {:induction false} Rounds44(b: Octets)
    requires |b| == 64 && IsAbc(b)
    ensures Rounds(b, INITIAL, 44) == Vars(0x9d4baf93, 0x17aa0dfe, 0xdf46652f, 0xd6670766, 0xfda24c2e, 0xdecd4715, 0x838b2711, 0x26352d63)
  {
    hide IsAbc, W;
    Words40(b);
    Rounds40(b);
    assert Rounds(b, INITIAL, 41) == Vars(0xd6670766, 0x79ea687a, 0x6dc57a8a, 0x34df1604, 0x26352d63, 0x1efbc0a0, 0xf0781bc8, 0xa507a53d);
    assert Rounds(b, INITIAL, 42) == Vars(0xdf46652f, 0xd6670766, 0x79ea687a, 0x6dc57a8a, 0x838b2711, 0x26352d63, 0x1efbc0a0, 0xf0781bc8);
    assert Rounds(b, INITIAL, 43) == Vars(0x17aa0dfe, 0xdf46652f, 0xd6670766, 0x79ea687a, 0xdecd4715, 0x838b2711, 0x26352d63, 0x1efbc0a0);
  }

  lemma {:induction false} Rounds48(b: Octets)
    requires |b| == 64 && IsAbc(b)
    ensures Rounds(b, INITIAL, 48) == Vars(0x4172328d, 0xa14c14b0, 0x72ab4b91, 0x26628815, 0xfecf0bc6, 0xd57b94a9, 0xb7755da1, 0xa80f11f0)
  {
    hide IsAbc, W;
    Words40(b);
    Rounds44(b);
    assert Rounds(b, INITIAL, 45) == Vars(0x26628815, 0x9d4baf93, 0x17aa0dfe, 0xdf46652f, 0xa80f11f0, 0xfda24c2e, 0xdecd4715, 0x838b2711);
    assert Rounds(b, INITIAL, 46) == Vars(0x72ab4b91, 0x26628815, 0x9d4baf93, 0x17aa0dfe, 0xb7755da1, 0xa80f11f0, 0xfda24c2e, 0xdecd4715);
    assert Rounds(b, INITIAL, 47) == Vars(0xa14c14b0, 0x72ab4b91, 0x26628815, 0x9d4baf93, 0xd57b94a9, 0xb7755da1, 0xa80f11f0, 0xfda24c2e);
  }

  lemma {:induction false} Rounds52(b: Octets)
    requires |b| == 64 && IsAbc(b)
    ensures Rounds(b, INITIAL, 52) == Vars(0x886e7a22, 0x7a0508a1, 0xf11bfaa8, 0x05757ceb, 0x49231c1e, 0x52f1ccf7, 0x6e5c390c, 0xbd714038)
  {
    hide IsAbc, W;
    Words48(b);
    Rounds48(b);
    assert Rounds(b, INITIAL, 49) == Vars(0x05757ceb, 0x4172328d, 0xa14c14b0, 0x72ab4b91, 0xbd714038, 0xfecf0bc6, 0xd57b94a9, 0xb7755da1);
    assert Rounds(b, INITIAL, 50) == Vars(0xf11bfaa8, 0x05757ceb, 0x4172328d, 0xa14c14b0, 0x6e5c390c, 0xbd714038, 0xfecf0bc6, 0xd57b94a9);
    assert Rounds(b, INITIAL, 51) == Vars(0x7a0508a1, 0xf11bfaa8, 0x05757ceb, 0x4172328d, 0x52f1ccf7, 0x6e5c390c, 0xbd714038, 0xfecf0bc6);
  }

  lemma {:induction false} Rounds56(b: Octets)
    requires |b| == 64 && IsAbc(b)
    ensures Rounds(b, INITIAL, 56) == Vars(0x38cc9913, 0x3ec45cdb, 0xf5702fdb, 0x101fd28f, 0x54cb266b, 0xe50e1b4f, 0x9f4787c3, 0x529e7d00)
  {
    hide IsAbc, W;
    Words48(b);
    Rounds52(b);
    assert Rounds(b, INITIAL, 53) == Vars(0x101fd28f, 0x886e7a22, 0x7a0508a1, 0xf11bfaa8, 0x529e7d00, 0x49231c1e, 0x52f1ccf7, 0x6e5c390c);
    assert Rounds(b, INITIAL, 54) == Vars(0xf5702fdb, 0x101fd28f, 0x886e7a22, 0x7a0508a1, 0x9f4787c3, 0x529e7d00, 0x49231c1e, 0x52f1ccf7);
    assert Rounds(b, INITIAL, 55) == Vars(0x3ec45cdb, 0xf5702fdb, 0x101fd28f, 0x886e7a22, 0xe50e1b4f, 0x9f4787c3, 0x529e7d00, 0x49231c1e);
  }

  lemma {:induction false} Rounds60(b: Octets)
    requires |b| == 64 && IsAbc(b)
    ensures Rounds(b, INITIAL, 60) == Vars(0xb6ae8fff, 0xffb70472, 0xc062d46f, 0xfcd1887b, 0xb21bad3d, 0x6d83bfc6, 0x7e44008e, 0x9b5e906c)
  {
    hide IsAbc, W;
    Words56(b);
    Rounds56(b);
    assert Rounds(b, INITIAL, 57) == Vars(0xfcd1887b, 0x38cc9913, 0x3ec45cdb, 0xf5702fdb, 0x9b5e906c, 0x54cb266b, 0xe50e1b4f, 0x9f4787c3);
    assert Rounds(b, INITIAL, 58) == Vars(0xc062d46f, 0xfcd1887b, 0x38cc9913, 0x3ec45cdb, 0x7e44008e, 0x9b5e906c, 0x54cb266b, 0xe50e1b4f);
    assert Rounds(b, INITIAL, 59) == Vars(0xffb70472, 0xc062d46f, 0xfcd1887b, 0x38cc9913, 0x6d83bfc6, 0x7e44008e, 0x9b5e906c, 0x54cb266b);
  }

  lemma {:induction false} Rounds64(b: Octets)
    requires |b| == 64 && IsAbc(b)
    ensures Rounds(b, INITIAL, 64) == Vars(0x506e3058, 0xd39a2165, 0x04d24d6c, 0xb85e2ce9, 0x5ef50f24, 0xfb121210, 0x948d25b6, 0x961f4894)
  {
    hide IsAbc, W;
    Words56(b);
    Rounds60(b);
    assert Rounds(b, INITIAL, 61) == Vars(0xb85e2ce9, 0xb6ae8fff, 0xffb70472, 0xc062d46f, 0x961f4894, 0xb21bad3d, 0x6d83bfc6, 0x7e44008e);
    assert Rounds(b, INITIAL, 62) == Vars(0x04d24d6c, 0xb85e2ce9, 0xb6ae8fff, 0xffb70472, 0x948d25b6, 0x961f4894, 0xb21bad3d, 0x6d83bfc6);
    assert Rounds(b, INITIAL, 63) == Vars(0xd39a2165, 0x04d24d6c, 0xb85e2ce9, 0xb6ae8fff, 0xfb121210, 0x948d25b6, 0x961f4894, 0xb21bad3d);
  }

  // ----- the digest -----

  lemma {:induction false} AbcCompresses(b: Octets)
    requires |b| == 64 && IsAbc(b)
    ensures Compress(INITIAL, b) == Vars(0xba7816bf, 0x8f01cfea, 0x414140de, 0x5dae2223, 0xb00361a3, 0x96177a9c, 0xb410ff61, 0xf20015ad)
  {
    hide IsAbc, Rounds;
    Rounds64(b);
  }


  lemma {:induction false} AbcPads()
    ensures |Padded([0x61, 0x62, 0x63])| == 64 && IsAbc(Padded([0x61, 0x62, 0x63]))
  {
    hide Zeros, LengthBytes;
    assert ZeroCount(3) == 52;
    ZerosAreZero(52);
    LengthOfAbc();
  }

  lemma {:induction false} LengthOfAbc()
    ensures LengthBytes(24, 8) == [0, 0, 0, 0, 0, 0, 0, 0x18]
  {
    hide LengthByte;
    LengthByteOfAbc();
    assert LengthBytes(24, 2) == [0, 0];
    assert LengthBytes(24, 4) == [0, 0, 0, 0];
    assert LengthBytes(24, 6) == [0, 0, 0, 0, 0, 0];
  }

  lemma {:induction false} LengthByteOfAbc()
    ensures forall i :: 0 <= i < 7 ==> LengthByte(24, i) == 0
    ensures LengthByte(24, 7) == 0x18
  {
    hide LengthByte, Power256;
    Powers();
    LengthByteIs(24, 0, 0x100_0000_0000_0000, 0);
    LengthByteIs(24, 1, 0x1_0000_0000_0000, 0);
    LengthByteIs(24, 2, 0x100_0000_0000, 0);
    LengthByteIs(24, 3, 0x1_0000_0000, 0);
    LengthByteIs(24, 4, 0x100_0000, 0);
    LengthByteIs(24, 5, 0x1_0000, 0);
    LengthByteIs(24, 6, 0x100, 0);
    LengthByteIs(24, 7, 1, 24);
  }

  lemma {:induction false} Powers()
    ensures Power256(0) == 1 && Power256(1) == 0x100 && Power256(2) == 0x1_0000 && Power256(3) == 0x100_0000
    ensures Power256(4) == 0x1_0000_0000 && Power256(5) == 0x100_0000_0000
    ensures Power256(6) == 0x1_0000_0000_0000 && Power256(7) == 0x100_0000_0000_0000
  {
    assert Power256(2) == 256 * Power256(1);
    assert Power256(4) == 256 * Power256(3);
    assert Power256(6) == 256 * Power256(5);
  }

  // The length has its highest byte first, in eight bytes.
  lemma {:induction false} LengthIsBigEndian()
    ensures LengthBytes(0x0102_0304_0506_0708, 8) == [1, 2, 3, 4, 5, 6, 7, 8]
  {
    hide Power256, LengthByte;
    var bits := 0x0102_0304_0506_0708;
    LengthByteAt();
    assert LengthBytes(bits, 2) == [1, 2];
    assert LengthBytes(bits, 4) == [1, 2, 3, 4];
    assert LengthBytes(bits, 6) == [1, 2, 3, 4, 5, 6];
  }

  lemma {:induction false} LengthByteAt()
    ensures var bits := 0x0102_0304_0506_0708;
            && LengthByte(bits, 0) == 1 && LengthByte(bits, 1) == 2 && LengthByte(bits, 2) == 3 && LengthByte(bits, 3) == 4
            && LengthByte(bits, 4) == 5 && LengthByte(bits, 5) == 6 && LengthByte(bits, 6) == 7 && LengthByte(bits, 7) == 8
  {
    hide LengthByte, Power256;
    var bits := 0x0102_0304_0506_0708;
    Powers();
    LengthByteIs(0x0102_0304_0506_0708, 0, 0x100_0000_0000_0000, 1);
    LengthByteIs(0x0102_0304_0506_0708, 1, 0x1_0000_0000_0000, 2);
    LengthByteIs(0x0102_0304_0506_0708, 2, 0x100_0000_0000, 3);
    LengthByteIs(0x0102_0304_0506_0708, 3, 0x1_0000_0000, 4);
    LengthByteIs(0x0102_0304_0506_0708, 4, 0x100_0000, 5);
    LengthByteIs(0x0102_0304_0506_0708, 5, 0x1_0000, 6);
    LengthByteIs(0x0102_0304_0506_0708, 6, 0x100, 7);
    LengthByteIs(0x0102_0304_0506_0708, 7, 1, 8);
  }

  lemma {:induction false} LengthByteIs(bits: nat, i: nat, p: nat, octet: nat)
    requires i < 8 && p == Power256(7 - i) && p > 0 && octet < 256 && bits / p % 256 == octet
    ensures LengthByte(bits, i) == octet as Octet
  {
  }

  lemma {:induction false} DigestOfAbc()
    ensures Digest(Vars(0xba7816bf, 0x8f01cfea, 0x414140de, 0x5dae2223, 0xb00361a3, 0x96177a9c, 0xb410ff61, 0xf20015ad)) == [
      0xba, 0x78, 0x16, 0xbf, 0x8f, 0x01, 0xcf, 0xea,
      0x41, 0x41, 0x40, 0xde, 0x5d, 0xae, 0x22, 0x23,
      0xb0, 0x03, 0x61, 0xa3, 0x96, 0x17, 0x7a, 0x9c,
      0xb4, 0x10, 0xff, 0x61, 0xf2, 0x00, 0x15, 0xad]
  {
  }

  lemma {:induction false} HashOfAbc()
    ensures Hash([0x61, 0x62, 0x63]) == [
      0xba, 0x78, 0x16, 0xbf, 0x8f, 0x01, 0xcf, 0xea,
      0x41, 0x41, 0x40, 0xde, 0x5d, 0xae, 0x22, 0x23,
      0xb0, 0x03, 0x61, 0xa3, 0x96, 0x17, 0x7a, 0x9c,
      0xb4, 0x10, 0xff, 0x61, 0xf2, 0x00, 0x15, 0xad]
  {
    hide Padded, IsAbc, Compress, Digest, Rounds;
    var b := Padded([0x61, 0x62, 0x63]);
    AbcPads();
    AbcCompresses(b);
    DigestOfAbc();
    assert b[..0] == [] && b[0..] == b;
    assert Fold([]) == INITIAL;
  }
}
