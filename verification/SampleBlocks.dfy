/** The first block of the sample handshake of section 1.3 of RFC 6455, word by word. */
module SampleBlockOne {
  import opened WordVectors
  import opened Sha1Trace

  /** The message schedule. */
  function W(t: nat): bv32 {
    if t < 8 then
      Pick(t, 0x6447686c, 0x49484e68, 0x62584273, 0x5a534275, 0x6232356a, 0x5a513d3d, 0x32353845, 0x41464135)
    else if t < 16 then
      Pick(t - 8, 0x2d453931, 0x342d3437, 0x44412d39, 0x3543412d, 0x43354142, 0x30444338, 0x35423131, 0x80000000)
    else if t < 24 then
      Pick(t - 16, 0x363ca02c, 0x24e81236, 0x8856b441, 0x06fb3c92, 0x6fb4bcb6, 0x460b16e3, 0x599219ae, 0x35bf9369)
    else if t < 32 then
      Pick(t - 24, 0x3267458e, 0xf828fd04, 0x753a96a7, 0x6336f612, 0xc3d66383, 0x06eb86f9, 0x73b4fd42, 0xa503c5b8)
    else if t < 40 then
      Pick(t - 32, 0x15cdae35, 0x531e5dc5, 0x6fb6b7d0, 0x6c16e4ac, 0x4ddd36bd, 0x35d36946, 0xe8ae8b9c, 0x4a933ad0)
    else if t < 48 then
      Pick(t - 40, 0xce8628b4, 0x415dba9e, 0x2792f049, 0x8e9b79e7, 0x79c425c5, 0x6353b49d, 0x00994218, 0x8a950ed1)
    else if t < 56 then
      Pick(t - 48, 0xaf5d0b99, 0xfd9883de, 0x1ed8ffeb, 0xf007ff28, 0x425e3674, 0x059631c0, 0xad6c3c31, 0x860b71d7)
    else if t < 64 then
      Pick(t - 56, 0x87bfc548, 0x3e64f92d, 0x8d0ab761, 0x34e1ee35, 0x0acf5108, 0xc2b479da, 0x6c93370a, 0xf7935ba1)
    else if t < 72 then
      Pick(t - 64, 0xe91c91c1, 0xbed165a2, 0x4c3e4abe, 0x50d96238, 0xb6587dde, 0x1a2ee6e6, 0x2d335896, 0xf3495d0b)
    else
      Pick(t - 72, 0xf30e0a1d, 0x32ce5459, 0x7165e3b8, 0xab05ff94, 0xc5949f0b, 0xbcd84e4a, 0x07720392, 0xff3ff806)
  }

  /** The values of register a, from the five initial registers on. */
  function A(t: nat): bv32 {
    if t < 8 then
      Pick(t, 0x0f4b87c3, 0x40c951d8, 0x62eb73fa, 0xefcdab89, 0x67452301, 0x03fc011f, 0x2f793f55, 0xbe90ee8f)
    else if t < 16 then
      Pick(t - 8, 0x53e039ac, 0xdd8c7c12, 0x7320b969, 0x73553e84, 0x2e0ce601, 0x32beb05a, 0xfaad2675, 0x5ff4238c)
    else if t < 24 then
      Pick(t - 16, 0x34ceb986, 0x61bdb2bf, 0xae1a096e, 0xe922cc9d, 0xa004c468, 0xd7daf575, 0x7ebb296b, 0x8dc510b6)
    else if t < 32 then
      Pick(t - 24, 0x091ab97c, 0x518470a3, 0xd12f0b56, 0xbeafd554, 0x250e26ef, 0x23d1c91b, 0x748b39a0, 0xef012f20)
    else if t < 40 then
      Pick(t - 32, 0x571f7d82, 0x1abb1c37, 0x081b63e5, 0xb7dabc8b, 0xa6680a1f, 0x1ae360a9, 0xeeaba35a, 0x149bb4d3)
    else if t < 48 then
      Pick(t - 40, 0x9de793c8, 0x4ccd2227, 0x68760824, 0xd0869081, 0x2ba2c83e, 0xcb8c52d0, 0x4f589a44, 0x868829b7)
    else if t < 56 then
      Pick(t - 48, 0x6dc6a3d7, 0x5f5f3452, 0x72ff334d, 0xdee4b7a8, 0xabe1748a, 0x7510d04f, 0x065f8486, 0x0e5d77c4)
    else if t < 64 then
      Pick(t - 56, 0x10e7f671, 0x26c69395, 0x4c608ac4, 0x50c9104c, 0x7e1242f2, 0x6ef6fef4, 0x0c247c2e, 0xd284f163)
    else if t < 72 then
      Pick(t - 64, 0x4872d85a, 0xcd4200b8, 0x90f00d8f, 0x840054d3, 0x685e2ff6, 0xa4cee018, 0xc3c2e45b, 0x53131a40)
    else if t < 80 then
      Pick(t - 72, 0xcf8658ec, 0x966e049a, 0x07381b7e, 0x80d59773, 0x7e65e044, 0x628e7b47, 0x143a8388, 0xe20983f9)
    else
      Pick(t - 80, 0x69cf0bca, 0x29171009, 0x97047bec, 0x835995e1, 0xf48a5426, 0x00000000, 0x00000000, 0x00000000)
  }

  predicate WordRight(t: nat) {
    t >= 16 && W(t) == NextWord(W(t - 3), W(t - 8), W(t - 14), W(t - 16))
  }

  predicate RoundRight(t: nat) {
    A(t + 5) == NextA(t, W(t), A(t + 4), A(t + 3), A(t + 2), A(t + 1), A(t))
  }

  lemma Words(t: nat)
    requires 16 <= t < 80
    ensures WordRight(t)
  {
    if t < 20 {
      WordsFrom16(t);
    } else if t < 24 {
      WordsFrom20(t);
    } else if t < 28 {
      WordsFrom24(t);
    } else if t < 32 {
      WordsFrom28(t);
    } else if t < 36 {
      WordsFrom32(t);
    } else if t < 40 {
      WordsFrom36(t);
    } else if t < 44 {
      WordsFrom40(t);
    } else if t < 48 {
      WordsFrom44(t);
    } else if t < 52 {
      WordsFrom48(t);
    } else if t < 56 {
      WordsFrom52(t);
    } else if t < 60 {
      WordsFrom56(t);
    } else if t < 64 {
      WordsFrom60(t);
    } else if t < 68 {
      WordsFrom64(t);
    } else if t < 72 {
      WordsFrom68(t);
    } else if t < 76 {
      WordsFrom72(t);
    } else {
      WordsFrom76(t);
    }
  }

  lemma WordsFrom16(t: nat)
    requires 16 <= t < 20
    ensures WordRight(t)
  {
    assert WordRight(16) && WordRight(17) && WordRight(18) && WordRight(19);
    Among4(WordRight, 16, t);
  }

  lemma WordsFrom20(t: nat)
    requires 20 <= t < 24
    ensures WordRight(t)
  {
    assert WordRight(20) && WordRight(21) && WordRight(22) && WordRight(23);
    Among4(WordRight, 20, t);
  }

  lemma WordsFrom24(t: nat)
    requires 24 <= t < 28
    ensures WordRight(t)
  {
    assert WordRight(24) && WordRight(25) && WordRight(26) && WordRight(27);
    Among4(WordRight, 24, t);
  }

  lemma WordsFrom28(t: nat)
    requires 28 <= t < 32
    ensures WordRight(t)
  {
    assert WordRight(28) && WordRight(29) && WordRight(30) && WordRight(31);
    Among4(WordRight, 28, t);
  }

  lemma WordsFrom32(t: nat)
    requires 32 <= t < 36
    ensures WordRight(t)
  {
    assert WordRight(32) && WordRight(33) && WordRight(34) && WordRight(35);
    Among4(WordRight, 32, t);
  }

  lemma WordsFrom36(t: nat)
    requires 36 <= t < 40
    ensures WordRight(t)
  {
    assert WordRight(36) && WordRight(37) && WordRight(38) && WordRight(39);
    Among4(WordRight, 36, t);
  }

  lemma WordsFrom40(t: nat)
    requires 40 <= t < 44
    ensures WordRight(t)
  {
    assert WordRight(40) && WordRight(41) && WordRight(42) && WordRight(43);
    Among4(WordRight, 40, t);
  }

  lemma WordsFrom44(t: nat)
    requires 44 <= t < 48
    ensures WordRight(t)
  {
    assert WordRight(44) && WordRight(45) && WordRight(46) && WordRight(47);
    Among4(WordRight, 44, t);
  }

  lemma WordsFrom48(t: nat)
    requires 48 <= t < 52
    ensures WordRight(t)
  {
    assert WordRight(48) && WordRight(49) && WordRight(50) && WordRight(51);
    Among4(WordRight, 48, t);
  }

  lemma WordsFrom52(t: nat)
    requires 52 <= t < 56
    ensures WordRight(t)
  {
    assert WordRight(52) && WordRight(53) && WordRight(54) && WordRight(55);
    Among4(WordRight, 52, t);
  }

  lemma WordsFrom56(t: nat)
    requires 56 <= t < 60
    ensures WordRight(t)
  {
    assert WordRight(56) && WordRight(57) && WordRight(58) && WordRight(59);
    Among4(WordRight, 56, t);
  }

  lemma WordsFrom60(t: nat)
    requires 60 <= t < 64
    ensures WordRight(t)
  {
    assert WordRight(60) && WordRight(61) && WordRight(62) && WordRight(63);
    Among4(WordRight, 60, t);
  }

  lemma WordsFrom64(t: nat)
    requires 64 <= t < 68
    ensures WordRight(t)
  {
    assert WordRight(64) && WordRight(65) && WordRight(66) && WordRight(67);
    Among4(WordRight, 64, t);
  }

  lemma WordsFrom68(t: nat)
    requires 68 <= t < 72
    ensures WordRight(t)
  {
    assert WordRight(68) && WordRight(69) && WordRight(70) && WordRight(71);
    Among4(WordRight, 68, t);
  }

  lemma WordsFrom72(t: nat)
    requires 72 <= t < 76
    ensures WordRight(t)
  {
    assert WordRight(72) && WordRight(73) && WordRight(74) && WordRight(75);
    Among4(WordRight, 72, t);
  }

  lemma WordsFrom76(t: nat)
    requires 76 <= t < 80
    ensures WordRight(t)
  {
    assert WordRight(76) && WordRight(77) && WordRight(78) && WordRight(79);
    Among4(WordRight, 76, t);
  }

  lemma Steps(t: nat)
    requires t < 80
    ensures RoundRight(t)
  {
    if t < 5 {
      StepsFrom0(t);
    } else if t < 10 {
      StepsFrom5(t);
    } else if t < 15 {
      StepsFrom10(t);
    } else if t < 20 {
      StepsFrom15(t);
    } else if t < 25 {
      StepsFrom20(t);
    } else if t < 30 {
      StepsFrom25(t);
    } else if t < 35 {
      StepsFrom30(t);
    } else if t < 40 {
      StepsFrom35(t);
    } else if t < 45 {
      StepsFrom40(t);
    } else if t < 50 {
      StepsFrom45(t);
    } else if t < 55 {
      StepsFrom50(t);
    } else if t < 60 {
      StepsFrom55(t);
    } else if t < 65 {
      StepsFrom60(t);
    } else if t < 70 {
      StepsFrom65(t);
    } else if t < 75 {
      StepsFrom70(t);
    } else {
      StepsFrom75(t);
    }
  }

  lemma StepsFrom0(t: nat)
    requires 0 <= t < 5
    ensures RoundRight(t)
  {
    assert RoundRight(0) && RoundRight(1) && RoundRight(2) && RoundRight(3) && RoundRight(4);
    Among5(RoundRight, 0, t);
  }

  lemma StepsFrom5(t: nat)
    requires 5 <= t < 10
    ensures RoundRight(t)
  {
    assert RoundRight(5) && RoundRight(6) && RoundRight(7) && RoundRight(8) && RoundRight(9);
    Among5(RoundRight, 5, t);
  }

  lemma StepsFrom10(t: nat)
    requires 10 <= t < 15
    ensures RoundRight(t)
  {
    assert RoundRight(10) && RoundRight(11) && RoundRight(12) && RoundRight(13) && RoundRight(14);
    Among5(RoundRight, 10, t);
  }

  lemma StepsFrom15(t: nat)
    requires 15 <= t < 20
    ensures RoundRight(t)
  {
    assert RoundRight(15) && RoundRight(16) && RoundRight(17) && RoundRight(18) && RoundRight(19);
    Among5(RoundRight, 15, t);
  }

  lemma StepsFrom20(t: nat)
    requires 20 <= t < 25
    ensures RoundRight(t)
  {
    assert RoundRight(20) && RoundRight(21) && RoundRight(22) && RoundRight(23) && RoundRight(24);
    Among5(RoundRight, 20, t);
  }

  lemma StepsFrom25(t: nat)
    requires 25 <= t < 30
    ensures RoundRight(t)
  {
    assert RoundRight(25) && RoundRight(26) && RoundRight(27) && RoundRight(28) && RoundRight(29);
    Among5(RoundRight, 25, t);
  }

  lemma StepsFrom30(t: nat)
    requires 30 <= t < 35
    ensures RoundRight(t)
  {
    assert RoundRight(30) && RoundRight(31) && RoundRight(32) && RoundRight(33) && RoundRight(34);
    Among5(RoundRight, 30, t);
  }

  lemma StepsFrom35(t: nat)
    requires 35 <= t < 40
    ensures RoundRight(t)
  {
    assert RoundRight(35) && RoundRight(36) && RoundRight(37) && RoundRight(38) && RoundRight(39);
    Among5(RoundRight, 35, t);
  }

  lemma StepsFrom40(t: nat)
    requires 40 <= t < 45
    ensures RoundRight(t)
  {
    assert RoundRight(40) && RoundRight(41) && RoundRight(42) && RoundRight(43) && RoundRight(44);
    Among5(RoundRight, 40, t);
  }

  lemma StepsFrom45(t: nat)
    requires 45 <= t < 50
    ensures RoundRight(t)
  {
    assert RoundRight(45) && RoundRight(46) && RoundRight(47) && RoundRight(48) && RoundRight(49);
    Among5(RoundRight, 45, t);
  }

  lemma StepsFrom50(t: nat)
    requires 50 <= t < 55
    ensures RoundRight(t)
  {
    assert RoundRight(50) && RoundRight(51) && RoundRight(52) && RoundRight(53) && RoundRight(54);
    Among5(RoundRight, 50, t);
  }

  lemma StepsFrom55(t: nat)
    requires 55 <= t < 60
    ensures RoundRight(t)
  {
    assert RoundRight(55) && RoundRight(56) && RoundRight(57) && RoundRight(58) && RoundRight(59);
    Among5(RoundRight, 55, t);
  }

  lemma StepsFrom60(t: nat)
    requires 60 <= t < 65
    ensures RoundRight(t)
  {
    assert RoundRight(60) && RoundRight(61) && RoundRight(62) && RoundRight(63) && RoundRight(64);
    Among5(RoundRight, 60, t);
  }

  lemma StepsFrom65(t: nat)
    requires 65 <= t < 70
    ensures RoundRight(t)
  {
    assert RoundRight(65) && RoundRight(66) && RoundRight(67) && RoundRight(68) && RoundRight(69);
    Among5(RoundRight, 65, t);
  }

  lemma StepsFrom70(t: nat)
    requires 70 <= t < 75
    ensures RoundRight(t)
  {
    assert RoundRight(70) && RoundRight(71) && RoundRight(72) && RoundRight(73) && RoundRight(74);
    Among5(RoundRight, 70, t);
  }

  lemma StepsFrom75(t: nat)
    requires 75 <= t < 80
    ensures RoundRight(t)
  {
    assert RoundRight(75) && RoundRight(76) && RoundRight(77) && RoundRight(78) && RoundRight(79);
    Among5(RoundRight, 75, t);
  }
}

/** The second block. */
module SampleBlockTwo {
  import opened WordVectors
  import opened Sha1Trace

  /** The message schedule. */
  function W(t: nat): bv32 {
    if t < 8 then
      Pick(t, 0x00000000, 0x00000000, 0x00000000, 0x00000000, 0x00000000, 0x00000000, 0x00000000, 0x00000000)
    else if t < 16 then
      Pick(t - 8, 0x00000000, 0x00000000, 0x00000000, 0x00000000, 0x00000000, 0x00000000, 0x00000000, 0x000001e0)
    else if t < 24 then
      Pick(t - 16, 0x00000000, 0x00000000, 0x000003c0, 0x00000000, 0x00000000, 0x00000780, 0x00000000, 0x000003c0)
    else if t < 32 then
      Pick(t - 24, 0x00000f00, 0x00000000, 0x00000000, 0x00001e00, 0x00000000, 0x00000cc0, 0x00003c00, 0x00000440)
    else if t < 40 then
      Pick(t - 32, 0x00000000, 0x00007800, 0x00000f00, 0x00003300, 0x0000f000, 0x00000f00, 0x00000000, 0x0001ef00)
    else if t < 48 then
      Pick(t - 40, 0x00000000, 0x0000cc00, 0x0003c000, 0x00004380, 0x00000000, 0x00078f00, 0x0000ff00, 0x00032680)
    else if t < 56 then
      Pick(t - 48, 0x000f0000, 0x0000f000, 0x00003300, 0x001eff00, 0x00000000, 0x000cb800, 0x003c0000, 0x00040b00)
    else if t < 64 then
      Pick(t - 56, 0x0000f000, 0x0078ff00, 0x000ff000, 0x00338700, 0x00f00000, 0x000fc300, 0x0000f000, 0x01efbb00)
    else if t < 72 then
      Pick(t - 64, 0x00000000, 0x00cc0000, 0x03c0f000, 0x00438000, 0x00000000, 0x078f0000, 0x00ff0000, 0x03269e00)
    else
      Pick(t - 72, 0x0f000000, 0x00f0f000, 0x00333c00, 0x1eff8800, 0x00000000, 0x0cb88800, 0x3c00f000, 0x040a4a00)
  }

  /** The values of register a, from the five initial registers on. */
  function A(t: nat): bv32 {
    if t < 8 then
      Pick(t, 0x791a9389, 0x69e061e1, 0xf9efefe6, 0x7327416a, 0x5bcf7727, 0x6d335cde, 0x186006b8, 0xf9fb295d)
    else if t < 16 then
      Pick(t - 8, 0x15855523, 0xe43dd2f2, 0x93a5efbb, 0xb3bbcafe, 0x25c018be, 0x80946593, 0x0b0814c3, 0x4ce92417)
    else if t < 24 then
      Pick(t - 16, 0x250601ad, 0x6576d2dc, 0xad43f39e, 0x990b7be7, 0x986df268, 0x3ad7440e, 0x72198f06, 0x2f193a09)
    else if t < 32 then
      Pick(t - 24, 0x2a008b51, 0x12315b2b, 0x40fbcf98, 0x3e5179e7, 0x53c73650, 0x1d24c44a, 0x646c677d, 0xd2e726da)
    else if t < 40 then
      Pick(t - 32, 0x9327df6f, 0xf57cb53e, 0x243ee057, 0xf4ddd7b7, 0x3cf6eb58, 0x730e9170, 0x96d9e59e, 0x942ac4d3)
    else if t < 48 then
      Pick(t - 40, 0x76922a14, 0x7dbcf2ed, 0x796adef3, 0xc6ff0cd3, 0x6f698f1a, 0x78716769, 0xfc343a02, 0xedfcd85b)
    else if t < 56 then
      Pick(t - 48, 0x1e934acf, 0xfc7bd35f, 0x3bd9203b, 0xc8cda3da, 0xa3ef857e, 0xa39f2041, 0xa516f265, 0xa3abe4f5)
    else if t < 64 then
      Pick(t - 56, 0x5fe2a3db, 0x9e540637, 0x2c73bd78, 0x660dd0b1, 0xa1b68141, 0x05033fa3, 0x21289715, 0x085eb2fe)
    else if t < 72 then
      Pick(t - 64, 0x56119f19, 0x77489e23, 0x11132f8f, 0xd5ef1ed7, 0xa5937450, 0x9ecfa66c, 0x17a22ef7, 0xc97f1968)
    else if t < 80 then
      Pick(t - 72, 0x097a511c, 0x4e363db9, 0xbf3a7f95, 0xf6d1afee, 0xc90888ca, 0xc7652edb, 0x26f99990, 0xe22b36d1)
    else
      Pick(t - 80, 0x51e08021, 0xd3010335, 0x49e92837, 0x4d3b0dac, 0x57aad805, 0x00000000, 0x00000000, 0x00000000)
  }

  predicate WordRight(t: nat) {
    t >= 16 && W(t) == NextWord(W(t - 3), W(t - 8), W(t - 14), W(t - 16))
  }

  predicate RoundRight(t: nat) {
    A(t + 5) == NextA(t, W(t), A(t + 4), A(t + 3), A(t + 2), A(t + 1), A(t))
  }

  lemma Words(t: nat)
    requires 16 <= t < 80
    ensures WordRight(t)
  {
    if t < 20 {
      WordsFrom16(t);
    } else if t < 24 {
      WordsFrom20(t);
    } else if t < 28 {
      WordsFrom24(t);
    } else if t < 32 {
      WordsFrom28(t);
    } else if t < 36 {
      WordsFrom32(t);
    } else if t < 40 {
      WordsFrom36(t);
    } else if t < 44 {
      WordsFrom40(t);
    } else if t < 48 {
      WordsFrom44(t);
    } else if t < 52 {
      WordsFrom48(t);
    } else if t < 56 {
      WordsFrom52(t);
    } else if t < 60 {
      WordsFrom56(t);
    } else if t < 64 {
      WordsFrom60(t);
    } else if t < 68 {
      WordsFrom64(t);
    } else if t < 72 {
      WordsFrom68(t);
    } else if t < 76 {
      WordsFrom72(t);
    } else {
      WordsFrom76(t);
    }
  }

  lemma WordsFrom16(t: nat)
    requires 16 <= t < 20
    ensures WordRight(t)
  {
    assert WordRight(16) && WordRight(17) && WordRight(18) && WordRight(19);
    Among4(WordRight, 16, t);
  }

  lemma WordsFrom20(t: nat)
    requires 20 <= t < 24
    ensures WordRight(t)
  {
    assert WordRight(20) && WordRight(21) && WordRight(22) && WordRight(23);
    Among4(WordRight, 20, t);
  }

  lemma WordsFrom24(t: nat)
    requires 24 <= t < 28
    ensures WordRight(t)
  {
    assert WordRight(24) && WordRight(25) && WordRight(26) && WordRight(27);
    Among4(WordRight, 24, t);
  }

  lemma WordsFrom28(t: nat)
    requires 28 <= t < 32
    ensures WordRight(t)
  {
    assert WordRight(28) && WordRight(29) && WordRight(30) && WordRight(31);
    Among4(WordRight, 28, t);
  }

  lemma WordsFrom32(t: nat)
    requires 32 <= t < 36
    ensures WordRight(t)
  {
    assert WordRight(32) && WordRight(33) && WordRight(34) && WordRight(35);
    Among4(WordRight, 32, t);
  }

  lemma WordsFrom36(t: nat)
    requires 36 <= t < 40
    ensures WordRight(t)
  {
    assert WordRight(36) && WordRight(37) && WordRight(38) && WordRight(39);
    Among4(WordRight, 36, t);
  }

  lemma WordsFrom40(t: nat)
    requires 40 <= t < 44
    ensures WordRight(t)
  {
    assert WordRight(40) && WordRight(41) && WordRight(42) && WordRight(43);
    Among4(WordRight, 40, t);
  }

  lemma WordsFrom44(t: nat)
    requires 44 <= t < 48
    ensures WordRight(t)
  {
    assert WordRight(44) && WordRight(45) && WordRight(46) && WordRight(47);
    Among4(WordRight, 44, t);
  }

  lemma WordsFrom48(t: nat)
    requires 48 <= t < 52
    ensures WordRight(t)
  {
    assert WordRight(48) && WordRight(49) && WordRight(50) && WordRight(51);
    Among4(WordRight, 48, t);
  }

  lemma WordsFrom52(t: nat)
    requires 52 <= t < 56
    ensures WordRight(t)
  {
    assert WordRight(52) && WordRight(53) && WordRight(54) && WordRight(55);
    Among4(WordRight, 52, t);
  }

  lemma WordsFrom56(t: nat)
    requires 56 <= t < 60
    ensures WordRight(t)
  {
    assert WordRight(56) && WordRight(57) && WordRight(58) && WordRight(59);
    Among4(WordRight, 56, t);
  }

  lemma WordsFrom60(t: nat)
    requires 60 <= t < 64
    ensures WordRight(t)
  {
    assert WordRight(60) && WordRight(61) && WordRight(62) && WordRight(63);
    Among4(WordRight, 60, t);
  }

  lemma WordsFrom64(t: nat)
    requires 64 <= t < 68
    ensures WordRight(t)
  {
    assert WordRight(64) && WordRight(65) && WordRight(66) && WordRight(67);
    Among4(WordRight, 64, t);
  }

  lemma WordsFrom68(t: nat)
    requires 68 <= t < 72
    ensures WordRight(t)
  {
    assert WordRight(68) && WordRight(69) && WordRight(70) && WordRight(71);
    Among4(WordRight, 68, t);
  }

  lemma WordsFrom72(t: nat)
    requires 72 <= t < 76
    ensures WordRight(t)
  {
    assert WordRight(72) && WordRight(73) && WordRight(74) && WordRight(75);
    Among4(WordRight, 72, t);
  }

  lemma WordsFrom76(t: nat)
    requires 76 <= t < 80
    ensures WordRight(t)
  {
    assert WordRight(76) && WordRight(77) && WordRight(78) && WordRight(79);
    Among4(WordRight, 76, t);
  }

  lemma Steps(t: nat)
    requires t < 80
    ensures RoundRight(t)
  {
    if t < 5 {
      StepsFrom0(t);
    } else if t < 10 {
      StepsFrom5(t);
    } else if t < 15 {
      StepsFrom10(t);
    } else if t < 20 {
      StepsFrom15(t);
    } else if t < 25 {
      StepsFrom20(t);
    } else if t < 30 {
      StepsFrom25(t);
    } else if t < 35 {
      StepsFrom30(t);
    } else if t < 40 {
      StepsFrom35(t);
    } else if t < 45 {
      StepsFrom40(t);
    } else if t < 50 {
      StepsFrom45(t);
    } else if t < 55 {
      StepsFrom50(t);
    } else if t < 60 {
      StepsFrom55(t);
    } else if t < 65 {
      StepsFrom60(t);
    } else if t < 70 {
      StepsFrom65(t);
    } else if t < 75 {
      StepsFrom70(t);
    } else {
      StepsFrom75(t);
    }
  }

  lemma StepsFrom0(t: nat)
    requires 0 <= t < 5
    ensures RoundRight(t)
  {
    assert RoundRight(0) && RoundRight(1) && RoundRight(2) && RoundRight(3) && RoundRight(4);
    Among5(RoundRight, 0, t);
  }

  lemma StepsFrom5(t: nat)
    requires 5 <= t < 10
    ensures RoundRight(t)
  {
    assert RoundRight(5) && RoundRight(6) && RoundRight(7) && RoundRight(8) && RoundRight(9);
    Among5(RoundRight, 5, t);
  }

  lemma StepsFrom10(t: nat)
    requires 10 <= t < 15
    ensures RoundRight(t)
  {
    assert RoundRight(10) && RoundRight(11) && RoundRight(12) && RoundRight(13) && RoundRight(14);
    Among5(RoundRight, 10, t);
  }

  lemma StepsFrom15(t: nat)
    requires 15 <= t < 20
    ensures RoundRight(t)
  {
    assert RoundRight(15) && RoundRight(16) && RoundRight(17) && RoundRight(18) && RoundRight(19);
    Among5(RoundRight, 15, t);
  }

  lemma StepsFrom20(t: nat)
    requires 20 <= t < 25
    ensures RoundRight(t)
  {
    assert RoundRight(20) && RoundRight(21) && RoundRight(22) && RoundRight(23) && RoundRight(24);
    Among5(RoundRight, 20, t);
  }

  lemma StepsFrom25(t: nat)
    requires 25 <= t < 30
    ensures RoundRight(t)
  {
    assert RoundRight(25) && RoundRight(26) && RoundRight(27) && RoundRight(28) && RoundRight(29);
    Among5(RoundRight, 25, t);
  }

  lemma StepsFrom30(t: nat)
    requires 30 <= t < 35
    ensures RoundRight(t)
  {
    assert RoundRight(30) && RoundRight(31) && RoundRight(32) && RoundRight(33) && RoundRight(34);
    Among5(RoundRight, 30, t);
  }

  lemma StepsFrom35(t: nat)
    requires 35 <= t < 40
    ensures RoundRight(t)
  {
    assert RoundRight(35) && RoundRight(36) && RoundRight(37) && RoundRight(38) && RoundRight(39);
    Among5(RoundRight, 35, t);
  }

  lemma StepsFrom40(t: nat)
    requires 40 <= t < 45
    ensures RoundRight(t)
  {
    assert RoundRight(40) && RoundRight(41) && RoundRight(42) && RoundRight(43) && RoundRight(44);
    Among5(RoundRight, 40, t);
  }

  lemma StepsFrom45(t: nat)
    requires 45 <= t < 50
    ensures RoundRight(t)
  {
    assert RoundRight(45) && RoundRight(46) && RoundRight(47) && RoundRight(48) && RoundRight(49);
    Among5(RoundRight, 45, t);
  }

  lemma StepsFrom50(t: nat)
    requires 50 <= t < 55
    ensures RoundRight(t)
  {
    assert RoundRight(50) && RoundRight(51) && RoundRight(52) && RoundRight(53) && RoundRight(54);
    Among5(RoundRight, 50, t);
  }

  lemma StepsFrom55(t: nat)
    requires 55 <= t < 60
    ensures RoundRight(t)
  {
    assert RoundRight(55) && RoundRight(56) && RoundRight(57) && RoundRight(58) && RoundRight(59);
    Among5(RoundRight, 55, t);
  }

  lemma StepsFrom60(t: nat)
    requires 60 <= t < 65
    ensures RoundRight(t)
  {
    assert RoundRight(60) && RoundRight(61) && RoundRight(62) && RoundRight(63) && RoundRight(64);
    Among5(RoundRight, 60, t);
  }

  lemma StepsFrom65(t: nat)
    requires 65 <= t < 70
    ensures RoundRight(t)
  {
    assert RoundRight(65) && RoundRight(66) && RoundRight(67) && RoundRight(68) && RoundRight(69);
    Among5(RoundRight, 65, t);
  }

  lemma StepsFrom70(t: nat)
    requires 70 <= t < 75
    ensures RoundRight(t)
  {
    assert RoundRight(70) && RoundRight(71) && RoundRight(72) && RoundRight(73) && RoundRight(74);
    Among5(RoundRight, 70, t);
  }

  lemma StepsFrom75(t: nat)
    requires 75 <= t < 80
    ensures RoundRight(t)
  {
    assert RoundRight(75) && RoundRight(76) && RoundRight(77) && RoundRight(78) && RoundRight(79);
    Among5(RoundRight, 75, t);
  }
}
