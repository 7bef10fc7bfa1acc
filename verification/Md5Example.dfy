/** The digest of "abc", from the test suite in section A.5 of RFC 1321, worked out operation by operation. */
module Md5Example {
  import opened ByteStrings
  import opened Md5
  import opened Numerals

  /** The only block of the padded message. */
  function AbcBlock(): (x: seq<bv32>)
    ensures |x| == 16
  {
    [0x80636261, 0, 0, 0, 0, 0, 0, 0, 0, 0, 0, 0, 0, 0, 0x18, 0]
  }

  /** What the program's four registers hold before turn i over this block. */
  predicate At(i: nat, a: bv32, b: bv32, c: bv32, d: bv32)
    requires i <= 64
  {
    Rotated(i, RfcSteps(i, AbcBlock(), Sine, INIT)) == Regs(a, b, c, d)
  }

  lemma Start()
    ensures At(0, 0x67452301, 0xefcdab89, 0x98badcfe, 0x10325476)
  {
    hide AbcBlock;
    NoSteps(AbcBlock(), Sine, INIT);
  }

  /** Word and sine of turn i. */
  predicate Adds(i: nat, w: bv32, t: bv32) {
    i < 64 && AbcBlock()[WordOrder(i / 16, i % 16)] == w && Sine(i) == t
  }

  function Plus(x: bv32, y: bv32): bv32 {
    x + y
  }

  lemma Combined(f: bv32, w: bv32, a: bv32, t: bv32, b: bv32, n: nat)
    requires n < 32
    ensures Combine(f, w, a, t, b, n) == Plus(b, Rol(f + w + a + t, n))
  {
    hide Rol;
  }

  /** Turn i: f is the mixed word, e the rotated sum, v the new value. */
  lemma Turn(i: nat, a: bv32, b: bv32, c: bv32, d: bv32, w: bv32, t: bv32, f: bv32, n: nat, e: bv32,
             v: bv32)
    requires i < 64 && At(i, a, b, c, d) && Adds(i, w, t) && Mix(i / 16, b, c, d) == f
    requires Shift(i / 16, i % 4) == n && Rol(f + w + a + t, n) == e && v == b + e
    ensures At(i + 1, d, v, b, c)
  {
    hide RfcSteps, RfcStep, AbcBlock, Sine, WordOrder, Combine, Mix, Rol, Shift, LoopWord;
    Combined(f, w, a, t, b, n);
    OneMoreStep(i, AbcBlock(), Sine, INIT);
    LoopStepIsRfc(i, AbcBlock(), Sine, RfcSteps(i, AbcBlock(), Sine, INIT));
    LoopWordIsRfc(i);
  }

  lemma Turns2()
    ensures At(2, 0x98badcfe, 0x344a8432, 0xd6d117b4, 0xefcdab89)
  {
    hide At;
    Start();
    Turn(0, 0x67452301, 0xefcdab89, 0x98badcfe, 0x10325476,
         0x80636261, 0xd76aa478, 0x98badcfe, 7, 0xe7036c2b, 0xd6d117b4);
    Turn(1, 0x10325476, 0xd6d117b4, 0xefcdab89, 0x98badcfe,
         0x00000000, 0xe8c7b756, 0xceebcbca, 12, 0x5d796c7e, 0x344a8432);
  }

  lemma Turns4()
    ensures At(4, 0xd6d117b4, 0x7ad956f2, 0x2f6fbd72, 0x344a8432)
  {
    hide At;
    Turns2();
    Turn(2, 0x98badcfe, 0x344a8432, 0xd6d117b4, 0xefcdab89,
         0x00000000, 0x242070db, 0xdfc52fb9, 17, 0xfb253940, 0x2f6fbd72);
    Turn(3, 0xefcdab89, 0x2f6fbd72, 0x344a8432, 0xd6d117b4,
         0x00000000, 0xc1bdceee, 0xf4da86b6, 22, 0x4b699980, 0x7ad956f2);
  }

  lemma Turns6()
    ensures At(6, 0x2f6fbd72, 0x8bac3051, 0xc73741ef, 0x7ad956f2)
  {
    hide At;
    Turns4();
    Turn(4, 0xd6d117b4, 0x7ad956f2, 0x2f6fbd72, 0x344a8432,
         0x00000000, 0xf57c0faf, 0x2e4b9472, 7, 0x4c5deafd, 0xc73741ef);
    Turn(5, 0x344a8432, 0xc73741ef, 0x7ad956f2, 0x2f6fbd72,
         0x00000000, 0x4787c62a, 0x6a59fcf2, 12, 0xc474ee62, 0x8bac3051);
  }

  lemma Turns8()
    ensures At(8, 0xc73741ef, 0x928d99f6, 0x207dc67b, 0x8bac3051)
  {
    hide At;
    Turns6();
    Turn(6, 0x2f6fbd72, 0x8bac3051, 0xc73741ef, 0x7ad956f2,
         0x00000000, 0xa8304613, 0xf37546e3, 17, 0x94d1962a, 0x207dc67b);
    Turn(7, 0x7ad956f2, 0x207dc67b, 0x8bac3051, 0xc73741ef,
         0x00000000, 0xfd469501, 0xc72e01d5, 22, 0x720fd37b, 0x928d99f6);
  }

  lemma Turns10()
    ensures At(10, 0x207dc67b, 0x74e2f284, 0x854b3712, 0x928d99f6)
  {
    hide At;
    Turns8();
    Turn(8, 0xc73741ef, 0x928d99f6, 0x207dc67b, 0x8bac3051,
         0x00000000, 0x698098d8, 0x092da073, 7, 0xf2bd9d1c, 0x854b3712);
    Turn(9, 0x8bac3051, 0x854b3712, 0x928d99f6, 0x207dc67b,
         0x00000000, 0x8b44f7af, 0xa03dd17b, 12, 0xef97bb72, 0x74e2f284);
  }

  lemma Turns12()
    ensures At(12, 0x854b3712, 0x5ed49596, 0x3020401c, 0x74e2f284)
  {
    hide At;
    Turns10();
    Turn(10, 0x207dc67b, 0x74e2f284, 0x854b3712, 0x928d99f6,
         0x00000000, 0xffff5bb1, 0x864f3b72, 17, 0xbb3d4d98, 0x3020401c);
    Turn(11, 0x928d99f6, 0x3020401c, 0x74e2f284, 0x854b3712,
         0x00000000, 0x895cd7be, 0xb56b7706, 22, 0x2eb4557a, 0x5ed49596);
  }

  lemma Turns14()
    ensures At(14, 0x3020401c, 0xa1051895, 0xdda9b9a6, 0x5ed49596)
  {
    hide At;
    Turns12();
    Turn(12, 0x854b3712, 0x5ed49596, 0x3020401c, 0x74e2f284,
         0x00000000, 0x6b901122, 0x30226214, 7, 0x7ed52410, 0xdda9b9a6);
    Turn(13, 0x74e2f284, 0xdda9b9a6, 0x5ed49596, 0x3020401c,
         0x00000000, 0xfd987193, 0x7c80d19e, 12, 0xc35b5eef, 0xa1051895);
  }

  lemma Turns16()
    ensures At(16, 0xdda9b9a6, 0x72aff2e0, 0xe396856b, 0xa1051895)
  {
    hide At;
    Turns14();
    Turn(14, 0x3020401c, 0xa1051895, 0xdda9b9a6, 0x5ed49596,
         0x00000018, 0xa679438e, 0xdfd19d86, 17, 0x42916cd6, 0xe396856b);
    Turn(15, 0x5ed49596, 0xe396856b, 0xa1051895, 0xdda9b9a6,
         0x00000000, 0x49b40821, 0xbd2d3885, 22, 0x8f196d75, 0x72aff2e0);
  }

  lemma Turns18()
    ensures At(18, 0xe396856b, 0x4a1d804e, 0x3e9e9126, 0x72aff2e0)
  {
    hide At;
    Turns16();
    Turn(16, 0xdda9b9a6, 0x72aff2e0, 0xe396856b, 0xa1051895,
         0x00000000, 0xf61e2562, 0x629795ea, 5, 0xcbee9e46, 0x3e9e9126);
    Turn(17, 0xa1051895, 0x3e9e9126, 0x72aff2e0, 0xe396856b,
         0x00000000, 0xc040b340, 0x32bff3a2, 9, 0x0b7eef28, 0x4a1d804e);
  }

  lemma Turns20()
    ensures At(20, 0x3e9e9126, 0xb5b204e4, 0xe25e1652, 0x4a1d804e)
  {
    hide At;
    Turns18();
    Turn(18, 0xe396856b, 0x4a1d804e, 0x3e9e9126, 0x72aff2e0,
         0x00000000, 0x265e5a51, 0x4e1d8146, 14, 0x98409604, 0xe25e1652);
    Turn(19, 0x72aff2e0, 0xe25e1652, 0x4a1d804e, 0x3e9e9126,
         0x80636261, 0xe9b6c7aa, 0x621f104a, 20, 0xd353ee92, 0xb5b204e4);
  }

  lemma Turns22()
    ensures At(22, 0xe25e1652, 0x6d002f1e, 0x59a8ffda, 0xb5b204e4)
  {
    hide At;
    Turns20();
    Turn(20, 0x3e9e9126, 0xb5b204e4, 0xe25e1652, 0x4a1d804e,
         0x00000000, 0xd62f105d, 0xa0521654, 5, 0xa3f6faf6, 0x59a8ffda);
    Turn(21, 0x4a1d804e, 0x59a8ffda, 0xb5b204e4, 0xe25e1652,
         0x00000000, 0x02441453, 0x55a816f6, 9, 0x13572f44, 0x6d002f1e);
  }

  lemma Turns24()
    ensures At(24, 0x59a8ffda, 0x47092c07, 0xabfc7920, 0x6d002f1e)
  {
    hide At;
    Turns22();
    Turn(22, 0xe25e1652, 0x6d002f1e, 0x59a8ffda, 0xb5b204e4,
         0x00000000, 0xd8a1e681, 0x6d08ff1e, 14, 0x3efc4a02, 0xabfc7920);
    Turn(23, 0xb5b204e4, 0xabfc7920, 0x6d002f1e, 0x59a8ffda,
         0x00000000, 0xe7d3fbc8, 0x2da87904, 20, 0x9b0cb2e7, 0x47092c07);
  }

  lemma Turns26()
    ensures At(26, 0xabfc7920, 0x09388eff, 0xb7f268cf, 0x47092c07)
  {
    hide At;
    Turns24();
    Turn(24, 0x59a8ffda, 0x47092c07, 0xabfc7920, 0x6d002f1e,
         0x00000000, 0x21e1cde6, 0xc7fc7c26, 5, 0x70e93cc8, 0xb7f268cf);
    Turn(25, 0x6d002f1e, 0xb7f268cf, 0x47092c07, 0xabfc7920,
         0x00000018, 0xc33707d6, 0xe7f16c07, 9, 0x51462630, 0x09388eff);
  }

  lemma Turns28()
    ensures At(28, 0xb7f268cf, 0x786acb8f, 0xfe1623b1, 0x09388eff)
  {
    hide At;
    Turns26();
    Turn(26, 0xabfc7920, 0x09388eff, 0xb7f268cf, 0x47092c07,
         0x00000000, 0xf4d50d87, 0xb1fa4ccf, 14, 0xf4dd94b2, 0xfe1623b1);
    Turn(27, 0x47092c07, 0xfe1623b1, 0x09388eff, 0xb7f268cf,
         0x00000000, 0x455a14ed, 0xbe1aa6b1, 20, 0x7a54a7de, 0x786acb8f);
  }

  lemma Turns30()
    ensures At(30, 0xfe1623b1, 0x9f47e4f8, 0x790a77fb, 0x786acb8f)
  {
    hide At;
    Turns28();
    Turn(28, 0xb7f268cf, 0x786acb8f, 0xfe1623b1, 0x09388eff,
         0x00000000, 0xa9e3e905, 0xfe2eab8f, 5, 0x009fac6c, 0x790a77fb);
    Turn(29, 0x09388eff, 0x790a77fb, 0x786acb8f, 0xfe1623b1,
         0x00000000, 0xfcefa3f8, 0x786aebbf, 9, 0x263d6cfd, 0x9f47e4f8);
  }

  lemma Turns32()
    ensures At(32, 0x790a77fb, 0x726342d3, 0xa62884aa, 0x9f47e4f8)
  {
    hide At;
    Turns30();
    Turn(30, 0xfe1623b1, 0x9f47e4f8, 0x790a77fb, 0x786acb8f,
         0x00000000, 0x676f02d9, 0x1942f4f8, 14, 0x06e09fb2, 0xa62884aa);
    Turn(31, 0x786acb8f, 0xa62884aa, 0x9f47e4f8, 0x790a77fb,
         0x00000000, 0x8d2a4c8a, 0xa64d84aa, 20, 0xcc3abe29, 0x726342d3);
  }

  lemma Turns34()
    ensures At(34, 0xa62884aa, 0x60127b2e, 0xb3707ebf, 0x726342d3)
  {
    hide At;
    Turns32();
    Turn(32, 0x790a77fb, 0x726342d3, 0xa62884aa, 0x9f47e4f8,
         0x00000000, 0xfffa3942, 0x4b0c2281, 4, 0x410d3bec, 0xb3707ebf);
    Turn(33, 0x9f47e4f8, 0xb3707ebf, 0x726342d3, 0xa62884aa,
         0x00000000, 0x8771f681, 0x673bb8c6, 11, 0xaca1fc6f, 0x60127b2e);
  }

  lemma Turns36()
    ensures At(36, 0xb3707ebf, 0x3b0875c7, 0x8d212ff5, 0x60127b2e)
  {
    hide At;
    Turns34();
    Turn(34, 0xa62884aa, 0x60127b2e, 0xb3707ebf, 0x726342d3,
         0x00000000, 0x6d9d6122, 0xa1014742, 16, 0x2d0eb4c7, 0x8d212ff5);
    Turn(35, 0x726342d3, 0x8d212ff5, 0x60127b2e, 0xb3707ebf,
         0x00000018, 0xfde5380c, 0x5e432a64, 23, 0xade745d2, 0x3b0875c7);
  }

  lemma Turns38()
    ensures At(38, 0x8d212ff5, 0x6e7429d5, 0x21b117b9, 0x3b0875c7)
  {
    hide At;
    Turns36();
    Turn(36, 0xb3707ebf, 0x3b0875c7, 0x8d212ff5, 0x60127b2e,
         0x00000000, 0xa4beea44, 0xd63b211c, 4, 0xe6a8a1f2, 0x21b117b9);
    Turn(37, 0x60127b2e, 0x21b117b9, 0x3b0875c7, 0x8d212ff5,
         0x00000000, 0x4bdecfa9, 0x97984d8b, 11, 0x4cc3121c, 0x6e7429d5);
  }

  lemma Turns40()
    ensures At(40, 0x21b117b9, 0x5a2f5ea5, 0x3575227e, 0x6e7429d5)
  {
    hide At;
    Turns38();
    Turn(38, 0x8d212ff5, 0x6e7429d5, 0x21b117b9, 0x3b0875c7,
         0x00000000, 0xf6bb4b60, 0x74cd4bab, 16, 0xc700f8a9, 0x3575227e);
    Turn(39, 0x3b0875c7, 0x3575227e, 0x6e7429d5, 0x21b117b9,
         0x00000000, 0xbebfbc70, 0x7ab01c12, 23, 0x24ba3c27, 0x5a2f5ea5);
  }

  lemma Turns42()
    ensures At(42, 0x3575227e, 0xfadcaa38, 0x11de1779, 0x5a2f5ea5)
  {
    hide At;
    Turns40();
    Turn(40, 0x21b117b9, 0x5a2f5ea5, 0x3575227e, 0x6e7429d5,
         0x00000000, 0x289b7ec6, 0x012e550e, 4, 0xb7aeb8d4, 0x11de1779);
    Turn(41, 0x6e7429d5, 0x11de1779, 0x5a2f5ea5, 0x3575227e,
         0x80636261, 0xeaa127fa, 0x7e846ba2, 11, 0xe8fe92bf, 0xfadcaa38);
  }

  lemma Turns44()
    ensures At(44, 0x11de1779, 0x4c6124f4, 0x31c465ca, 0xfadcaa38)
  {
    hide At;
    Turns42();
    Turn(42, 0x3575227e, 0xfadcaa38, 0x11de1779, 0x5a2f5ea5,
         0x00000000, 0xd4ef3085, 0xb12de3e4, 16, 0x36e7bb92, 0x31c465ca);
    Turn(43, 0x5a2f5ea5, 0x31c465ca, 0xfadcaa38, 0x11de1779,
         0x00000000, 0x04881d05, 0xdac6d88b, 23, 0x1a9cbf2a, 0x4c6124f4);
  }

  lemma Turns46()
    ensures At(46, 0x31c465ca, 0x99d9679d, 0x7f2e507b, 0x4c6124f4)
  {
    hide At;
    Turns44();
    Turn(44, 0x11de1779, 0x4c6124f4, 0x31c465ca, 0xfadcaa38,
         0x00000000, 0xd9d4d039, 0x8779eb06, 4, 0x32cd2b87, 0x7f2e507b);
    Turn(45, 0xfadcaa38, 0x7f2e507b, 0x4c6124f4, 0x31c465ca,
         0x00000000, 0xe6db99e5, 0x028b1145, 11, 0x1aab1722, 0x99d9679d);
  }

  lemma Turns48()
    ensures At(48, 0x7f2e507b, 0x7beb9700, 0x8fae6399, 0x99d9679d)
  {
    hide At;
    Turns46();
    Turn(46, 0x31c465ca, 0x99d9679d, 0x7f2e507b, 0x4c6124f4,
         0x00000000, 0x1fa27cf8, 0xaa961312, 16, 0xf5d4fbfc, 0x8fae6399);
    Turn(47, 0x4c6124f4, 0x8fae6399, 0x99d9679d, 0x7f2e507b,
         0x00000000, 0xc4ac5665, 0x6959547f, 23, 0xec3d3367, 0x7beb9700);
  }

  lemma Turns50()
    ensures At(50, 0x8fae6399, 0xf4e8e96e, 0x7b201df8, 0x7beb9700)
  {
    hide At;
    Turns48();
    Turn(48, 0x7f2e507b, 0x7beb9700, 0x8fae6399, 0x99d9679d,
         0x80636261, 0xf4292244, 0xf041fcfb, 6, 0xff3486f8, 0x7b201df8);
    Turn(49, 0x99d9679d, 0x7b201df8, 0x7beb9700, 0x8fae6399,
         0x00000000, 0x432aff97, 0x009a0afe, 10, 0x79c8cb76, 0xf4e8e96e);
  }

  lemma Turns52()
    ensures At(52, 0x7b201df8, 0x8bf025c4, 0xb298cefd, 0xf4e8e96e)
  {
    hide At;
    Turns50();
    Turn(50, 0x8fae6399, 0xf4e8e96e, 0x7b201df8, 0x7beb9700,
         0x00000018, 0xab9423a7, 0x8fdcf407, 15, 0xbdafe58f, 0xb298cefd);
    Turn(51, 0x7beb9700, 0xb298cefd, 0xf4e8e96e, 0x7b201df8,
         0x00000000, 0xfc93a039, 0x42370791, 21, 0xd95756c7, 0x8bf025c4);
  }

  lemma Turns54()
    ensures At(54, 0xb298cefd, 0x5b0d97aa, 0x06cc5e8a, 0x8bf025c4)
  {
    hide At;
    Turns52();
    Turn(52, 0x7b201df8, 0x8bf025c4, 0xb298cefd, 0xf4e8e96e,
         0x00000000, 0x655b59c3, 0x396ff928, 6, 0x7adc38c6, 0x06cc5e8a);
    Turn(53, 0xf4e8e96e, 0x06cc5e8a, 0x8bf025c4, 0xb298cefd,
         0x00000000, 0x8f0ccc92, 0xc41f5a4e, 10, 0x54413920, 0x5b0d97aa);
  }

  lemma Turns56()
    ensures At(56, 0x06cc5e8a, 0x3bfa2c27, 0x7d632dd0, 0x5b0d97aa)
  {
    hide At;
    Turns54();
    Turn(54, 0xb298cefd, 0x5b0d97aa, 0x06cc5e8a, 0x8bf025c4,
         0x00000000, 0xffeff47d, 0x79c38131, 15, 0x22559626, 0x7d632dd0);
    Turn(55, 0x8bf025c4, 0x7d632dd0, 0x5b0d97aa, 0x06cc5e8a,
         0x00000000, 0x85845dd1, 0xa67e3a5f, 21, 0xbe96fe57, 0x3bfa2c27);
  }

  lemma Turns58()
    ensures At(58, 0x7d632dd0, 0x094454ab, 0x7f81cc35, 0x3bfa2c27)
  {
    hide At;
    Turns56();
    Turn(56, 0x06cc5e8a, 0x3bfa2c27, 0x7d632dd0, 0x5b0d97aa,
         0x00000000, 0x6fa87e4f, 0xc29941a7, 6, 0x4387a00e, 0x7f81cc35);
    Turn(57, 0x5b0d97aa, 0x7f81cc35, 0x3bfa2c27, 0x7d632dd0,
         0x00000000, 0xfe2ce6e0, 0xc467f218, 10, 0x89c28876, 0x094454ab);
  }

  lemma Turns60()
    ensures At(60, 0x7f81cc35, 0x7327d604, 0x4f9dbe3f, 0x094454ab)
  {
    hide At;
    Turns58();
    Turn(58, 0x7d632dd0, 0x094454ab, 0x7f81cc35, 0x3bfa2c27,
         0x00000000, 0xa3014314, 0xb2c41bce, 15, 0x46596994, 0x4f9dbe3f);
    Turn(59, 0x3bfa2c27, 0x4f9dbe3f, 0x094454ab, 0x7f81cc35,
         0x00000000, 0x4e0811a1, 0xc6bbeb54, 21, 0x238a17c5, 0x7327d604);
  }

  lemma Turns62()
    ensures At(62, 0x4f9dbe3f, 0x624d8cb2, 0x310ade8f, 0x7327d604)
  {
    hide At;
    Turns60();
    Turn(60, 0x7f81cc35, 0x7327d604, 0x4f9dbe3f, 0x094454ab,
         0x00000000, 0xf7537e82, 0xb822416b, 6, 0xbde3088b, 0x310ade8f);
    Turn(61, 0x094454ab, 0x310ade8f, 0x7327d604, 0x4f9dbe3f,
         0x00000000, 0xbd3af235, 0xc24d09cb, 10, 0x3142ae23, 0x624d8cb2);
  }

  lemma Turns64()
    ensures At(64, 0x310ade8f, 0xc08226b3, 0xe484b9d8, 0x624d8cb2)
  {
    hide At;
    Turns62();
    Turn(62, 0x4f9dbe3f, 0x624d8cb2, 0x310ade8f, 0x7327d604,
         0x00000000, 0x2ad7d2bb, 0xdfd77374, 15, 0x82372d26, 0xe484b9d8);
    Turn(63, 0x7327d604, 0xe484b9d8, 0x624d8cb2, 0x310ade8f,
         0x00000000, 0xeb86d391, 0x8cb8354a, 21, 0xdbfd6cdb, 0xc08226b3);
  }

  lemma AbcIsBlock()
    ensures BlockCount("abc") == 1 && Block("abc", 24, 0) == AbcBlock()
  {
    hide MessageWord, AbcBlock;
    forall j | 0 <= j < 16 ensures MessageWord("abc", 24, j) == AbcBlock()[j] {
      AbcWord(j);
    }
  }

  lemma AbcWord(j: nat)
    requires j < 16
    ensures MessageWord("abc", 24, j) == AbcBlock()[j]
  {
    hide PartWord, Padding;
    assert PaddedLength("abc") == 56;
    if j == 0 {
      AbcFirstWord();
    } else if j < 14 {
      ZeroWord(4 * j);
    }
  }

  lemma AbcByte0()
    ensures PaddedByte("abc", 0) == 0x61
  {
  }

  lemma AbcByte1()
    ensures PaddedByte("abc", 1) == 0x62
  {
  }

  lemma AbcByte2()
    ensures PaddedByte("abc", 2) == 0x63
  {
  }

  lemma AbcByte3()
    ensures PaddedByte("abc", 3) == 0x80
  {
  }

  lemma ShiftBy8(x: bv32)
    ensures ShiftLeft(x, 8) == x << 8 && ShiftRight(x, 8) == x >> 8
  {
  }

  lemma ShiftBy16(x: bv32)
    ensures ShiftLeft(x, 16) == x << 16 && ShiftRight(x, 16) == x >> 16
  {
  }

  lemma ShiftBy24(x: bv32)
    ensures ShiftLeft(x, 24) == x << 24 && ShiftRight(x, 24) == x >> 24
  {
  }

  lemma OrByte0(w: bv32, b: bv32)
    ensures OrByte(w, b, 0) == w | b
  {
  }

  lemma OrByte1(w: bv32, b: bv32)
    ensures OrByte(w, b, 1) == w | (b << 8)
  {
    hide ShiftLeft, ShiftRight;
    ShiftBy8(b);
  }

  lemma OrByte2(w: bv32, b: bv32)
    ensures OrByte(w, b, 2) == w | (b << 16)
  {
    hide ShiftLeft, ShiftRight;
    ShiftBy16(b);
  }

  lemma OrByte3(w: bv32, b: bv32)
    ensures OrByte(w, b, 3) == w | (b << 24)
  {
    hide ShiftLeft, ShiftRight;
    ShiftBy24(b);
  }

  lemma PartWordStep(p: nat -> bv32, k: nat, n: nat)
    requires 0 < n <= 4
    ensures PartWord(p, k, n) == OrByte(PartWord(p, k, n - 1), p(k + n - 1), n - 1)
    ensures PartWord(p, k, 0) == 0
  {
    hide OrByte;
  }

  lemma PartWordSteps(p: nat -> bv32, k: nat)
    ensures PartWord(p, k, 4)
         == OrByte(OrByte(OrByte(OrByte(0, p(k), 0), p(k + 1), 1), p(k + 2), 2), p(k + 3), 3)
  {
    hide OrByte, PartWord;
    PartWordStep(p, k, 1);
    PartWordStep(p, k, 2);
    PartWordStep(p, k, 3);
    PartWordStep(p, k, 4);
  }

  lemma AbcFirstWord()
    ensures PartWord(Padding("abc"), 0, 4) == 0x80636261
  {
    hide PaddedByte, PartWord, OrByte;
    AbcByte0();
    AbcByte1();
    AbcByte2();
    AbcByte3();
    PartWordSteps(Padding("abc"), 0);
    OrByte0(0, 0x61);
    OrByte1(0x61, 0x62);
    OrByte2(0x6261, 0x63);
    OrByte3(0x636261, 0x80);
  }

  lemma ZeroWord(k: nat)
    requires k >= 4
    ensures PartWord(Padding("abc"), k, 4) == 0
  {
    hide PartWord, OrByte;
    PartWordSteps(Padding("abc"), k);
    OrByte0(0, 0);
    OrByte1(0, 0);
    OrByte2(0, 0);
    OrByte3(0, 0);
  }

  lemma AbcRegs()
    ensures Digest("abc", 24, Sine, 1) == Regs(0x98500190, 0xb04fd23c, 0x7d3f96d6, 0x727fe128)
  {
    hide RfcSteps, Block, AbcBlock, Sine;
    AbcIsBlock();
    Turns64();
    DigestOne("abc", 24);
  }

  lemma DigestOne(m: Bytes, bits: nat)
    ensures Digest(m, bits, Sine, 1) == RfcBlock(INIT, Block(m, bits, 0), Sine)
  {
    hide RfcBlock, Block;
    assert Digest(m, bits, Sine, 0) == INIT;
  }

  lemma AbcHex()
    ensures HexRegs(Regs(0x98500190, 0xb04fd23c, 0x7d3f96d6, 0x727fe128)) == "900150983cd24fb0d6963f7d28e17f72"
  {
    hide HexWord;
    AbcWordA();
    AbcWordB();
    AbcWordC();
    AbcWordD();
  }

  function TwoDigits(v: nat): Bytes {
    [DigitChar(v / 16 % 16), DigitChar(v % 16)]
  }

  lemma HexByte0(q: bv32)
    ensures HexByte(q, 0) == TwoDigits((q & 0xff) as nat)
  {
  }

  lemma HexByte1(q: bv32)
    ensures HexByte(q, 1) == TwoDigits(((q >> 8) & 0xff) as nat)
  {
    hide ShiftLeft, ShiftRight;
    ShiftBy8(q);
  }

  lemma HexByte2(q: bv32)
    ensures HexByte(q, 2) == TwoDigits(((q >> 16) & 0xff) as nat)
  {
    hide ShiftLeft, ShiftRight;
    ShiftBy16(q);
  }

  lemma HexByte3(q: bv32)
    ensures HexByte(q, 3) == TwoDigits(((q >> 24) & 0xff) as nat)
  {
    hide ShiftLeft, ShiftRight;
    ShiftBy24(q);
  }

  lemma AbcWordA()
    ensures HexWord(0x98500190) == "90015098"
  {
    hide HexByte;
    HexByte0(0x98500190);
    HexByte1(0x98500190);
    HexByte2(0x98500190);
    HexByte3(0x98500190);
  }

  lemma AbcWordB()
    ensures HexWord(0xb04fd23c) == "3cd24fb0"
  {
    hide HexByte;
    HexByte0(0xb04fd23c);
    HexByte1(0xb04fd23c);
    HexByte2(0xb04fd23c);
    HexByte3(0xb04fd23c);
  }

  lemma AbcWordC()
    ensures HexWord(0x7d3f96d6) == "d6963f7d"
  {
    hide HexByte;
    HexByte0(0x7d3f96d6);
    HexByte1(0x7d3f96d6);
    HexByte2(0x7d3f96d6);
    HexByte3(0x7d3f96d6);
  }

  lemma AbcWordD()
    ensures HexWord(0x727fe128) == "28e17f72"
  {
    hide HexByte;
    HexByte0(0x727fe128);
    HexByte1(0x727fe128);
    HexByte2(0x727fe128);
    HexByte3(0x727fe128);
  }

  /** MD5 of "abc", and what the program computes. */
  lemma AbcDigest()
    ensures Md5Hex("abc") == "900150983cd24fb0d6963f7d28e17f72" && ProgramMd5("abc") == Md5Hex("abc")
  {
    hide Digest, HexRegs, Sine, BlockCount;
    AbcRegs();
    AbcIsBlock();
    AbcHex();
    ProgramIsMd5("abc");
  }
}
