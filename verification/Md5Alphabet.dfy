/** The digest of the alphabet, the fifth of the test suite in appendix A.5 of RFC 1321, step by step. */
module Md5Alphabet {
  import opened Bytes
  import opened Md5
  import opened Md5Transform

  /** The padded message as words. */
  function X(): (x: seq<uint32>)
    ensures |x| == 16
  {
    [0x64636261, 0x68676665, 0x6c6b6a69, 0x706f6e6d, 0x74737271, 0x78777675, 0x00807a79, 0x00000000,
     0x00000000, 0x00000000, 0x00000000, 0x00000000, 0x00000000, 0x00000000, 0x000000d0, 0x00000000]
  }

  lemma WordsOfX()
    ensures X()[0] == 0x64636261 && X()[1] == 0x68676665 && X()[2] == 0x6c6b6a69 && X()[3] == 0x706f6e6d
    ensures X()[4] == 0x74737271 && X()[5] == 0x78777675 && X()[6] == 0x00807a79 && X()[7] == 0x00000000
    ensures X()[8] == 0x00000000 && X()[9] == 0x00000000 && X()[10] == 0x00000000 && X()[11] == 0x00000000
    ensures X()[12] == 0x00000000 && X()[13] == 0x00000000 && X()[14] == 0x000000d0 && X()[15] == 0x00000000
  {
  }

  /** One step of a round: the blend of b, c and d, the sum with the word and the constant, and the sum
      rotated. */
  lemma Line(round: nat, n: nat, q: Registers, p: Registers, k: nat, s: nat, ac: uint32, mix: uint32, sum: uint32, rot: uint32)
      returns (p': Registers)
    requires Given(round, n, k, s, ac) && k < 16 && s <= 32 && Steps(round, n, q, X()) == p
    requires Blend(round, p.b, p.c, p.d) == mix && (p.a + mix + X()[k] + ac) % WORD == sum && RotateLeft(sum, s) == rot
    ensures p' == Registers(p.d, (rot + p.b) % WORD, p.b, p.c) && Steps(round, n + 1, q, X()) == p'
  {
    hide Blend, RotateLeft, Steps, X;
    Next(round, n, q, X(), k, s, ac);
    p' := Steps(round, n + 1, q, X());
  }

  lemma Bits1A()
    ensures F(0xefcdab89, 0x98badcfe, 0x10325476) == 0x98badcfe && RotateLeft(0x3bce06d8, 7) == 0xe7036c1d
    ensures F(0xd6d117a6, 0xefcdab89, 0x98badcfe) == 0xceebcbd8 && RotateLeft(0x304d3e09, 12) == 0xd3e09304
    ensures F(0xaab1aaaa, 0xd6d117a6, 0xefcdab89) == 0xc7dd03a3 && RotateLeft(0xf123bbe5, 17) == 0x77cbe247
    ensures F(0x227d8cf1, 0xaab1aaaa, 0xd6d117a6) == 0xf6b19ba6 && RotateLeft(0x18ac848a, 22) == 0x22862b21
    ensures F(0x4503b812, 0x227d8cf1, 0xaab1aaaa) == 0xaab18ab8 && RotateLeft(0xeb72247e, 7) == 0xb9123f75
    ensures F(0xfe15f787, 0x4503b812, 0x227d8cf1) == 0x4469b872 && RotateLeft(0xaf1a9fbb, 12) == 0xa9fbbaf1
    ensures F(0xa811b278, 0xfe15f787, 0x4503b812) == 0xed13ba02 && RotateLeft(0xb842077f, 17) == 0x0eff7084
    ensures F(0xb71122fc, 0xa811b278, 0xfe15f787) == 0xe815f77b && RotateLeft(0x2a60448e, 22) == 0x238a9811
  {
  }

  lemma Bits1B()
    ensures F(0xda9bbb0d, 0xb71122fc, 0xa811b278) == 0xb211227c && RotateLeft(0x19a7b2db, 7) == 0xd3d96d8c
    ensures F(0xae752899, 0xda9bbb0d, 0xb71122fc) == 0x9b112a6d && RotateLeft(0xce67d494, 12) == 0x7d494ce6
    ensures F(0x2bbe757f, 0xae752899, 0xda9bbb0d) == 0xfa35aa19 && RotateLeft(0xb14628c6, 17) == 0x518d628c
    ensures F(0x7d4bd80b, 0x2bbe757f, 0xae752899) == 0xab3e709b && RotateLeft(0x0f370366, 22) == 0xd983cdc0
    ensures F(0x56cfa5cb, 0x7d4bd80b, 0x2bbe757f) == 0x7d7bd03f && RotateLeft(0x978109fa, 7) == 0xc084fd4b
    ensures F(0x1754a316, 0x56cfa5cb, 0x7d4bd80b) == 0x7e4ff90b && RotateLeft(0xa7a6e01d, 12) == 0x6e01da7a
    ensures F(0x85567d90, 0x1754a316, 0x56cfa5cb) == 0x57dda15b && RotateLeft(0x7ba2bdc4, 17) == 0x7b88f745
    ensures F(0x00df74d5, 0x85567d90, 0x1754a316) == 0x1756f792 && RotateLeft(0xb7daa57e, 22) == 0x5fadf6a9
  {
  }

  lemma Round1OfAlphabet()
    ensures Round(0, Registers(0x67452301, 0xefcdab89, 0x98badcfe, 0x10325476), X()) == Registers(0x1754a316, 0x608d6b7e, 0x00df74d5, 0x85567d90)
  {
    hide Given, Steps, F, G, H, I, RotateLeft, X;
    var q := Registers(0x67452301, 0xefcdab89, 0x98badcfe, 0x10325476);
    var p := q;
    WordsOfX();
    Bits1A();
    Bits1B();
    Parameters1();
    Start(0, q, X());
    p := Line(0, 0, q, p, 0, 7, 0xd76aa478, 0x98badcfe, 0x3bce06d8, 0xe7036c1d);
    p := Line(0, 1, q, p, 1, 12, 0xe8c7b756, 0xceebcbd8, 0x304d3e09, 0xd3e09304);
    p := Line(0, 2, q, p, 2, 17, 0x242070db, 0xc7dd03a3, 0xf123bbe5, 0x77cbe247);
    p := Line(0, 3, q, p, 3, 22, 0xc1bdceee, 0xf6b19ba6, 0x18ac848a, 0x22862b21);
    p := Line(0, 4, q, p, 4, 7, 0xf57c0faf, 0xaab18ab8, 0xeb72247e, 0xb9123f75);
    p := Line(0, 5, q, p, 5, 12, 0x4787c62a, 0x4469b872, 0xaf1a9fbb, 0xa9fbbaf1);
    p := Line(0, 6, q, p, 6, 17, 0xa8304613, 0xed13ba02, 0xb842077f, 0x0eff7084);
    p := Line(0, 7, q, p, 7, 22, 0xfd469501, 0xe815f77b, 0x2a60448e, 0x238a9811);
    p := Line(0, 8, q, p, 8, 7, 0x698098d8, 0xb211227c, 0x19a7b2db, 0xd3d96d8c);
    p := Line(0, 9, q, p, 9, 12, 0x8b44f7af, 0x9b112a6d, 0xce67d494, 0x7d494ce6);
    p := Line(0, 10, q, p, 10, 17, 0xffff5bb1, 0xfa35aa19, 0xb14628c6, 0x518d628c);
    p := Line(0, 11, q, p, 11, 22, 0x895cd7be, 0xab3e709b, 0x0f370366, 0xd983cdc0);
    p := Line(0, 12, q, p, 12, 7, 0x6b901122, 0x7d7bd03f, 0x978109fa, 0xc084fd4b);
    p := Line(0, 13, q, p, 13, 12, 0xfd987193, 0x7e4ff90b, 0xa7a6e01d, 0x6e01da7a);
    p := Line(0, 14, q, p, 14, 17, 0xa679438e, 0x57dda15b, 0x7ba2bdc4, 0x7b88f745);
    p := Line(0, 15, q, p, 15, 22, 0x49b40821, 0x1756f792, 0xb7daa57e, 0x5fadf6a9);
  }

  lemma Bits2A()
    ensures G(0x608d6b7e, 0x00df74d5, 0x85567d90) == 0x008d6955 && RotateLeft(0x76679832, 5) == 0xccf3064e
    ensures G(0x2d8071cc, 0x608d6b7e, 0x00df74d5) == 0x60807bee && RotateLeft(0xa6982737, 9) == 0x304e6f4d
    ensures G(0x5dcee119, 0x2d8071cc, 0x608d6b7e) == 0x4d8c7198 && RotateLeft(0x74ca40be, 14) == 0x902f9d32
    ensures G(0xedfe7e4b, 0x5dcee119, 0x2d8071cc) == 0x7dcef059 && RotateLeft(0x2c7685e2, 20) == 0x5e22c768
    ensures G(0x4c2145b3, 0xedfe7e4b, 0x5dcee119) == 0xec305f53 && RotateLeft(0x685757f1, 5) == 0x0aeafe2d
    ensures G(0x570c43e0, 0x4c2145b3, 0xedfe7e4b) == 0x450d43f0 && RotateLeft(0xa520395c, 9) == 0x4072b94a
    ensures G(0x977efd2a, 0x570c43e0, 0x4c2145b3) == 0x172c4762 && RotateLeft(0xddccac2e, 14) == 0x2b0bb773
    ensures G(0xc28ab49d, 0x977efd2a, 0x570c43e0) == 0xc27abc8a && RotateLeft(0x6ae37076, 20) == 0x0766ae37
  {
  }

  lemma Bits2B()
    ensures G(0xc9f162d4, 0xc28ab49d, 0x977efd2a) == 0xc1f06095 && RotateLeft(0x3ade725b, 5) == 0x5bce4b67
    ensures G(0x25bfae3b, 0xc9f162d4, 0xc28ab49d) == 0x09fbe659 && RotateLeft(0x64b1ec29, 9) == 0x63d852c9
    ensures G(0x89980104, 0x25bfae3b, 0xc9f162d4) == 0xad9e8c2f && RotateLeft(0xd56dbcc0, 14) == 0x6f30355b
    ensures G(0xf8c8365f, 0x89980104, 0x25bfae3b) == 0xa888271f && RotateLeft(0xb7d39ee0, 20) == 0xee0b7d39
    ensures G(0xe6d3b398, 0xf8c8365f, 0x89980104) == 0xf0d0375b && RotateLeft(0xc073ce9b, 5) == 0x0e79d378
    ensures G(0xf54d8710, 0xe6d3b398, 0xf8c8365f) == 0xf65b8790 && RotateLeft(0xe94e96f5, 9) == 0x9d2debd2
    ensures G(0x927b72e2, 0xf54d8710, 0xe6d3b398) == 0x935f3680 && RotateLeft(0xf3966fb8, 14) == 0x9bee3ce5
    ensures G(0x2e69afc7, 0x927b72e2, 0xf54d8710) == 0x267bf7e2 && RotateLeft(0x9a79f804, 20) == 0x8049a79f
  {
  }

  lemma Round2OfAlphabet()
    ensures Round(1, Registers(0x1754a316, 0x608d6b7e, 0x00df74d5, 0x85567d90), X()) == Registers(0xf54d8710, 0xaeb35766, 0x2e69afc7, 0x927b72e2)
  {
    hide Given, Steps, F, G, H, I, RotateLeft, X;
    var q := Registers(0x1754a316, 0x608d6b7e, 0x00df74d5, 0x85567d90);
    var p := q;
    WordsOfX();
    Bits2A();
    Bits2B();
    Parameters2();
    Start(1, q, X());
    p := Line(1, 0, q, p, 1, 5, 0xf61e2562, 0x008d6955, 0x76679832, 0xccf3064e);
    p := Line(1, 1, q, p, 6, 9, 0xc040b340, 0x60807bee, 0xa6982737, 0x304e6f4d);
    p := Line(1, 2, q, p, 11, 14, 0x265e5a51, 0x4d8c7198, 0x74ca40be, 0x902f9d32);
    p := Line(1, 3, q, p, 0, 20, 0xe9b6c7aa, 0x7dcef059, 0x2c7685e2, 0x5e22c768);
    p := Line(1, 4, q, p, 5, 5, 0xd62f105d, 0xec305f53, 0x685757f1, 0x0aeafe2d);
    p := Line(1, 5, q, p, 10, 9, 0x02441453, 0x450d43f0, 0xa520395c, 0x4072b94a);
    p := Line(1, 6, q, p, 15, 14, 0xd8a1e681, 0x172c4762, 0xddccac2e, 0x2b0bb773);
    p := Line(1, 7, q, p, 4, 20, 0xe7d3fbc8, 0xc27abc8a, 0x6ae37076, 0x0766ae37);
    p := Line(1, 8, q, p, 9, 5, 0x21e1cde6, 0xc1f06095, 0x3ade725b, 0x5bce4b67);
    p := Line(1, 9, q, p, 14, 9, 0xc33707d6, 0x09fbe659, 0x64b1ec29, 0x63d852c9);
    p := Line(1, 10, q, p, 3, 14, 0xf4d50d87, 0xad9e8c2f, 0xd56dbcc0, 0x6f30355b);
    p := Line(1, 11, q, p, 8, 20, 0x455a14ed, 0xa888271f, 0xb7d39ee0, 0xee0b7d39);
    p := Line(1, 12, q, p, 13, 5, 0xa9e3e905, 0xf0d0375b, 0xc073ce9b, 0x0e79d378);
    p := Line(1, 13, q, p, 2, 9, 0xfcefa3f8, 0xf65b8790, 0xe94e96f5, 0x9d2debd2);
    p := Line(1, 14, q, p, 7, 14, 0x676f02d9, 0x935f3680, 0xf3966fb8, 0x9bee3ce5);
    p := Line(1, 15, q, p, 12, 20, 0x8d2a4c8a, 0x267bf7e2, 0x9a79f804, 0x8049a79f);
  }

  lemma Bits3A()
    ensures H(0xaeb35766, 0x2e69afc7, 0x927b72e2) == 0x12a18a43 && RotateLeft(0x8060c10a, 4) == 0x060c10a8
    ensures H(0xb4bf680e, 0xaeb35766, 0x2e69afc7) == 0x346590af && RotateLeft(0x4e52fa12, 11) == 0x97d09272
    ensures H(0x4c8ffa80, 0xb4bf680e, 0xaeb35766) == 0x5683c5e8 && RotateLeft(0xf28ad6d1, 16) == 0xd6d1f28a
    ensures H(0x2361ed0a, 0x4c8ffa80, 0xb4bf680e) == 0xdb517f84 && RotateLeft(0x87ea0fc6, 23) == 0xe343f507
    ensures H(0x06a5e211, 0x2361ed0a, 0x4c8ffa80) == 0x694bf59b && RotateLeft(0x2b31ae52, 4) == 0xb31ae522
    ensures H(0xb9c0c733, 0x06a5e211, 0x2361ed0a) == 0x9c04c828 && RotateLeft(0xa8e704c2, 11) == 0x38261547
    ensures H(0xf1e6dc7a, 0xb9c0c733, 0x06a5e211) == 0x4e83f958 && RotateLeft(0x68a131c2, 16) == 0x31c268a1
    ensures H(0x23a9451b, 0xf1e6dc7a, 0xb9c0c733) == 0x6b8f5e52 && RotateLeft(0x30f4fcd3, 23) == 0x69987a7e
  {
  }

  lemma Bits3B()
    ensures H(0x8d41bf99, 0x23a9451b, 0xf1e6dc7a) == 0x5f0e26f8 && RotateLeft(0x416a6cf1, 4) == 0x16a6cf14
    ensures H(0xa3e88ead, 0x8d41bf99, 0x23a9451b) == 0x0d00742f && RotateLeft(0x4debdb04, 11) == 0x5ed8226f
    ensures H(0x02c0b11c, 0xa3e88ead, 0x8d41bf99) == 0x2c698028 && RotateLeft(0x95716435, 16) == 0x64359571
    ensures H(0x66f6468d, 0x02c0b11c, 0xa3e88ead) == 0xc7de793c && RotateLeft(0x5a28d053, 23) == 0x29ad1468
    ensures H(0x90a35af5, 0x66f6468d, 0x02c0b11c) == 0xf495ad64 && RotateLeft(0x72530c4a, 4) == 0x2530c4a7
    ensures H(0xb5d41f9c, 0x90a35af5, 0x66f6468d) == 0x438103e4 && RotateLeft(0x2d1d4ee5, 11) == 0xea772968
    ensures H(0xa04b4904, 0xb5d41f9c, 0x90a35af5) == 0x853c0c6d && RotateLeft(0x0bd4cff2, 16) == 0xcff20bd4
    ensures H(0x703d54d8, 0xa04b4904, 0xb5d41f9c) == 0x65a20240 && RotateLeft(0x275d1e03, 23) == 0x0193ae8f
  {
  }

  lemma Round3OfAlphabet()
    ensures Round(2, Registers(0xf54d8710, 0xaeb35766, 0x2e69afc7, 0x927b72e2), X()) == Registers(0xb5d41f9c, 0x71d10367, 0x703d54d8, 0xa04b4904)
  {
    hide Given, Steps, F, G, H, I, RotateLeft, X;
    var q := Registers(0xf54d8710, 0xaeb35766, 0x2e69afc7, 0x927b72e2);
    var p := q;
    WordsOfX();
    Bits3A();
    Bits3B();
    Parameters3();
    Start(2, q, X());
    p := Line(2, 0, q, p, 5, 4, 0xfffa3942, 0x12a18a43, 0x8060c10a, 0x060c10a8);
    p := Line(2, 1, q, p, 8, 11, 0x8771f681, 0x346590af, 0x4e52fa12, 0x97d09272);
    p := Line(2, 2, q, p, 11, 16, 0x6d9d6122, 0x5683c5e8, 0xf28ad6d1, 0xd6d1f28a);
    p := Line(2, 3, q, p, 14, 23, 0xfde5380c, 0xdb517f84, 0x87ea0fc6, 0xe343f507);
    p := Line(2, 4, q, p, 1, 4, 0xa4beea44, 0x694bf59b, 0x2b31ae52, 0xb31ae522);
    p := Line(2, 5, q, p, 4, 11, 0x4bdecfa9, 0x9c04c828, 0xa8e704c2, 0x38261547);
    p := Line(2, 6, q, p, 7, 16, 0xf6bb4b60, 0x4e83f958, 0x68a131c2, 0x31c268a1);
    p := Line(2, 7, q, p, 10, 23, 0xbebfbc70, 0x6b8f5e52, 0x30f4fcd3, 0x69987a7e);
    p := Line(2, 8, q, p, 13, 4, 0x289b7ec6, 0x5f0e26f8, 0x416a6cf1, 0x16a6cf14);
    p := Line(2, 9, q, p, 0, 11, 0xeaa127fa, 0x0d00742f, 0x4debdb04, 0x5ed8226f);
    p := Line(2, 10, q, p, 3, 16, 0xd4ef3085, 0x2c698028, 0x95716435, 0x64359571);
    p := Line(2, 11, q, p, 6, 23, 0x04881d05, 0xc7de793c, 0x5a28d053, 0x29ad1468);
    p := Line(2, 12, q, p, 9, 4, 0xd9d4d039, 0xf495ad64, 0x72530c4a, 0x2530c4a7);
    p := Line(2, 13, q, p, 12, 11, 0xe6db99e5, 0x438103e4, 0x2d1d4ee5, 0xea772968);
    p := Line(2, 14, q, p, 15, 16, 0x1fa27cf8, 0x853c0c6d, 0x0bd4cff2, 0xcff20bd4);
    p := Line(2, 15, q, p, 2, 23, 0xc4ac5665, 0x65a20240, 0x275d1e03, 0x0193ae8f);
  }

  lemma Bits4A()
    ensures I(0x71d10367, 0x703d54d8, 0xa04b4904) == 0x0fc8e327 && RotateLeft(0x1e298768, 6) == 0x8a61da07
    ensures I(0xfc32dd6e, 0x71d10367, 0x703d54d8) == 0x8e23fc08 && RotateLeft(0x719a44a3, 10) == 0x69128dc6
    ensures I(0x65456b34, 0xfc32dd6e, 0x71d10367) == 0x135d22d2 && RotateLeft(0x2f2e9c21, 15) == 0x4e109797
    ensures I(0xb35602cb, 0x65456b34, 0xfc32dd6e) == 0xd69a49ef && RotateLeft(0xbd766404, 21) == 0x8097aecc
    ensures I(0x33edb197, 0xb35602cb, 0x65456b34) == 0x08a9b714 && RotateLeft(0x6a37ee45, 6) == 0x8dfb915a
    ensures I(0xc1e942f1, 0x33edb197, 0xb35602cb) == 0xfe044e62 && RotateLeft(0x62c5f495, 10) == 0x17d2558b
    ensures I(0xd9bb987c, 0xc1e942f1, 0x33edb197) == 0x1c529c8d && RotateLeft(0xcf9893d5, 15) == 0x49eae7cc
    ensures I(0x23a68048, 0xd9bb987c, 0xc1e942f1) == 0xe60d2532 && RotateLeft(0x07e69aff, 21) == 0x5fe0fcd3
  {
  }

  lemma Bits4B()
    ensures I(0x83877d1b, 0x23a68048, 0xd9bb987c) == 0x8461ffd3 && RotateLeft(0xb5f3c113, 6) == 0x7cf044ed
    ensures I(0x0077c208, 0x83877d1b, 0x23a68048) == 0x5ff882a4 && RotateLeft(0x37e10200, 10) == 0x840800df
    ensures I(0x847fc2e7, 0x0077c208, 0x83877d1b) == 0xfc0800ef && RotateLeft(0xc3303ec4, 15) == 0x1f626198
    ensures I(0xa3e2247f, 0x847fc2e7, 0x0077c208) == 0x7b95ff18 && RotateLeft(0x4d258dd4, 21) == 0xba89a4b1
    ensures I(0x5e6bc930, 0xa3e2247f, 0x847fc2e7) == 0xdc09d947 && RotateLeft(0x48488c42, 6) == 0x12231092
    ensures I(0x708ed9c2, 0x5e6bc930, 0xa3e2247f) == 0x22f412f2 && RotateLeft(0x64aec80e, 10) == 0xbb203992
    ensures I(0x2baf1354, 0x708ed9c2, 0x5e6bc930) == 0xdb31ee1d && RotateLeft(0x16574fc0, 15) == 0xa7e00b2b
    ensures I(0xd38f1e7f, 0x2baf1354, 0x708ed9c2) == 0xf4502d2b && RotateLeft(0x3e42c9ec, 21) == 0x3d87c859
  {
  }

  lemma Round4OfAlphabet()
    ensures Round(3, Registers(0xb5d41f9c, 0x71d10367, 0x703d54d8, 0xa04b4904), X()) == Registers(0x708ed9c2, 0x1116e6d8, 0xd38f1e7f, 0x2baf1354)
  {
    hide Given, Steps, F, G, H, I, RotateLeft, X;
    var q := Registers(0xb5d41f9c, 0x71d10367, 0x703d54d8, 0xa04b4904);
    var p := q;
    WordsOfX();
    Bits4A();
    Bits4B();
    Parameters4();
    Start(3, q, X());
    p := Line(3, 0, q, p, 0, 6, 0xf4292244, 0x0fc8e327, 0x1e298768, 0x8a61da07);
    p := Line(3, 1, q, p, 7, 10, 0x432aff97, 0x8e23fc08, 0x719a44a3, 0x69128dc6);
    p := Line(3, 2, q, p, 14, 15, 0xab9423a7, 0x135d22d2, 0x2f2e9c21, 0x4e109797);
    p := Line(3, 3, q, p, 5, 21, 0xfc93a039, 0xd69a49ef, 0xbd766404, 0x8097aecc);
    p := Line(3, 4, q, p, 12, 6, 0x655b59c3, 0x08a9b714, 0x6a37ee45, 0x8dfb915a);
    p := Line(3, 5, q, p, 3, 10, 0x8f0ccc92, 0xfe044e62, 0x62c5f495, 0x17d2558b);
    p := Line(3, 6, q, p, 10, 15, 0xffeff47d, 0x1c529c8d, 0xcf9893d5, 0x49eae7cc);
    p := Line(3, 7, q, p, 1, 21, 0x85845dd1, 0xe60d2532, 0x07e69aff, 0x5fe0fcd3);
    p := Line(3, 8, q, p, 8, 6, 0x6fa87e4f, 0x8461ffd3, 0xb5f3c113, 0x7cf044ed);
    p := Line(3, 9, q, p, 15, 10, 0xfe2ce6e0, 0x5ff882a4, 0x37e10200, 0x840800df);
    p := Line(3, 10, q, p, 6, 15, 0xa3014314, 0xfc0800ef, 0xc3303ec4, 0x1f626198);
    p := Line(3, 11, q, p, 13, 21, 0x4e0811a1, 0x7b95ff18, 0x4d258dd4, 0xba89a4b1);
    p := Line(3, 12, q, p, 4, 6, 0xf7537e82, 0xdc09d947, 0x48488c42, 0x12231092);
    p := Line(3, 13, q, p, 11, 10, 0xbd3af235, 0x22f412f2, 0x64aec80e, 0xbb203992);
    p := Line(3, 14, q, p, 2, 15, 0x2ad7d2bb, 0xdb31ee1d, 0x16574fc0, 0xa7e00b2b);
    p := Line(3, 15, q, p, 9, 21, 0xeb86d391, 0xf4502d2b, 0x3e42c9ec, 0x3d87c859);
  }

  /** The message. */
  function Alphabet(): (m: seq<byte>)
    ensures |m| == 26
  {
    seq(26, i => 97 + i)
  }

  lemma PaddedAlphabet()
    ensures |Padded(Alphabet())| == 64
    ensures forall k :: 0 <= k < 64 ==>
              Padded(Alphabet())[k] == if k < 26 then 97 + k else if k == 26 then 0x80 else if k == 56 then 208 else 0
  {
    var ws := [208, 0];
    assert ws[..1] == [208] && ws[..1][..0] == [];
    assert LittleEndians(ws) == LittleEndians(ws[..1]) + Bytes4(0);
    assert LittleEndians(ws[..1]) == LittleEndians([]) + Bytes4(208);
    assert Length(26) == [208, 0, 0, 0, 0, 0, 0, 0];
  }

  lemma WordAt(p: seq<byte>, i: nat)
    requires |p| == 64 && i < 16
    ensures Words(p)[i] == (p[4 * i] as nat) + (p[4 * i + 1] as nat) * 256 + (p[4 * i + 2] as nat) * 65536 + (p[4 * i + 3] as nat) * 16777216
  {
    var s := p[4 * i..4 * i + 4];
    assert s[0] == p[4 * i] && s[1] == p[4 * i + 1] && s[2] == p[4 * i + 2] && s[3] == p[4 * i + 3];
  }

  lemma AlphabetWords()
    ensures |Padded(Alphabet())| == 64 && Words(Padded(Alphabet())) == X()
  {
    PaddedAlphabet();
    WordsOfX();
    hide *;
    var p, x := Padded(Alphabet()), X();
    forall i | 0 <= i < 16
      ensures Words(p)[i] == x[i]
    {
      WordAt(p, i);
    }
  }

  /** MD5 ("abcdefghijklmnopqrstuvwxyz") = c3fcd3d76192e4007dfb496cca67e13b. */
  lemma DigestOfAlphabet()
    ensures Digest(Alphabet()) == [0xc3, 0xfc, 0xd3, 0xd7, 0x61, 0x92, 0xe4, 0x00,
                                   0x7d, 0xfb, 0x49, 0x6c, 0xca, 0x67, 0xe1, 0x3b]
  {
    AlphabetBlocks();
    hide Digest, Blocks, Padded;
    var r := Blocks(Padded(Alphabet()));
    DigestIs(Alphabet(), r);
  }

  lemma DigestIs(m: seq<byte>, r: Registers)
    requires r == Blocks(Padded(m))
    ensures Digest(m) == Bytes4(r.a) + Bytes4(r.b) + Bytes4(r.c) + Bytes4(r.d)
  {
    hide Blocks, Padded, Bytes4;
    var ws := [r.a, r.b, r.c, r.d];
    assert ws[..3] == [r.a, r.b, r.c] && ws[..3][..2] == [r.a, r.b] && ws[..3][..2][..1] == [r.a] && [r.a][..0] == [];
    assert LittleEndians(ws) == LittleEndians(ws[..3]) + Bytes4(r.d);
    assert LittleEndians(ws[..3]) == LittleEndians(ws[..3][..2]) + Bytes4(r.c);
    assert LittleEndians(ws[..3][..2]) == LittleEndians([r.a]) + Bytes4(r.b);
    assert LittleEndians([r.a]) == Bytes4(r.a);
  }

  lemma AlphabetBlocks()
    ensures Blocks(Padded(Alphabet())) == Registers(0xd7d3fcc3, 0x00e49261, 0x6c49fb7d, 0x3be167ca)
  {
    hide *;
    AlphabetWords();
    OneBlock(Padded(Alphabet()));
    RoundsOfAlphabet();
    FinalSums();
  }

  lemma RoundsOfAlphabet()
    ensures Rounds(4, INIT, X()) == Registers(0x708ed9c2, 0x1116e6d8, 0xd38f1e7f, 0x2baf1354)
  {
    assert INIT == Registers(0x67452301, 0xefcdab89, 0x98badcfe, 0x10325476);
    hide *;
    Round1OfAlphabet();
    Round2OfAlphabet();
    Round3OfAlphabet();
    Round4OfAlphabet();
    FourRounds(INIT, X());
  }

  lemma FinalSums()
    ensures Sums(INIT, Registers(0x708ed9c2, 0x1116e6d8, 0xd38f1e7f, 0x2baf1354)) == Registers(0xd7d3fcc3, 0x00e49261, 0x6c49fb7d, 0x3be167ca)
  {
  }

  lemma OneBlock(p: seq<byte>)
    requires |p| == 64
    ensures Blocks(p) == Sums(INIT, Rounds(4, INIT, Words(p)))
  {
    hide Rounds, Words;
    assert p[..0] == [] && p[0..] == p;
  }
}
