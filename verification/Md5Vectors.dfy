// The digests of section A.5 of RFC 1321, worked out step by step.

module Md5Vectors {
  import opened Arithmetic
  import opened Words
  import opened Md5Steps
  import opened Md5Spec
  import opened Md5Bits

  // ---------- the entries of the table form ----------

  predicate Entry(i: nat, k: nat, t: Word, p: nat, q: nat)
    requires i < 64
  {
    Sine(i) == t && WordIndex(i) == k && Pow2(Shift(i)) == p && Pow2(32 - Shift(i)) == q
  }

  lemma Entries0()
    ensures Entry(0, 0, 0xd76aa478, 0x80, 0x2000000)
    ensures Entry(1, 1, 0xe8c7b756, 0x1000, 0x100000)
    ensures Entry(2, 2, 0x242070db, 0x20000, 0x8000)
    ensures Entry(3, 3, 0xc1bdceee, 0x400000, 0x400)
  {
    Powers();
  }

  lemma Entries4()
    ensures Entry(4, 4, 0xf57c0faf, 0x80, 0x2000000)
    ensures Entry(5, 5, 0x4787c62a, 0x1000, 0x100000)
    ensures Entry(6, 6, 0xa8304613, 0x20000, 0x8000)
    ensures Entry(7, 7, 0xfd469501, 0x400000, 0x400)
  {
    Powers();
  }

  lemma Entries8()
    ensures Entry(8, 8, 0x698098d8, 0x80, 0x2000000)
    ensures Entry(9, 9, 0x8b44f7af, 0x1000, 0x100000)
    ensures Entry(10, 10, 0xffff5bb1, 0x20000, 0x8000)
    ensures Entry(11, 11, 0x895cd7be, 0x400000, 0x400)
  {
    Powers();
  }

  lemma Entries12()
    ensures Entry(12, 12, 0x6b901122, 0x80, 0x2000000)
    ensures Entry(13, 13, 0xfd987193, 0x1000, 0x100000)
    ensures Entry(14, 14, 0xa679438e, 0x20000, 0x8000)
    ensures Entry(15, 15, 0x49b40821, 0x400000, 0x400)
  {
    Powers();
  }

  lemma Entries16()
    ensures Entry(16, 1, 0xf61e2562, 0x20, 0x8000000)
    ensures Entry(17, 6, 0xc040b340, 0x200, 0x800000)
    ensures Entry(18, 11, 0x265e5a51, 0x4000, 0x40000)
    ensures Entry(19, 0, 0xe9b6c7aa, 0x100000, 0x1000)
  {
    Powers();
  }

  lemma Entries20()
    ensures Entry(20, 5, 0xd62f105d, 0x20, 0x8000000)
    ensures Entry(21, 10, 0x02441453, 0x200, 0x800000)
    ensures Entry(22, 15, 0xd8a1e681, 0x4000, 0x40000)
    ensures Entry(23, 4, 0xe7d3fbc8, 0x100000, 0x1000)
  {
    Powers();
  }

  lemma Entries24()
    ensures Entry(24, 9, 0x21e1cde6, 0x20, 0x8000000)
    ensures Entry(25, 14, 0xc33707d6, 0x200, 0x800000)
    ensures Entry(26, 3, 0xf4d50d87, 0x4000, 0x40000)
    ensures Entry(27, 8, 0x455a14ed, 0x100000, 0x1000)
  {
    Powers();
  }

  lemma Entries28()
    ensures Entry(28, 13, 0xa9e3e905, 0x20, 0x8000000)
    ensures Entry(29, 2, 0xfcefa3f8, 0x200, 0x800000)
    ensures Entry(30, 7, 0x676f02d9, 0x4000, 0x40000)
    ensures Entry(31, 12, 0x8d2a4c8a, 0x100000, 0x1000)
  {
    Powers();
  }

  lemma Entries32()
    ensures Entry(32, 5, 0xfffa3942, 0x10, 0x10000000)
    ensures Entry(33, 8, 0x8771f681, 0x800, 0x200000)
    ensures Entry(34, 11, 0x6d9d6122, 0x10000, 0x10000)
    ensures Entry(35, 14, 0xfde5380c, 0x800000, 0x200)
  {
    Powers();
  }

  lemma Entries36()
    ensures Entry(36, 1, 0xa4beea44, 0x10, 0x10000000)
    ensures Entry(37, 4, 0x4bdecfa9, 0x800, 0x200000)
    ensures Entry(38, 7, 0xf6bb4b60, 0x10000, 0x10000)
    ensures Entry(39, 10, 0xbebfbc70, 0x800000, 0x200)
  {
    Powers();
  }

  lemma Entries40()
    ensures Entry(40, 13, 0x289b7ec6, 0x10, 0x10000000)
    ensures Entry(41, 0, 0xeaa127fa, 0x800, 0x200000)
    ensures Entry(42, 3, 0xd4ef3085, 0x10000, 0x10000)
    ensures Entry(43, 6, 0x04881d05, 0x800000, 0x200)
  {
    Powers();
  }

  lemma Entries44()
    ensures Entry(44, 9, 0xd9d4d039, 0x10, 0x10000000)
    ensures Entry(45, 12, 0xe6db99e5, 0x800, 0x200000)
    ensures Entry(46, 15, 0x1fa27cf8, 0x10000, 0x10000)
    ensures Entry(47, 2, 0xc4ac5665, 0x800000, 0x200)
  {
    Powers();
  }

  lemma Entries48()
    ensures Entry(48, 0, 0xf4292244, 0x40, 0x4000000)
    ensures Entry(49, 7, 0x432aff97, 0x400, 0x400000)
    ensures Entry(50, 14, 0xab9423a7, 0x8000, 0x20000)
    ensures Entry(51, 5, 0xfc93a039, 0x200000, 0x800)
  {
    Powers();
  }

  lemma Entries52()
    ensures Entry(52, 12, 0x655b59c3, 0x40, 0x4000000)
    ensures Entry(53, 3, 0x8f0ccc92, 0x400, 0x400000)
    ensures Entry(54, 10, 0xffeff47d, 0x8000, 0x20000)
    ensures Entry(55, 1, 0x85845dd1, 0x200000, 0x800)
  {
    Powers();
  }

  lemma Entries56()
    ensures Entry(56, 8, 0x6fa87e4f, 0x40, 0x4000000)
    ensures Entry(57, 15, 0xfe2ce6e0, 0x400, 0x400000)
    ensures Entry(58, 6, 0xa3014314, 0x8000, 0x20000)
    ensures Entry(59, 13, 0x4e0811a1, 0x200000, 0x800)
  {
    Powers();
  }

  lemma Entries60()
    ensures Entry(60, 4, 0xf7537e82, 0x40, 0x4000000)
    ensures Entry(61, 11, 0xbd3af235, 0x400, 0x400000)
    ensures Entry(62, 2, 0x2ad7d2bb, 0x8000, 0x20000)
    ensures Entry(63, 9, 0xeb86d391, 0x200000, 0x800)
  {
    Powers();
  }

  // The words of the one block of a short message
  ghost predicate IsBlock(x: seq<Word>, first: Word, bits: Word) {
    |x| == 16 && x[0] == first && x[14] == bits && forall k :: 0 < k < 16 && k != 14 ==> x[k] == 0
  }

  lemma BlockSize(x: seq<Word>, first: Word, bits: Word)
    requires IsBlock(x, first, bits)
    ensures |x| == 16
  {
  }

  // ---------- the empty message ----------

  lemma Empty0(x: seq<Word>)
    requires IsBlock(x, 0x00000080, 0) && Steps(0, START, x) == Registers(0x67452301, 0xefcdab89, 0x98badcfe, 0x10325476)
    ensures Steps(2, START, x) == Registers(0x98badcfe, 0xf59592dd, 0xa5202774, 0xefcdab89)
  {
    hide Steps, Sine, WordIndex, Pow2, Shift;
    Entries0();
    Advance(0, x, 0x67452301, 0xefcdab89, 0x98badcfe, 0x10325476, 0x98badcfe, 0x00000080, 0xd76aa478, 0x80, 0x2000000, 0x6b, 0x16aa4f7);
    Advance(1, x, 0x10325476, 0xa5202774, 0xefcdab89, 0x98badcfe, 0xbd9afb8a, 0, 0xe8c7b756, 0x1000, 0x100000, 0xb69, 0x50756);
  }

  lemma Empty2(x: seq<Word>)
    requires IsBlock(x, 0x00000080, 0) && Steps(2, START, x) == Registers(0x98badcfe, 0xf59592dd, 0xa5202774, 0xefcdab89)
    ensures Steps(4, START, x) == Registers(0xa5202774, 0x1b163203, 0xe7f06b23, 0xf59592dd)
  {
    hide Steps, Sine, WordIndex, Pow2, Shift;
    Entries0();
    Advance(2, x, 0x98badcfe, 0xf59592dd, 0xa5202774, 0xefcdab89, 0xaf482b54, 0, 0x242070db, 0x20000, 0x8000, 0xd846, 0x792d);
    Advance(3, x, 0xefcdab89, 0xe7f06b23, 0xf59592dd, 0xa5202774, 0xe5900655, 0, 0xc1bdceee, 0x400000, 0x400, 0x25c6e0, 0xcc);
  }

  lemma Empty4(x: seq<Word>)
    requires IsBlock(x, 0x00000080, 0) && Steps(4, START, x) == Registers(0xa5202774, 0x1b163203, 0xe7f06b23, 0xf59592dd)
    ensures Steps(6, START, x) == Registers(0xe7f06b23, 0x2f35d494, 0x32033344, 0x1b163203)
  {
    hide Steps, Sine, WordIndex, Pow2, Shift;
    Entries4();
    Advance(4, x, 0xa5202774, 0x1b163203, 0xe7f06b23, 0xf59592dd, 0xe791a2df, 0, 0xf57c0faf, 0x80, 0x2000000, 0x41, 0x2dda02);
    Advance(5, x, 0xf59592dd, 0x32033344, 0x1b163203, 0xe7f06b23, 0xd7f27a23, 0, 0x4787c62a, 0x1000, 0x100000, 0x150, 0xfd32a);
  }

  lemma Empty6(x: seq<Word>)
    requires IsBlock(x, 0x00000080, 0) && Steps(6, START, x) == Registers(0xe7f06b23, 0x2f35d494, 0x32033344, 0x1b163203)
    ensures Steps(8, START, x) == Registers(0x32033344, 0x9bc13ce9, 0xf5b158db, 0x2f35d494)
  {
    hide Steps, Sine, WordIndex, Pow2, Shift;
    Entries4();
    Advance(6, x, 0xe7f06b23, 0x2f35d494, 0x32033344, 0x1b163203, 0x32033207, 0, 0xa8304613, 0x20000, 0x8000, 0x18447, 0x633d);
    Advance(7, x, 0x1b163203, 0xf5b158db, 0x2f35d494, 0x32033344, 0x27337394, 0, 0xfd469501, 0x400000, 0x400, 0xfe40e, 0x298);
  }

  lemma Empty8(x: seq<Word>)
    requires IsBlock(x, 0x00000080, 0) && Steps(8, START, x) == Registers(0x32033344, 0x9bc13ce9, 0xf5b158db, 0x2f35d494)
    ensures Steps(10, START, x) == Registers(0xf5b158db, 0xfce4a312, 0x3893b991, 0x9bc13ce9)
  {
    hide Steps, Sine, WordIndex, Pow2, Shift;
    Entries8();
    Advance(8, x, 0x32033344, 0x9bc13ce9, 0xf5b158db, 0x2f35d494, 0xb5b5d8dd, 0, 0x698098d8, 0x80, 0x2000000, 0x28, 0x139a4f9);
    Advance(9, x, 0x2f35d494, 0x3893b991, 0x9bc13ce9, 0xf5b158db, 0xdda178cb, 0, 0x8b44f7af, 0x1000, 0x100000, 0x981, 0xc450e);
  }

  lemma Empty10(x: seq<Word>)
    requires IsBlock(x, 0x00000080, 0) && Steps(10, START, x) == Registers(0xf5b158db, 0xfce4a312, 0x3893b991, 0x9bc13ce9)
    ensures Steps(12, START, x) == Registers(0x3893b991, 0x70768a29, 0xe1ef0576, 0xfce4a312)
  {
    hide Steps, Sine, WordIndex, Pow2, Shift;
    Entries8();
    Advance(10, x, 0xf5b158db, 0xfce4a312, 0x3893b991, 0x9bc13ce9, 0x3b81bdf9, 0, 0xffff5bb1, 0x20000, 0x8000, 0x6264, 0x7285);
    Advance(11, x, 0x9bc13ce9, 0xe1ef0576, 0xfce4a312, 0x3893b991, 0xf8f4b993, 0, 0x895cd7be, 0x400000, 0x400, 0x784b3, 0x23a);
  }

  lemma Empty12(x: seq<Word>)
    requires IsBlock(x, 0x00000080, 0) && Steps(12, START, x) == Registers(0x3893b991, 0x70768a29, 0xe1ef0576, 0xfce4a312)
    ensures Steps(14, START, x) == Registers(0xe1ef0576, 0x374943a7, 0xf56c7cf1, 0x70768a29)
  {
    hide Steps, Sine, WordIndex, Pow2, Shift;
    Entries12();
    Advance(12, x, 0x3893b991, 0x70768a29, 0xe1ef0576, 0xfce4a312, 0xece62132, 0, 0x6b901122, 0x80, 0x2000000, 0x48, 0x109ebe5);
    Advance(13, x, 0xfce4a312, 0xf56c7cf1, 0x70768a29, 0xe1ef0576, 0x70e70927, 0, 0xfd987193, 0x1000, 0x100000, 0x6b6, 0x41dcc);
  }

  lemma Empty14(x: seq<Word>)
    requires IsBlock(x, 0x00000080, 0) && Steps(14, START, x) == Registers(0xe1ef0576, 0x374943a7, 0xf56c7cf1, 0x70768a29)
    ensures Steps(16, START, x) == Registers(0xf56c7cf1, 0xd6819c6a, 0x5aa53f75, 0x374943a7)
  {
    hide Steps, Sine, WordIndex, Pow2, Shift;
    Entries12();
    Advance(14, x, 0xe1ef0576, 0x374943a7, 0xf56c7cf1, 0x70768a29, 0x757ec8a9, 0, 0xa679438e, 0x20000, 0x8000, 0x1fbce, 0x11ad);
    Advance(15, x, 0x70768a29, 0x5aa53f75, 0x374943a7, 0xf56c7cf1, 0xb74943a5, 0, 0x49b40821, 0x400000, 0x400, 0x1c5cf5, 0x1ef);
  }

  lemma Empty16(x: seq<Word>)
    requires IsBlock(x, 0x00000080, 0) && Steps(16, START, x) == Registers(0xf56c7cf1, 0xd6819c6a, 0x5aa53f75, 0x374943a7)
    ensures Steps(18, START, x) == Registers(0x5aa53f75, 0x7bd57a3a, 0x1c7d7513, 0xd6819c6a)
  {
    hide Steps, Sine, WordIndex, Pow2, Shift;
    Entries16();
    Advance(16, x, 0xf56c7cf1, 0xd6819c6a, 0x5aa53f75, 0x374943a7, 0x5ea53c72, 0, 0xf61e2562, 0x20, 0x8000000, 0x9, 0x22fdec5);
    Advance(17, x, 0x374943a7, 0x1c7d7513, 0xd6819c6a, 0x5aa53f75, 0x9c25b51b, 0, 0xc040b340, 0x200, 0x800000, 0x127, 0x2fac02);
  }

  lemma Empty18(x: seq<Word>)
    requires IsBlock(x, 0x00000080, 0) && Steps(18, START, x) == Registers(0x5aa53f75, 0x7bd57a3a, 0x1c7d7513, 0xd6819c6a)
    ensures Steps(20, START, x) == Registers(0x1c7d7513, 0xbd782e17, 0xc095f13a, 0x7bd57a3a)
  {
    hide Steps, Sine, WordIndex, Pow2, Shift;
    Entries16();
    Advance(18, x, 0x5aa53f75, 0x7bd57a3a, 0x1c7d7513, 0xd6819c6a, 0x5afd793b, 0, 0x265e5a51, 0x4000, 0x40000, 0x3700, 0x11301);
    Advance(19, x, 0xd6819c6a, 0xc095f13a, 0x7bd57a3a, 0x1c7d7513, 0x63957b3a, 0x00000080, 0xe9b6c7aa, 0x100000, 0x1000, 0x23cdd, 0xfce);
  }

  lemma Empty20(x: seq<Word>)
    requires IsBlock(x, 0x00000080, 0) && Steps(20, START, x) == Registers(0x1c7d7513, 0xbd782e17, 0xc095f13a, 0x7bd57a3a)
    ensures Steps(22, START, x) == Registers(0xc095f13a, 0x68b7b3e3, 0x3d1e3e6c, 0xbd782e17)
  {
    hide Steps, Sine, WordIndex, Pow2, Shift;
    Entries20();
    Advance(20, x, 0x1c7d7513, 0xbd782e17, 0xc095f13a, 0x7bd57a3a, 0xb950ab12, 0, 0xd62f105d, 0x20, 0x8000000, 0x15, 0x3fd3082);
    Advance(21, x, 0x7bd57a3a, 0x3d1e3e6c, 0xbd782e17, 0xc095f13a, 0x3d7c3e2d, 0, 0x02441453, 0x200, 0x800000, 0x177, 0x15ccba);
  }

  lemma Empty22(x: seq<Word>)
    requires IsBlock(x, 0x00000080, 0) && Steps(22, START, x) == Registers(0xc095f13a, 0x68b7b3e3, 0x3d1e3e6c, 0xbd782e17)
    ensures Steps(24, START, x) == Registers(0x3d1e3e6c, 0xe422531a, 0xeb41643e, 0x68b7b3e3)
  {
    hide Steps, Sine, WordIndex, Pow2, Shift;
    Entries20();
    Advance(22, x, 0xc095f13a, 0x68b7b3e3, 0x3d1e3e6c, 0xbd782e17, 0x2836326b, 0, 0xd8a1e681, 0x4000, 0x40000, 0x305b, 0x20a26);
    Advance(23, x, 0xbd782e17, 0xeb41643e, 0x68b7b3e3, 0x3d1e3e6c, 0x69a1a5af, 0, 0xe7d3fbc8, 0x100000, 0x1000, 0xeedc, 0xf8e);
  }

  lemma Empty24(x: seq<Word>)
    requires IsBlock(x, 0x00000080, 0) && Steps(24, START, x) == Registers(0x3d1e3e6c, 0xe422531a, 0xeb41643e, 0x68b7b3e3)
    ensures Steps(26, START, x) == Registers(0xeb41643e, 0xd28c77c2, 0x306ec122, 0xe422531a)
  {
    hide Steps, Sine, WordIndex, Pow2, Shift;
    Entries24();
    Advance(24, x, 0x3d1e3e6c, 0xe422531a, 0xeb41643e, 0x68b7b3e3, 0xe362571e, 0, 0x21e1cde6, 0x20, 0x8000000, 0x8, 0x2626370);
    Advance(25, x, 0x68b7b3e3, 0x306ec122, 0xe422531a, 0xeb41643e, 0x24625322, 0, 0xc33707d6, 0x200, 0x800000, 0xa0, 0x510edb);
  }

  lemma Empty26(x: seq<Word>)
    requires IsBlock(x, 0x00000080, 0) && Steps(26, START, x) == Registers(0xeb41643e, 0xd28c77c2, 0x306ec122, 0xe422531a)
    ensures Steps(28, START, x) == Registers(0x306ec122, 0xa0572807, 0xa3c663da, 0xd28c77c2)
  {
    hide Steps, Sine, WordIndex, Pow2, Shift;
    Entries24();
    Advance(26, x, 0xeb41643e, 0xd28c77c2, 0x306ec122, 0xe422531a, 0xd04cd322, 0, 0xf4d50d87, 0x4000, 0x40000, 0x2c18, 0x344e7);
    Advance(27, x, 0xe422531a, 0xa3c663da, 0xd28c77c2, 0x306ec122, 0xe2c677c2, 0, 0x455a14ed, 0x100000, 0x1000, 0xc42d, 0xfc9);
  }

  lemma Empty28(x: seq<Word>)
    requires IsBlock(x, 0x00000080, 0) && Steps(28, START, x) == Registers(0x306ec122, 0xa0572807, 0xa3c663da, 0xd28c77c2)
    ensures Steps(30, START, x) == Registers(0xa3c663da, 0xae7813db, 0x13707036, 0xa0572807)
  {
    hide Steps, Sine, WordIndex, Pow2, Shift;
    Entries28();
    Advance(28, x, 0x306ec122, 0xa0572807, 0xa3c663da, 0xd28c77c2, 0xa146201a, 0, 0xa9e3e905, 0x20, 0x8000000, 0xf, 0x398ca41);
    Advance(29, x, 0xd28c77c2, 0x13707036, 0xa0572807, 0xa3c663da, 0x03516817, 0, 0xfcefa3f8, 0x200, 0x800000, 0x1a5, 0x4d83d1);
  }

  lemma Empty30(x: seq<Word>)
    requires IsBlock(x, 0x00000080, 0) && Steps(30, START, x) == Registers(0xa3c663da, 0xae7813db, 0x13707036, 0xa0572807)
    ensures Steps(32, START, x) == Registers(0x13707036, 0xa2205f1f, 0x1c31c384, 0xae7813db)
  {
    hide Steps, Sine, WordIndex, Pow2, Shift;
    Entries28();
    Advance(30, x, 0xa3c663da, 0xae7813db, 0x13707036, 0xa0572807, 0xb3705033, 0, 0x676f02d9, 0x4000, 0x40000, 0x2fa9, 0x1b6e6);
    Advance(31, x, 0xa0572807, 0x1c31c384, 0xae7813db, 0x13707036, 0xbc3843cd, 0, 0x8d2a4c8a, 0x100000, 0x1000, 0xe9b9b, 0x85e);
  }

  lemma Empty32(x: seq<Word>)
    requires IsBlock(x, 0x00000080, 0) && Steps(32, START, x) == Registers(0x13707036, 0xa2205f1f, 0x1c31c384, 0xae7813db)
    ensures Steps(34, START, x) == Registers(0x1c31c384, 0xc3689f5b, 0xdf63eaa1, 0xa2205f1f)
  {
    hide Steps, Sine, WordIndex, Pow2, Shift;
    Entries32();
    Advance(32, x, 0x13707036, 0xa2205f1f, 0x1c31c384, 0xae7813db, 0x10698f40, 0, 0xfffa3942, 0x10, 0x10000000, 0x2, 0x3d438b8);
    Advance(33, x, 0xae7813db, 0xdf63eaa1, 0xa2205f1f, 0x1c31c384, 0x6172763a, 0, 0x8771f681, 0x800, 0x200000, 0x4ba, 0x1c8096);
  }

  lemma Empty34(x: seq<Word>)
    requires IsBlock(x, 0x00000080, 0) && Steps(34, START, x) == Registers(0x1c31c384, 0xc3689f5b, 0xdf63eaa1, 0xa2205f1f)
    ensures Steps(36, START, x) == Registers(0xdf63eaa1, 0x004b6669, 0x12f3e755, 0xc3689f5b)
  {
    hide Steps, Sine, WordIndex, Pow2, Shift;
    Entries32();
    Advance(34, x, 0x1c31c384, 0xc3689f5b, 0xdf63eaa1, 0xa2205f1f, 0xbe2b2ae5, 0, 0x6d9d6122, 0x10000, 0x10000, 0x47fa, 0x4f8b);
    Advance(35, x, 0xa2205f1f, 0x12f3e755, 0xc3689f5b, 0xdf63eaa1, 0x0ef892af, 0, 0xfde5380c, 0x800000, 0x200, 0x577f14, 0x1da);
  }

  lemma Empty36(x: seq<Word>)
    requires IsBlock(x, 0x00000080, 0) && Steps(36, START, x) == Registers(0xdf63eaa1, 0x004b6669, 0x12f3e755, 0xc3689f5b)
    ensures Steps(38, START, x) == Registers(0x12f3e755, 0xabc34e16, 0x5f7a9b2e, 0x004b6669)
  {
    hide Steps, Sine, WordIndex, Pow2, Shift;
    Entries36();
    Advance(36, x, 0xdf63eaa1, 0x004b6669, 0x12f3e755, 0xc3689f5b, 0xd1d01e67, 0, 0xa4beea44, 0x10, 0x10000000, 0x5, 0x5f2f34c);
    Advance(37, x, 0xc3689f5b, 0x5f7a9b2e, 0x004b6669, 0x12f3e755, 0x4dc21a12, 0, 0x4bdecfa9, 0x800, 0x200000, 0x2e8, 0x98916);
  }

  lemma Empty38(x: seq<Word>)
    requires IsBlock(x, 0x00000080, 0) && Steps(38, START, x) == Registers(0x12f3e755, 0xabc34e16, 0x5f7a9b2e, 0x004b6669)
    ensures Steps(40, START, x) == Registers(0x5f7a9b2e, 0xc5dc8c15, 0x91ca4cb7, 0xabc34e16)
  {
    hide Steps, Sine, WordIndex, Pow2, Shift;
    Entries36();
    Advance(38, x, 0x12f3e755, 0xabc34e16, 0x5f7a9b2e, 0x004b6669, 0xf4f2b351, 0, 0xf6bb4b60, 0x10000, 0x10000, 0xfea1, 0xe606);
    Advance(39, x, 0x004b6669, 0x91ca4cb7, 0xabc34e16, 0x5f7a9b2e, 0x6573998f, 0, 0xbebfbc70, 0x800000, 0x200, 0x123f5e, 0x68);
  }

  lemma Empty40(x: seq<Word>)
    requires IsBlock(x, 0x00000080, 0) && Steps(40, START, x) == Registers(0x5f7a9b2e, 0xc5dc8c15, 0x91ca4cb7, 0xabc34e16)
    ensures Steps(42, START, x) == Registers(0x91ca4cb7, 0x76fd93d4, 0x4497169d, 0xc5dc8c15)
  {
    hide Steps, Sine, WordIndex, Pow2, Shift;
    Entries40();
    Advance(40, x, 0x5f7a9b2e, 0xc5dc8c15, 0x91ca4cb7, 0xabc34e16, 0xffd58eb4, 0, 0x289b7ec6, 0x10, 0x10000000, 0x8, 0x7eba8a8);
    Advance(41, x, 0xabc34e16, 0x4497169d, 0xc5dc8c15, 0x91ca4cb7, 0x1081d63f, 0x00000080, 0xeaa127fa, 0x800, 0x200000, 0x537, 0x64ccf);
  }

  lemma Empty42(x: seq<Word>)
    requires IsBlock(x, 0x00000080, 0) && Steps(42, START, x) == Registers(0x91ca4cb7, 0x76fd93d4, 0x4497169d, 0xc5dc8c15)
    ensures Steps(44, START, x) == Registers(0x4497169d, 0x0fe32453, 0xfd95f243, 0x76fd93d4)
  {
    hide Steps, Sine, WordIndex, Pow2, Shift;
    Entries40();
    Advance(42, x, 0x91ca4cb7, 0x76fd93d4, 0x4497169d, 0xc5dc8c15, 0xf7b6095c, 0, 0xd4ef3085, 0x10000, 0x10000, 0x5e6f, 0x8698);
    Advance(43, x, 0xc5dc8c15, 0xfd95f243, 0x76fd93d4, 0x4497169d, 0xcfff770a, 0, 0x04881d05, 0x800000, 0x200, 0x4d3210, 0x24);
  }

  lemma Empty44(x: seq<Word>)
    requires IsBlock(x, 0x00000080, 0) && Steps(44, START, x) == Registers(0x4497169d, 0x0fe32453, 0xfd95f243, 0x76fd93d4)
    ensures Steps(46, START, x) == Registers(0xfd95f243, 0x22a31f54, 0x3f55edfd, 0x0fe32453)
  {
    hide Steps, Sine, WordIndex, Pow2, Shift;
    Entries44();
    Advance(44, x, 0x4497169d, 0x0fe32453, 0xfd95f243, 0x76fd93d4, 0x848b45c4, 0, 0xd9d4d039, 0x10, 0x10000000, 0xa, 0x2f72c9a);
    Advance(45, x, 0x76fd93d4, 0x3f55edfd, 0x0fe32453, 0xfd95f243, 0xcd233bed, 0, 0xe6db99e5, 0x800, 0x200000, 0x157, 0x1c69a6);
  }

  lemma Empty46(x: seq<Word>)
    requires IsBlock(x, 0x00000080, 0) && Steps(46, START, x) == Registers(0xfd95f243, 0x22a31f54, 0x3f55edfd, 0x0fe32453)
    ensures Steps(48, START, x) == Registers(0x3f55edfd, 0xca7d2dbd, 0x68d84ea2, 0x22a31f54)
  {
    hide Steps, Sine, WordIndex, Pow2, Shift;
    Entries44();
    Advance(46, x, 0xfd95f243, 0x22a31f54, 0x3f55edfd, 0x0fe32453, 0x1215d6fa, 0, 0x1fa27cf8, 0x10000, 0x10000, 0x2f4e, 0x4635);
    Advance(47, x, 0x0fe32453, 0x68d84ea2, 0x22a31f54, 0x3f55edfd, 0x752ebc0b, 0, 0xc4ac5665, 0x800000, 0x200, 0x24df1b, 0xc3);
  }

  lemma Empty48(x: seq<Word>)
    requires IsBlock(x, 0x00000080, 0) && Steps(48, START, x) == Registers(0x3f55edfd, 0xca7d2dbd, 0x68d84ea2, 0x22a31f54)
    ensures Steps(50, START, x) == Registers(0x68d84ea2, 0x1688dc85, 0x93aa2577, 0xca7d2dbd)
  {
    hide Steps, Sine, WordIndex, Pow2, Shift;
    Entries48();
    Advance(48, x, 0x3f55edfd, 0xca7d2dbd, 0x68d84ea2, 0x22a31f54, 0xb7a5a31d, 0x00000080, 0xf4292244, 0x40, 0x4000000, 0x3a, 0x324b3de);
    Advance(49, x, 0x22a31f54, 0x93aa2577, 0xca7d2dbd, 0x68d84ea2, 0x5dd298c2, 0, 0x432aff97, 0x400, 0x400000, 0x30e, 0x20b7ad);
  }

  lemma Empty50(x: seq<Word>)
    requires IsBlock(x, 0x00000080, 0) && Steps(50, START, x) == Registers(0x68d84ea2, 0x1688dc85, 0x93aa2577, 0xca7d2dbd)
    ensures Steps(52, START, x) == Registers(0x93aa2577, 0x561e0689, 0xcd85b8cb, 0x1688dc85)
  {
    hide Steps, Sine, WordIndex, Pow2, Shift;
    Entries48();
    Advance(50, x, 0x68d84ea2, 0x1688dc85, 0x93aa2577, 0xca7d2dbd, 0xa420fbb0, 0, 0xab9423a7, 0x8000, 0x20000, 0x5c46, 0x16df9);
    Advance(51, x, 0xca7d2dbd, 0xcd85b8cb, 0x1688dc85, 0x93aa2577, 0xfb5d264e, 0, 0xfc93a039, 0x200000, 0x800, 0x184dbe, 0x444);
  }

  lemma Empty52(x: seq<Word>)
    requires IsBlock(x, 0x00000080, 0) && Steps(52, START, x) == Registers(0x93aa2577, 0x561e0689, 0xcd85b8cb, 0x1688dc85)
    ensures Steps(54, START, x) == Registers(0xcd85b8cb, 0x3450f42b, 0x5625a114, 0x561e0689)
  {
    hide Steps, Sine, WordIndex, Pow2, Shift;
    Entries52();
    Advance(52, x, 0x93aa2577, 0x561e0689, 0xcd85b8cb, 0x1688dc85, 0x32fa9f30, 0, 0x655b59c3, 0x40, 0x4000000, 0xb, 0x1e6a);
    Advance(53, x, 0x1688dc85, 0x5625a114, 0x561e0689, 0xcd85b8cb, 0x2061e1bd, 0, 0x8f0ccc92, 0x400, 0x400000, 0x317, 0x378ad4);
  }

  lemma Empty54(x: seq<Word>)
    requires IsBlock(x, 0x00000080, 0) && Steps(54, START, x) == Registers(0xcd85b8cb, 0x3450f42b, 0x5625a114, 0x561e0689)
    ensures Steps(56, START, x) == Registers(0x5625a114, 0x1e77fa61, 0x392ad0d0, 0x3450f42b)
  {
    hide Steps, Sine, WordIndex, Pow2, Shift;
    Entries52();
    Advance(54, x, 0xcd85b8cb, 0x3450f42b, 0x5625a114, 0x561e0689, 0xebd45c6b, 0, 0xffeff47d, 0x8000, 0x20000, 0x5ca5, 0x9b3);
    Advance(55, x, 0x561e0689, 0x392ad0d0, 0x3450f42b, 0x5625a114, 0x8daa2ad0, 0, 0x85845dd1, 0x200000, 0x800, 0xd2991, 0x72a);
  }

  lemma Empty56(x: seq<Word>)
    requires IsBlock(x, 0x00000080, 0) && Steps(56, START, x) == Registers(0x5625a114, 0x1e77fa61, 0x392ad0d0, 0x3450f42b)
    ensures Steps(58, START, x) == Registers(0x392ad0d0, 0xdfce00bc, 0x474a9c8c, 0x1e77fa61)
  {
    hide Steps, Sine, WordIndex, Pow2, Shift;
    Entries56();
    Advance(56, x, 0x5625a114, 0x1e77fa61, 0x392ad0d0, 0x3450f42b, 0xe6d52b25, 0, 0x6fa87e4f, 0x40, 0x4000000, 0x2b, 0xa34a88);
    Advance(57, x, 0x3450f42b, 0x474a9c8c, 0x1e77fa61, 0x392ad0d0, 0xd9a845ce, 0, 0xfe2ce6e0, 0x400, 0x400000, 0x30, 0x2620d9);
  }

  lemma Empty58(x: seq<Word>)
    requires IsBlock(x, 0x00000080, 0) && Steps(58, START, x) == Registers(0x392ad0d0, 0xdfce00bc, 0x474a9c8c, 0x1e77fa61)
    ensures Steps(60, START, x) == Registers(0x474a9c8c, 0x30130182, 0x36594b14, 0xdfce00bc)
  {
    hide Steps, Sine, WordIndex, Pow2, Shift;
    Entries56();
    Advance(58, x, 0x392ad0d0, 0xdfce00bc, 0x474a9c8c, 0x1e77fa61, 0xb8849932, 0, 0xa3014314, 0x8000, 0x20000, 0x4a58, 0xad16);
    Advance(59, x, 0x1e77fa61, 0x36594b14, 0xdfce00bc, 0x474a9c8c, 0x61336bcb, 0, 0x4e0811a1, 0x200000, 0x800, 0x19b66e, 0x7cd);
  }

  lemma Empty60(x: seq<Word>)
    requires IsBlock(x, 0x00000080, 0) && Steps(60, START, x) == Registers(0x474a9c8c, 0x30130182, 0x36594b14, 0xdfce00bc)
    ensures Steps(62, START, x) == Registers(0x36594b14, 0x6e10a476, 0x7246fad3, 0x30130182)
  {
    hide Steps, Sine, WordIndex, Pow2, Shift;
    Entries60();
    Advance(60, x, 0x474a9c8c, 0x30130182, 0x36594b14, 0xdfce00bc, 0x066ab4d7, 0, 0xf7537e82, 0x40, 0x4000000, 0x11, 0x108cfe5);
    Advance(61, x, 0xdfce00bc, 0x7246fad3, 0x30130182, 0x36594b14, 0xcbf5ff79, 0, 0xbd3af235, 0x400, 0x400000, 0x1a3, 0x3ef26a);
  }

  lemma Empty62(x: seq<Word>)
    requires IsBlock(x, 0x00000080, 0) && Steps(62, START, x) == Registers(0x36594b14, 0x6e10a476, 0x7246fad3, 0x30130182)
    ensures Steps(64, START, x) == Registers(0x7246fad3, 0x14e45506, 0xff4ea3eb, 0x6e10a476)
  {
    hide Steps, Sine, WordIndex, Pow2, Shift;
    Entries60();
    Advance(62, x, 0x36594b14, 0x6e10a476, 0x7246fad3, 0x30130182, 0x9dba04ac, 0, 0x2ad7d2bb, 0x8000, 0x20000, 0x7f75, 0x1227b);
    Advance(63, x, 0x30130182, 0xff4ea3eb, 0x6e10a476, 0x7246fad3, 0x91ef0399, 0, 0xeb86d391, 0x200000, 0x800, 0x15b11b, 0xac);
  }

  lemma EmptySteps(x: seq<Word>)
    requires IsBlock(x, 0x00000080, 0)
    ensures Steps(64, START, x) == Registers(0x7246fad3, 0x14e45506, 0xff4ea3eb, 0x6e10a476)
  {
    hide Steps, IsBlock;
    BlockSize(x, 0x00000080, 0);
    NoSteps(START, x);
    Empty0(x);
    Empty2(x);
    Empty4(x);
    Empty6(x);
    Empty8(x);
    Empty10(x);
    Empty12(x);
    Empty14(x);
    Empty16(x);
    Empty18(x);
    Empty20(x);
    Empty22(x);
    Empty24(x);
    Empty26(x);
    Empty28(x);
    Empty30(x);
    Empty32(x);
    Empty34(x);
    Empty36(x);
    Empty38(x);
    Empty40(x);
    Empty42(x);
    Empty44(x);
    Empty46(x);
    Empty48(x);
    Empty50(x);
    Empty52(x);
    Empty54(x);
    Empty56(x);
    Empty58(x);
    Empty60(x);
    Empty62(x);
  }

  // ---------- abc ----------

  lemma Abc0(x: seq<Word>)
    requires IsBlock(x, 0x80636261, 24) && Steps(0, START, x) == Registers(0x67452301, 0xefcdab89, 0x98badcfe, 0x10325476)
    ensures Steps(2, START, x) == Registers(0x98badcfe, 0x344a8432, 0xd6d117b4, 0xefcdab89)
  {
    hide Steps, Sine, WordIndex, Pow2, Shift;
    Entries0();
    Advance(0, x, 0x67452301, 0xefcdab89, 0x98badcfe, 0x10325476, 0x98badcfe, 0x80636261, 0xd76aa478, 0x80, 0x2000000, 0x2b, 0x1ce06d8);
    Advance(1, x, 0x10325476, 0xd6d117b4, 0xefcdab89, 0x98badcfe, 0xceebcbca, 0, 0xe8c7b756, 0x1000, 0x100000, 0xc7e, 0x5d796);
  }

  lemma Abc2(x: seq<Word>)
    requires IsBlock(x, 0x80636261, 24) && Steps(2, START, x) == Registers(0x98badcfe, 0x344a8432, 0xd6d117b4, 0xefcdab89)
    ensures Steps(4, START, x) == Registers(0xd6d117b4, 0x7ad956f2, 0x2f6fbd72, 0x344a8432)
  {
    hide Steps, Sine, WordIndex, Pow2, Shift;
    Entries0();
    Advance(2, x, 0x98badcfe, 0x344a8432, 0xd6d117b4, 0xefcdab89, 0xdfc52fb9, 0, 0x242070db, 0x20000, 0x8000, 0x13940, 0x7d92);
    Advance(3, x, 0xefcdab89, 0x2f6fbd72, 0x344a8432, 0xd6d117b4, 0xf4da86b6, 0, 0xc1bdceee, 0x400000, 0x400, 0x299980, 0x12d);
  }

  lemma Abc4(x: seq<Word>)
    requires IsBlock(x, 0x80636261, 24) && Steps(4, START, x) == Registers(0xd6d117b4, 0x7ad956f2, 0x2f6fbd72, 0x344a8432)
    ensures Steps(6, START, x) == Registers(0x2f6fbd72, 0x8bac3051, 0xc73741ef, 0x7ad956f2)
  {
    hide Steps, Sine, WordIndex, Pow2, Shift;
    Entries4();
    Advance(4, x, 0xd6d117b4, 0x7ad956f2, 0x2f6fbd72, 0x344a8432, 0x2e4b9472, 0, 0xf57c0faf, 0x80, 0x2000000, 0x7d, 0x98bbd5);
    Advance(5, x, 0x344a8432, 0xc73741ef, 0x7ad956f2, 0x2f6fbd72, 0x6a59fcf2, 0, 0x4787c62a, 0x1000, 0x100000, 0xe62, 0xc474e);
  }

  lemma Abc6(x: seq<Word>)
    requires IsBlock(x, 0x80636261, 24) && Steps(6, START, x) == Registers(0x2f6fbd72, 0x8bac3051, 0xc73741ef, 0x7ad956f2)
    ensures Steps(8, START, x) == Registers(0xc73741ef, 0x928d99f6, 0x207dc67b, 0x8bac3051)
  {
    hide Steps, Sine, WordIndex, Pow2, Shift;
    Entries4();
    Advance(6, x, 0x2f6fbd72, 0x8bac3051, 0xc73741ef, 0x7ad956f2, 0xf37546e3, 0, 0xa8304613, 0x20000, 0x8000, 0x1962a, 0x4a68);
    Advance(7, x, 0x7ad956f2, 0x207dc67b, 0x8bac3051, 0xc73741ef, 0xc72e01d5, 0, 0xfd469501, 0x400000, 0x400, 0xfd37b, 0x1c8);
  }

  lemma Abc8(x: seq<Word>)
    requires IsBlock(x, 0x80636261, 24) && Steps(8, START, x) == Registers(0xc73741ef, 0x928d99f6, 0x207dc67b, 0x8bac3051)
    ensures Steps(10, START, x) == Registers(0x207dc67b, 0x74e2f284, 0x854b3712, 0x928d99f6)
  {
    hide Steps, Sine, WordIndex, Pow2, Shift;
    Entries8();
    Advance(8, x, 0xc73741ef, 0x928d99f6, 0x207dc67b, 0x8bac3051, 0x092da073, 0, 0x698098d8, 0x80, 0x2000000, 0x1c, 0x1e57b3a);
    Advance(9, x, 0x8bac3051, 0x854b3712, 0x928d99f6, 0x207dc67b, 0xa03dd17b, 0, 0x8b44f7af, 0x1000, 0x100000, 0xb72, 0xef97b);
  }

  lemma Abc10(x: seq<Word>)
    requires IsBlock(x, 0x80636261, 24) && Steps(10, START, x) == Registers(0x207dc67b, 0x74e2f284, 0x854b3712, 0x928d99f6)
    ensures Steps(12, START, x) == Registers(0x854b3712, 0x5ed49596, 0x3020401c, 0x74e2f284)
  {
    hide Steps, Sine, WordIndex, Pow2, Shift;
    Entries8();
    Advance(10, x, 0x207dc67b, 0x74e2f284, 0x854b3712, 0x928d99f6, 0x864f3b72, 0, 0xffff5bb1, 0x20000, 0x8000, 0x14d98, 0x5d9e);
    Advance(11, x, 0x928d99f6, 0x3020401c, 0x74e2f284, 0x854b3712, 0xb56b7706, 0, 0x895cd7be, 0x400000, 0x400, 0x34557a, 0xba);
  }

  lemma Abc12(x: seq<Word>)
    requires IsBlock(x, 0x80636261, 24) && Steps(12, START, x) == Registers(0x854b3712, 0x5ed49596, 0x3020401c, 0x74e2f284)
    ensures Steps(14, START, x) == Registers(0x3020401c, 0xa1051895, 0xdda9b9a6, 0x5ed49596)
  {
    hide Steps, Sine, WordIndex, Pow2, Shift;
    Entries12();
    Advance(12, x, 0x854b3712, 0x5ed49596, 0x3020401c, 0x74e2f284, 0x30226214, 0, 0x6b901122, 0x80, 0x2000000, 0x10, 0xfdaa48);
    Advance(13, x, 0x74e2f284, 0xdda9b9a6, 0x5ed49596, 0x3020401c, 0x7c80d19e, 0, 0xfd987193, 0x1000, 0x100000, 0xeef, 0xc35b5);
  }

  lemma Abc14(x: seq<Word>)
    requires IsBlock(x, 0x80636261, 24) && Steps(14, START, x) == Registers(0x3020401c, 0xa1051895, 0xdda9b9a6, 0x5ed49596)
    ensures Steps(16, START, x) == Registers(0xdda9b9a6, 0x72aff2e0, 0xe396856b, 0xa1051895)
  {
    hide Steps, Sine, WordIndex, Pow2, Shift;
    Entries12();
    Advance(14, x, 0x3020401c, 0xa1051895, 0xdda9b9a6, 0x5ed49596, 0xdfd19d86, 0x00000018, 0xa679438e, 0x20000, 0x8000, 0x16cd6, 0x2148);
    Advance(15, x, 0x5ed49596, 0xe396856b, 0xa1051895, 0xdda9b9a6, 0xbd2d3885, 0, 0x49b40821, 0x400000, 0x400, 0x196d75, 0x23c);
  }

  lemma Abc16(x: seq<Word>)
    requires IsBlock(x, 0x80636261, 24) && Steps(16, START, x) == Registers(0xdda9b9a6, 0x72aff2e0, 0xe396856b, 0xa1051895)
    ensures Steps(18, START, x) == Registers(0xe396856b, 0x4a1d804e, 0x3e9e9126, 0x72aff2e0)
  {
    hide Steps, Sine, WordIndex, Pow2, Shift;
    Entries16();
    Advance(16, x, 0xdda9b9a6, 0x72aff2e0, 0xe396856b, 0xa1051895, 0x629795ea, 0, 0xf61e2562, 0x20, 0x8000000, 0x6, 0x65f74f2);
    Advance(17, x, 0xa1051895, 0x3e9e9126, 0x72aff2e0, 0xe396856b, 0x32bff3a2, 0, 0xc040b340, 0x200, 0x800000, 0x128, 0x5bf77);
  }

  lemma Abc18(x: seq<Word>)
    requires IsBlock(x, 0x80636261, 24) && Steps(18, START, x) == Registers(0xe396856b, 0x4a1d804e, 0x3e9e9126, 0x72aff2e0)
    ensures Steps(20, START, x) == Registers(0x3e9e9126, 0xb5b204e4, 0xe25e1652, 0x4a1d804e)
  {
    hide Steps, Sine, WordIndex, Pow2, Shift;
    Entries16();
    Advance(18, x, 0xe396856b, 0x4a1d804e, 0x3e9e9126, 0x72aff2e0, 0x4e1d8146, 0, 0x265e5a51, 0x4000, 0x40000, 0x1604, 0x26102);
    Advance(19, x, 0x72aff2e0, 0xe25e1652, 0x4a1d804e, 0x3e9e9126, 0x621f104a, 0x80636261, 0xe9b6c7aa, 0x100000, 0x1000, 0x3ee92, 0xd35);
  }

  lemma Abc20(x: seq<Word>)
    requires IsBlock(x, 0x80636261, 24) && Steps(20, START, x) == Registers(0x3e9e9126, 0xb5b204e4, 0xe25e1652, 0x4a1d804e)
    ensures Steps(22, START, x) == Registers(0xe25e1652, 0x6d002f1e, 0x59a8ffda, 0xb5b204e4)
  {
    hide Steps, Sine, WordIndex, Pow2, Shift;
    Entries20();
    Advance(20, x, 0x3e9e9126, 0xb5b204e4, 0xe25e1652, 0x4a1d804e, 0xa0521654, 0, 0xd62f105d, 0x20, 0x8000000, 0x16, 0x51fb7d7);
    Advance(21, x, 0x4a1d804e, 0x59a8ffda, 0xb5b204e4, 0xe25e1652, 0x55a816f6, 0, 0x02441453, 0x200, 0x800000, 0x144, 0x9ab97);
  }

  lemma Abc22(x: seq<Word>)
    requires IsBlock(x, 0x80636261, 24) && Steps(22, START, x) == Registers(0xe25e1652, 0x6d002f1e, 0x59a8ffda, 0xb5b204e4)
    ensures Steps(24, START, x) == Registers(0x59a8ffda, 0x47092c07, 0xabfc7920, 0x6d002f1e)
  {
    hide Steps, Sine, WordIndex, Pow2, Shift;
    Entries20();
    Advance(22, x, 0xe25e1652, 0x6d002f1e, 0x59a8ffda, 0xb5b204e4, 0x6d08ff1e, 0, 0xd8a1e681, 0x4000, 0x40000, 0xa02, 0xfbf1);
    Advance(23, x, 0xb5b204e4, 0xabfc7920, 0x6d002f1e, 0x59a8ffda, 0x2da87904, 0, 0xe7d3fbc8, 0x100000, 0x1000, 0xcb2e7, 0x9b0);
  }

  lemma Abc24(x: seq<Word>)
    requires IsBlock(x, 0x80636261, 24) && Steps(24, START, x) == Registers(0x59a8ffda, 0x47092c07, 0xabfc7920, 0x6d002f1e)
    ensures Steps(26, START, x) == Registers(0xabfc7920, 0x09388eff, 0xb7f268cf, 0x47092c07)
  {
    hide Steps, Sine, WordIndex, Pow2, Shift;
    Entries24();
    Advance(24, x, 0x59a8ffda, 0x47092c07, 0xabfc7920, 0x6d002f1e, 0xc7fc7c26, 0, 0x21e1cde6, 0x20, 0x8000000, 0x8, 0x38749e6);
    Advance(25, x, 0x6d002f1e, 0xb7f268cf, 0x47092c07, 0xabfc7920, 0xe7f16c07, 0x00000018, 0xc33707d6, 0x200, 0x800000, 0x30, 0x28a313);
  }

  lemma Abc26(x: seq<Word>)
    requires IsBlock(x, 0x80636261, 24) && Steps(26, START, x) == Registers(0xabfc7920, 0x09388eff, 0xb7f268cf, 0x47092c07)
    ensures Steps(28, START, x) == Registers(0xb7f268cf, 0x786acb8f, 0xfe1623b1, 0x09388eff)
  {
    hide Steps, Sine, WordIndex, Pow2, Shift;
    Entries24();
    Advance(26, x, 0xabfc7920, 0x09388eff, 0xb7f268cf, 0x47092c07, 0xb1fa4ccf, 0, 0xf4d50d87, 0x4000, 0x40000, 0x14b2, 0x3d376);
    Advance(27, x, 0x47092c07, 0xfe1623b1, 0x09388eff, 0xb7f268cf, 0xbe1aa6b1, 0, 0x455a14ed, 0x100000, 0x1000, 0x4a7de, 0x7a5);
  }

  lemma Abc28(x: seq<Word>)
    requires IsBlock(x, 0x80636261, 24) && Steps(28, START, x) == Registers(0xb7f268cf, 0x786acb8f, 0xfe1623b1, 0x09388eff)
    ensures Steps(30, START, x) == Registers(0xfe1623b1, 0x9f47e4f8, 0x790a77fb, 0x786acb8f)
  {
    hide Steps, Sine, WordIndex, Pow2, Shift;
    Entries28();
    Advance(28, x, 0xb7f268cf, 0x786acb8f, 0xfe1623b1, 0x09388eff, 0xfe2eab8f, 0, 0xa9e3e905, 0x20, 0x8000000, 0xc, 0x4fd63);
    Advance(29, x, 0x09388eff, 0x790a77fb, 0x786acb8f, 0xfe1623b1, 0x786aebbf, 0, 0xfcefa3f8, 0x200, 0x800000, 0xfd, 0x131eb6);
  }

  lemma Abc30(x: seq<Word>)
    requires IsBlock(x, 0x80636261, 24) && Steps(30, START, x) == Registers(0xfe1623b1, 0x9f47e4f8, 0x790a77fb, 0x786acb8f)
    ensures Steps(32, START, x) == Registers(0x790a77fb, 0x726342d3, 0xa62884aa, 0x9f47e4f8)
  {
    hide Steps, Sine, WordIndex, Pow2, Shift;
    Entries28();
    Advance(30, x, 0xfe1623b1, 0x9f47e4f8, 0x790a77fb, 0x786acb8f, 0x1942f4f8, 0, 0x676f02d9, 0x4000, 0x40000, 0x1fb2, 0x1b82);
    Advance(31, x, 0x786acb8f, 0xa62884aa, 0x9f47e4f8, 0x790a77fb, 0xa64d84aa, 0, 0x8d2a4c8a, 0x100000, 0x1000, 0xabe29, 0xcc3);
  }

  lemma Abc32(x: seq<Word>)
    requires IsBlock(x, 0x80636261, 24) && Steps(32, START, x) == Registers(0x790a77fb, 0x726342d3, 0xa62884aa, 0x9f47e4f8)
    ensures Steps(34, START, x) == Registers(0xa62884aa, 0x60127b2e, 0xb3707ebf, 0x726342d3)
  {
    hide Steps, Sine, WordIndex, Pow2, Shift;
    Entries32();
    Advance(32, x, 0x790a77fb, 0x726342d3, 0xa62884aa, 0x9f47e4f8, 0x4b0c2281, 0, 0xfffa3942, 0x10, 0x10000000, 0xc, 0x410d3be);
    Advance(33, x, 0x9f47e4f8, 0xb3707ebf, 0x726342d3, 0xa62884aa, 0x673bb8c6, 0, 0x8771f681, 0x800, 0x200000, 0x46f, 0x15943f);
  }

  lemma Abc34(x: seq<Word>)
    requires IsBlock(x, 0x80636261, 24) && Steps(34, START, x) == Registers(0xa62884aa, 0x60127b2e, 0xb3707ebf, 0x726342d3)
    ensures Steps(36, START, x) == Registers(0xb3707ebf, 0x3b0875c7, 0x8d212ff5, 0x60127b2e)
  {
    hide Steps, Sine, WordIndex, Pow2, Shift;
    Entries32();
    Advance(34, x, 0xa62884aa, 0x60127b2e, 0xb3707ebf, 0x726342d3, 0xa1014742, 0, 0x6d9d6122, 0x10000, 0x10000, 0xb4c7, 0x2d0e);
    Advance(35, x, 0x726342d3, 0x8d212ff5, 0x60127b2e, 0xb3707ebf, 0x5e432a64, 0x00000018, 0xfde5380c, 0x800000, 0x200, 0x6745d2, 0x15b);
  }

  lemma Abc36(x: seq<Word>)
    requires IsBlock(x, 0x80636261, 24) && Steps(36, START, x) == Registers(0xb3707ebf, 0x3b0875c7, 0x8d212ff5, 0x60127b2e)
    ensures Steps(38, START, x) == Registers(0x8d212ff5, 0x6e7429d5, 0x21b117b9, 0x3b0875c7)
  {
    hide Steps, Sine, WordIndex, Pow2, Shift;
    Entries36();
    Advance(36, x, 0xb3707ebf, 0x3b0875c7, 0x8d212ff5, 0x60127b2e, 0xd63b211c, 0, 0xa4beea44, 0x10, 0x10000000, 0x2, 0xe6a8a1f);
    Advance(37, x, 0x60127b2e, 0x21b117b9, 0x3b0875c7, 0x8d212ff5, 0x97984d8b, 0, 0x4bdecfa9, 0x800, 0x200000, 0x21c, 0x99862);
  }

  lemma Abc38(x: seq<Word>)
    requires IsBlock(x, 0x80636261, 24) && Steps(38, START, x) == Registers(0x8d212ff5, 0x6e7429d5, 0x21b117b9, 0x3b0875c7)
    ensures Steps(40, START, x) == Registers(0x21b117b9, 0x5a2f5ea5, 0x3575227e, 0x6e7429d5)
  {
    hide Steps, Sine, WordIndex, Pow2, Shift;
    Entries36();
    Advance(38, x, 0x8d212ff5, 0x6e7429d5, 0x21b117b9, 0x3b0875c7, 0x74cd4bab, 0, 0xf6bb4b60, 0x10000, 0x10000, 0xf8a9, 0xc700);
    Advance(39, x, 0x3b0875c7, 0x3575227e, 0x6e7429d5, 0x21b117b9, 0x7ab01c12, 0, 0xbebfbc70, 0x800000, 0x200, 0x3a3c27, 0x49);
  }

  lemma Abc40(x: seq<Word>)
    requires IsBlock(x, 0x80636261, 24) && Steps(40, START, x) == Registers(0x21b117b9, 0x5a2f5ea5, 0x3575227e, 0x6e7429d5)
    ensures Steps(42, START, x) == Registers(0x3575227e, 0xfadcaa38, 0x11de1779, 0x5a2f5ea5)
  {
    hide Steps, Sine, WordIndex, Pow2, Shift;
    Entries40();
    Advance(40, x, 0x21b117b9, 0x5a2f5ea5, 0x3575227e, 0x6e7429d5, 0x012e550e, 0, 0x289b7ec6, 0x10, 0x10000000, 0x4, 0xb7aeb8d);
    Advance(41, x, 0x6e7429d5, 0x11de1779, 0x5a2f5ea5, 0x3575227e, 0x7e846ba2, 0x80636261, 0xeaa127fa, 0x800, 0x200000, 0x2bf, 0x1d1fd2);
  }

  lemma Abc42(x: seq<Word>)
    requires IsBlock(x, 0x80636261, 24) && Steps(42, START, x) == Registers(0x3575227e, 0xfadcaa38, 0x11de1779, 0x5a2f5ea5)
    ensures Steps(44, START, x) == Registers(0x11de1779, 0x4c6124f4, 0x31c465ca, 0xfadcaa38)
  {
    hide Steps, Sine, WordIndex, Pow2, Shift;
    Entries40();
    Advance(42, x, 0x3575227e, 0xfadcaa38, 0x11de1779, 0x5a2f5ea5, 0xb12de3e4, 0, 0xd4ef3085, 0x10000, 0x10000, 0xbb92, 0x36e7);
    Advance(43, x, 0x5a2f5ea5, 0x31c465ca, 0xfadcaa38, 0x11de1779, 0xdac6d88b, 0, 0x04881d05, 0x800000, 0x200, 0x1cbf2a, 0x35);
  }

  lemma Abc44(x: seq<Word>)
    requires IsBlock(x, 0x80636261, 24) && Steps(44, START, x) == Registers(0x11de1779, 0x4c6124f4, 0x31c465ca, 0xfadcaa38)
    ensures Steps(46, START, x) == Registers(0x31c465ca, 0x99d9679d, 0x7f2e507b, 0x4c6124f4)
  {
    hide Steps, Sine, WordIndex, Pow2, Shift;
    Entries44();
    Advance(44, x, 0x11de1779, 0x4c6124f4, 0x31c465ca, 0xfadcaa38, 0x8779eb06, 0, 0xd9d4d039, 0x10, 0x10000000, 0x7, 0x32cd2b8);
    Advance(45, x, 0xfadcaa38, 0x7f2e507b, 0x4c6124f4, 0x31c465ca, 0x028b1145, 0, 0xe6db99e5, 0x800, 0x200000, 0x722, 0x35562);
  }

  lemma Abc46(x: seq<Word>)
    requires IsBlock(x, 0x80636261, 24) && Steps(46, START, x) == Registers(0x31c465ca, 0x99d9679d, 0x7f2e507b, 0x4c6124f4)
    ensures Steps(48, START, x) == Registers(0x7f2e507b, 0x7beb9700, 0x8fae6399, 0x99d9679d)
  {
    hide Steps, Sine, WordIndex, Pow2, Shift;
    Entries44();
    Advance(46, x, 0x31c465ca, 0x99d9679d, 0x7f2e507b, 0x4c6124f4, 0xaa961312, 0, 0x1fa27cf8, 0x10000, 0x10000, 0xfbfc, 0xf5d4);
    Advance(47, x, 0x4c6124f4, 0x8fae6399, 0x99d9679d, 0x7f2e507b, 0x6959547f, 0, 0xc4ac5665, 0x800000, 0x200, 0x3d3367, 0x1d8);
  }

  lemma Abc48(x: seq<Word>)
    requires IsBlock(x, 0x80636261, 24) && Steps(48, START, x) == Registers(0x7f2e507b, 0x7beb9700, 0x8fae6399, 0x99d9679d)
    ensures Steps(50, START, x) == Registers(0x8fae6399, 0xf4e8e96e, 0x7b201df8, 0x7beb9700)
  {
    hide Steps, Sine, WordIndex, Pow2, Shift;
    Entries48();
    Advance(48, x, 0x7f2e507b, 0x7beb9700, 0x8fae6399, 0x99d9679d, 0xf041fcfb, 0x80636261, 0xf4292244, 0x40, 0x4000000, 0x38, 0x3fcd21b);
    Advance(49, x, 0x99d9679d, 0x7b201df8, 0x7beb9700, 0x8fae6399, 0x009a0afe, 0, 0x432aff97, 0x400, 0x400000, 0x376, 0x1e7232);
  }

  lemma Abc50(x: seq<Word>)
    requires IsBlock(x, 0x80636261, 24) && Steps(50, START, x) == Registers(0x8fae6399, 0xf4e8e96e, 0x7b201df8, 0x7beb9700)
    ensures Steps(52, START, x) == Registers(0x7b201df8, 0x8bf025c4, 0xb298cefd, 0xf4e8e96e)
  {
    hide Steps, Sine, WordIndex, Pow2, Shift;
    Entries48();
    Advance(50, x, 0x8fae6399, 0xf4e8e96e, 0x7b201df8, 0x7beb9700, 0x8fdcf407, 0x00000018, 0xab9423a7, 0x8000, 0x20000, 0x658f, 0x17b5f);
    Advance(51, x, 0x7beb9700, 0xb298cefd, 0xf4e8e96e, 0x7b201df8, 0x42370791, 0, 0xfc93a039, 0x200000, 0x800, 0x1756c7, 0x6ca);
  }

  lemma Abc52(x: seq<Word>)
    requires IsBlock(x, 0x80636261, 24) && Steps(52, START, x) == Registers(0x7b201df8, 0x8bf025c4, 0xb298cefd, 0xf4e8e96e)
    ensures Steps(54, START, x) == Registers(0xb298cefd, 0x5b0d97aa, 0x06cc5e8a, 0x8bf025c4)
  {
    hide Steps, Sine, WordIndex, Pow2, Shift;
    Entries52();
    Advance(52, x, 0x7b201df8, 0x8bf025c4, 0xb298cefd, 0xf4e8e96e, 0x396ff928, 0, 0x655b59c3, 0x40, 0x4000000, 0x6, 0x1eb70e3);
    Advance(53, x, 0xf4e8e96e, 0x06cc5e8a, 0x8bf025c4, 0xb298cefd, 0xc41f5a4e, 0, 0x8f0ccc92, 0x400, 0x400000, 0x120, 0x15104e);
  }

  lemma Abc54(x: seq<Word>)
    requires IsBlock(x, 0x80636261, 24) && Steps(54, START, x) == Registers(0xb298cefd, 0x5b0d97aa, 0x06cc5e8a, 0x8bf025c4)
    ensures Steps(56, START, x) == Registers(0x06cc5e8a, 0x3bfa2c27, 0x7d632dd0, 0x5b0d97aa)
  {
    hide Steps, Sine, WordIndex, Pow2, Shift;
    Entries52();
    Advance(54, x, 0xb298cefd, 0x5b0d97aa, 0x06cc5e8a, 0x8bf025c4, 0x79c38131, 0, 0xffeff47d, 0x8000, 0x20000, 0x1626, 0x44ab);
    Advance(55, x, 0x8bf025c4, 0x7d632dd0, 0x5b0d97aa, 0x06cc5e8a, 0xa67e3a5f, 0, 0x85845dd1, 0x200000, 0x800, 0x16fe57, 0x5f4);
  }

  lemma Abc56(x: seq<Word>)
    requires IsBlock(x, 0x80636261, 24) && Steps(56, START, x) == Registers(0x06cc5e8a, 0x3bfa2c27, 0x7d632dd0, 0x5b0d97aa)
    ensures Steps(58, START, x) == Registers(0x7d632dd0, 0x094454ab, 0x7f81cc35, 0x3bfa2c27)
  {
    hide Steps, Sine, WordIndex, Pow2, Shift;
    Entries56();
    Advance(56, x, 0x06cc5e8a, 0x3bfa2c27, 0x7d632dd0, 0x5b0d97aa, 0xc29941a7, 0, 0x6fa87e4f, 0x40, 0x4000000, 0xe, 0x10e1e80);
    Advance(57, x, 0x5b0d97aa, 0x7f81cc35, 0x3bfa2c27, 0x7d632dd0, 0xc467f218, 0, 0xfe2ce6e0, 0x400, 0x400000, 0x76, 0x2270a2);
  }

  lemma Abc58(x: seq<Word>)
    requires IsBlock(x, 0x80636261, 24) && Steps(58, START, x) == Registers(0x7d632dd0, 0x094454ab, 0x7f81cc35, 0x3bfa2c27)
    ensures Steps(60, START, x) == Registers(0x7f81cc35, 0x7327d604, 0x4f9dbe3f, 0x094454ab)
  {
    hide Steps, Sine, WordIndex, Pow2, Shift;
    Entries56();
    Advance(58, x, 0x7d632dd0, 0x094454ab, 0x7f81cc35, 0x3bfa2c27, 0xb2c41bce, 0, 0xa3014314, 0x8000, 0x20000, 0x6994, 0x8cb2);
    Advance(59, x, 0x3bfa2c27, 0x4f9dbe3f, 0x094454ab, 0x7f81cc35, 0xc6bbeb54, 0, 0x4e0811a1, 0x200000, 0x800, 0xa17c5, 0x11c);
  }

  lemma Abc60(x: seq<Word>)
    requires IsBlock(x, 0x80636261, 24) && Steps(60, START, x) == Registers(0x7f81cc35, 0x7327d604, 0x4f9dbe3f, 0x094454ab)
    ensures Steps(62, START, x) == Registers(0x4f9dbe3f, 0x624d8cb2, 0x310ade8f, 0x7327d604)
  {
    hide Steps, Sine, WordIndex, Pow2, Shift;
    Entries60();
    Advance(60, x, 0x7f81cc35, 0x7327d604, 0x4f9dbe3f, 0x094454ab, 0xb822416b, 0, 0xf7537e82, 0x40, 0x4000000, 0xb, 0x2f78c22);
    Advance(61, x, 0x094454ab, 0x310ade8f, 0x7327d604, 0x4f9dbe3f, 0xc24d09cb, 0, 0xbd3af235, 0x400, 0x400000, 0x223, 0xc50ab);
  }

  lemma Abc62(x: seq<Word>)
    requires IsBlock(x, 0x80636261, 24) && Steps(62, START, x) == Registers(0x4f9dbe3f, 0x624d8cb2, 0x310ade8f, 0x7327d604)
    ensures Steps(64, START, x) == Registers(0x310ade8f, 0xc08226b3, 0xe484b9d8, 0x624d8cb2)
  {
    hide Steps, Sine, WordIndex, Pow2, Shift;
    Entries60();
    Advance(62, x, 0x4f9dbe3f, 0x624d8cb2, 0x310ade8f, 0x7327d604, 0xdfd77374, 0, 0x2ad7d2bb, 0x8000, 0x20000, 0x2d26, 0x1046e);
    Advance(63, x, 0x7327d604, 0xe484b9d8, 0x624d8cb2, 0x310ade8f, 0x8cb8354a, 0, 0xeb86d391, 0x200000, 0x800, 0x1d6cdb, 0x6df);
  }

  lemma AbcSteps(x: seq<Word>)
    requires IsBlock(x, 0x80636261, 24)
    ensures Steps(64, START, x) == Registers(0x310ade8f, 0xc08226b3, 0xe484b9d8, 0x624d8cb2)
  {
    hide Steps, IsBlock;
    BlockSize(x, 0x80636261, 24);
    NoSteps(START, x);
    Abc0(x);
    Abc2(x);
    Abc4(x);
    Abc6(x);
    Abc8(x);
    Abc10(x);
    Abc12(x);
    Abc14(x);
    Abc16(x);
    Abc18(x);
    Abc20(x);
    Abc22(x);
    Abc24(x);
    Abc26(x);
    Abc28(x);
    Abc30(x);
    Abc32(x);
    Abc34(x);
    Abc36(x);
    Abc38(x);
    Abc40(x);
    Abc42(x);
    Abc44(x);
    Abc46(x);
    Abc48(x);
    Abc50(x);
    Abc52(x);
    Abc54(x);
    Abc56(x);
    Abc58(x);
    Abc60(x);
    Abc62(x);
  }

  // ---------- the digests ----------

  // A message of at most three bytes is padded to one block.
  lemma ShortPadded(m: seq<Byte>)
    requires |m| <= 3
    ensures |Padded(m)| == 64
    ensures forall k :: 0 <= k < 64 ==>
              Padded(m)[k] == if k < |m| then m[k] else if k == |m| then 0x80 else if k == 56 then 8 * |m| else 0
  {
    hide BytesOf;
    var bits := BytesOf(BitCount(|m|));
    LengthBytes(|m|);
    PadBytes(|m|);
    var p := Padded(m);
    assert p == m + Pad(|m|) + bits;
  }

  lemma LengthBytes(n: nat)
    requires n <= 3
    ensures var bits := BytesOf(BitCount(n)); |bits| == 8 && forall k :: 0 <= k < 8 ==> bits[k] == if k == 0 then 8 * n else 0
  {
    var c := BitCount(n);
    assert c == [8 * n, 0];
    var bits := BytesOf(c);
    forall k | 0 <= k < 8 ensures bits[k] == if k == 0 then 8 * n else 0 { assert bits[k] == ByteOf(c[k / 4], k % 4); }
  }

  lemma ShortBlock(m: seq<Byte>, first: Word)
    requires |m| <= 3 && forall k :: 0 <= k < |m| ==> m[k] == ByteOf(first, k)
    requires forall k :: |m| <= k < 4 ==> ByteOf(first, k) == if k == |m| then 0x80 else 0
    ensures |Padded(m)| == 64 && IsBlock(WordsOf(Padded(m)), first, 8 * |m|)
  {
    hide Padded, ByteOf;
    ShortPadded(m);
    var p := Padded(m);
    var x := WordsOf(p);
    forall i | 0 <= i < 16 ensures x[i] == WordOf([p[4 * i], p[4 * i + 1], p[4 * i + 2], p[4 * i + 3]]) {
      assert p[4 * i..4 * i + 4] == [p[4 * i], p[4 * i + 1], p[4 * i + 2], p[4 * i + 3]];
    }
    WordRoundTrip(first);
  }

  // The state after one block
  lemma ShortState(m: seq<Byte>, first: Word, r: Registers)
    requires |m| <= 3 && |Padded(m)| == 64 && IsBlock(WordsOf(Padded(m)), first, 8 * |m|)
    requires Steps(64, START, WordsOf(Padded(m))) == r
    ensures Fold(Padded(m)) == [Plus(0x67452301, r.a), Plus(0xefcdab89, r.b), Plus(0x98badcfe, r.c), Plus(0x10325476, r.d)]
  {
    hide Steps, Padded, WordsOf, Plus, IsBlock, Fold;
    var p := Padded(m);
    NoBlocks();
    FoldMore([], p);
    assert [] + p == p;
    CompressIs(INITIAL, p);
  }

  lemma NoBlocks()
    ensures Fold([]) == INITIAL
  {
  }

  // MD5 ("") = d41d8cd98f00b204e9800998ecf8427e
  lemma DigestOfEmpty()
    ensures Digest([]) == [0xd4, 0x1d, 0x8c, 0xd9, 0x8f, 0x00, 0xb2, 0x04, 0xe9, 0x80, 0x09, 0x98, 0xec, 0xf8, 0x42, 0x7e]
  {
    hide Steps, Padded, WordsOf, IsBlock, Fold, BytesOf, ByteOf, Plus;
    EmptyMessage();
    EmptySteps(WordsOf(Padded([])));
    ShortState([], 0x00000080, Registers(0x7246fad3, 0x14e45506, 0xff4ea3eb, 0x6e10a476));
    EmptySums();
    WordBytes(0xd98c1dd4, 0xd4, 0x1d, 0x8c, 0xd9);
    WordBytes(0x04b2008f, 0x8f, 0x00, 0xb2, 0x04);
    WordBytes(0x980980e9, 0xe9, 0x80, 0x09, 0x98);
    WordBytes(0x7e42f8ec, 0xec, 0xf8, 0x42, 0x7e);
    FourWords([0xd98c1dd4, 0x04b2008f, 0x980980e9, 0x7e42f8ec]);
  }

  lemma EmptySums()
    ensures var r := Registers(0x7246fad3, 0x14e45506, 0xff4ea3eb, 0x6e10a476);
            [Plus(0x67452301, r.a), Plus(0xefcdab89, r.b), Plus(0x98badcfe, r.c), Plus(0x10325476, r.d)] ==
            [0xd98c1dd4, 0x04b2008f, 0x980980e9, 0x7e42f8ec]
  {
  }

  lemma EmptyMessage()
    ensures |Padded([])| == 64 && IsBlock(WordsOf(Padded([])), 0x00000080, 0)
  {
    ShortBlock([], 0x80);
  }

  // MD5 ("abc") = 900150983cd24fb0d6963f7d28e17f72
  lemma DigestOfAbc()
    ensures Digest([0x61, 0x62, 0x63]) ==
            [0x90, 0x01, 0x50, 0x98, 0x3c, 0xd2, 0x4f, 0xb0, 0xd6, 0x96, 0x3f, 0x7d, 0x28, 0xe1, 0x7f, 0x72]
  {
    hide Steps, Padded, WordsOf, IsBlock, Fold, BytesOf, ByteOf, Plus;
    AbcMessage();
    AbcSteps(WordsOf(Padded([0x61, 0x62, 0x63])));
    ShortState([0x61, 0x62, 0x63], 0x80636261, Registers(0x310ade8f, 0xc08226b3, 0xe484b9d8, 0x624d8cb2));
    AbcSums();
    WordBytes(0x98500190, 0x90, 0x01, 0x50, 0x98);
    WordBytes(0xb04fd23c, 0x3c, 0xd2, 0x4f, 0xb0);
    WordBytes(0x7d3f96d6, 0xd6, 0x96, 0x3f, 0x7d);
    WordBytes(0x727fe128, 0x28, 0xe1, 0x7f, 0x72);
    FourWords([0x98500190, 0xb04fd23c, 0x7d3f96d6, 0x727fe128]);
  }

  lemma AbcSums()
    ensures var r := Registers(0x310ade8f, 0xc08226b3, 0xe484b9d8, 0x624d8cb2);
            [Plus(0x67452301, r.a), Plus(0xefcdab89, r.b), Plus(0x98badcfe, r.c), Plus(0x10325476, r.d)] ==
            [0x98500190, 0xb04fd23c, 0x7d3f96d6, 0x727fe128]
  {
  }

  lemma AbcMessage()
    ensures |Padded([0x61, 0x62, 0x63])| == 64 && IsBlock(WordsOf(Padded([0x61, 0x62, 0x63])), 0x80636261, 24)
  {
    hide Padded, WordsOf, IsBlock;
    ShortBlock([0x61, 0x62, 0x63], 0x80636261);
  }

  lemma FourWords(w: seq<Word>)
    requires |w| == 4
    ensures BytesOf(w) == [ByteOf(w[0], 0), ByteOf(w[0], 1), ByteOf(w[0], 2), ByteOf(w[0], 3),
                           ByteOf(w[1], 0), ByteOf(w[1], 1), ByteOf(w[1], 2), ByteOf(w[1], 3),
                           ByteOf(w[2], 0), ByteOf(w[2], 1), ByteOf(w[2], 2), ByteOf(w[2], 3),
                           ByteOf(w[3], 0), ByteOf(w[3], 1), ByteOf(w[3], 2), ByteOf(w[3], 3)]
  {
    hide ByteOf;
  }

  lemma WordBytes(w: Word, a: Byte, b: Byte, c: Byte, d: Byte)
    requires w == a + 0x100 * b + 0x1_0000 * c + 0x100_0000 * d
    ensures ByteOf(w, 0) == a && ByteOf(w, 1) == b && ByteOf(w, 2) == c && ByteOf(w, 3) == d
  {
    assert w / 0x100 == b + 0x100 * c + 0x1_0000 * d && w / 0x1_0000 == c + 0x100 * d;
  }
}
