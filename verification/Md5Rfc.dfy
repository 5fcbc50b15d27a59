/** Two of the digests that appendix A.5 of RFC 1321 lists, worked out call by call. */
module Md5Rfc {
  import opened Bytes
  import opened BitWords
  import opened Md5Compress
  import opened Md5

  /** The words of a padded message of at most 3 bytes. */
  predicate ShortWords(w: seq<bv32>, first: bv32, bits: bv32) {
    && |w| == 16 && w[0] == first && w[14] == bits
    && w[1] == w[2] == w[3] == w[4] == w[5] == w[6] == w[7] == w[8] == w[9] == w[10] == w[11] == w[12] == w[13] == 0
    && w[15] == 0
  }

  // --- The calls, round by round ---

  lemma Calls1()
    ensures Written(0) == MacroCall(0, 7, 0xd76aa478) && Written(1) == MacroCall(1, 12, 0xe8c7b756)
    ensures Written(2) == MacroCall(2, 17, 0x242070db) && Written(3) == MacroCall(3, 22, 0xc1bdceee)
    ensures Written(4) == MacroCall(4, 7, 0xf57c0faf) && Written(5) == MacroCall(5, 12, 0x4787c62a)
    ensures Written(6) == MacroCall(6, 17, 0xa8304613) && Written(7) == MacroCall(7, 22, 0xfd469501)
    ensures Written(8) == MacroCall(8, 7, 0x698098d8) && Written(9) == MacroCall(9, 12, 0x8b44f7af)
    ensures Written(10) == MacroCall(10, 17, 0xffff5bb1) && Written(11) == MacroCall(11, 22, 0x895cd7be)
    ensures Written(12) == MacroCall(12, 7, 0x6b901122) && Written(13) == MacroCall(13, 12, 0xfd987193)
    ensures Written(14) == MacroCall(14, 17, 0xa679438e) && Written(15) == MacroCall(15, 22, 0x49b40821)
  {
  }

  lemma Calls2()
    ensures Written(16) == MacroCall(1, 5, 0xf61e2562) && Written(17) == MacroCall(6, 9, 0xc040b340)
    ensures Written(18) == MacroCall(11, 14, 0x265e5a51) && Written(19) == MacroCall(0, 20, 0xe9b6c7aa)
    ensures Written(20) == MacroCall(5, 5, 0xd62f105d) && Written(21) == MacroCall(10, 9, 0x02441453)
    ensures Written(22) == MacroCall(15, 14, 0xd8a1e681) && Written(23) == MacroCall(4, 20, 0xe7d3fbc8)
    ensures Written(24) == MacroCall(9, 5, 0x21e1cde6) && Written(25) == MacroCall(14, 9, 0xc33707d6)
    ensures Written(26) == MacroCall(3, 14, 0xf4d50d87) && Written(27) == MacroCall(8, 20, 0x455a14ed)
    ensures Written(28) == MacroCall(13, 5, 0xa9e3e905) && Written(29) == MacroCall(2, 9, 0xfcefa3f8)
    ensures Written(30) == MacroCall(7, 14, 0x676f02d9) && Written(31) == MacroCall(12, 20, 0x8d2a4c8a)
  {
  }

  lemma Calls3()
    ensures Written(32) == MacroCall(5, 4, 0xfffa3942) && Written(33) == MacroCall(8, 11, 0x8771f681)
    ensures Written(34) == MacroCall(11, 16, 0x6d9d6122) && Written(35) == MacroCall(14, 23, 0xfde5380c)
    ensures Written(36) == MacroCall(1, 4, 0xa4beea44) && Written(37) == MacroCall(4, 11, 0x4bdecfa9)
    ensures Written(38) == MacroCall(7, 16, 0xf6bb4b60) && Written(39) == MacroCall(10, 23, 0xbebfbc70)
    ensures Written(40) == MacroCall(13, 4, 0x289b7ec6) && Written(41) == MacroCall(0, 11, 0xeaa127fa)
    ensures Written(42) == MacroCall(3, 16, 0xd4ef3085) && Written(43) == MacroCall(6, 23, 0x04881d05)
    ensures Written(44) == MacroCall(9, 4, 0xd9d4d039) && Written(45) == MacroCall(12, 11, 0xe6db99e5)
    ensures Written(46) == MacroCall(15, 16, 0x1fa27cf8) && Written(47) == MacroCall(2, 23, 0xc4ac5665)
  {
  }

  lemma Calls4()
    ensures Written(48) == MacroCall(0, 6, 0xf4292244) && Written(49) == MacroCall(7, 10, 0x432aff97)
    ensures Written(50) == MacroCall(14, 15, 0xab9423a7) && Written(51) == MacroCall(5, 21, 0xfc93a039)
    ensures Written(52) == MacroCall(12, 6, 0x655b59c3) && Written(53) == MacroCall(3, 10, 0x8f0ccc92)
    ensures Written(54) == MacroCall(10, 15, 0xffeff47d) && Written(55) == MacroCall(1, 21, 0x85845dd1)
    ensures Written(56) == MacroCall(8, 6, 0x6fa87e4f) && Written(57) == MacroCall(15, 10, 0xfe2ce6e0)
    ensures Written(58) == MacroCall(6, 15, 0xa3014314) && Written(59) == MacroCall(13, 21, 0x4e0811a1)
    ensures Written(60) == MacroCall(4, 6, 0xf7537e82) && Written(61) == MacroCall(11, 10, 0xbd3af235)
    ensures Written(62) == MacroCall(2, 15, 0x2ad7d2bb) && Written(63) == MacroCall(9, 21, 0xeb86d391)
  {
  }

  // --- The registers for the empty message, after every four calls ---

  lemma EmptyRound1(w: seq<bv32>)
    requires ShortWords(w, 0x00000080, 0x00000000)
    ensures FourCalls(w, Digest(0x67452301, 0xefcdab89, 0x98badcfe, 0x10325476), 0)
         == Digest(0xa5202774, 0x1b163203, 0xe7f06b23, 0xf59592dd)
    ensures FourCalls(w, Digest(0xa5202774, 0x1b163203, 0xe7f06b23, 0xf59592dd), 4)
         == Digest(0x32033344, 0x9bc13ce9, 0xf5b158db, 0x2f35d494)
    ensures FourCalls(w, Digest(0x32033344, 0x9bc13ce9, 0xf5b158db, 0x2f35d494), 8)
         == Digest(0x3893b991, 0x70768a29, 0xe1ef0576, 0xfce4a312)
    ensures FourCalls(w, Digest(0x3893b991, 0x70768a29, 0xe1ef0576, 0xfce4a312), 12)
         == Digest(0xf56c7cf1, 0xd6819c6a, 0x5aa53f75, 0x374943a7)
  {
    hide Written;
    Calls1();
  }

  lemma EmptyRound2(w: seq<bv32>)
    requires ShortWords(w, 0x00000080, 0x00000000)
    ensures FourCalls(w, Digest(0xf56c7cf1, 0xd6819c6a, 0x5aa53f75, 0x374943a7), 16)
         == Digest(0x1c7d7513, 0xbd782e17, 0xc095f13a, 0x7bd57a3a)
    ensures FourCalls(w, Digest(0x1c7d7513, 0xbd782e17, 0xc095f13a, 0x7bd57a3a), 20)
         == Digest(0x3d1e3e6c, 0xe422531a, 0xeb41643e, 0x68b7b3e3)
    ensures FourCalls(w, Digest(0x3d1e3e6c, 0xe422531a, 0xeb41643e, 0x68b7b3e3), 24)
         == Digest(0x306ec122, 0xa0572807, 0xa3c663da, 0xd28c77c2)
    ensures FourCalls(w, Digest(0x306ec122, 0xa0572807, 0xa3c663da, 0xd28c77c2), 28)
         == Digest(0x13707036, 0xa2205f1f, 0x1c31c384, 0xae7813db)
  {
    hide Written;
    Calls2();
  }

  lemma EmptyRound3(w: seq<bv32>)
    requires ShortWords(w, 0x00000080, 0x00000000)
    ensures FourCalls(w, Digest(0x13707036, 0xa2205f1f, 0x1c31c384, 0xae7813db), 32)
         == Digest(0xdf63eaa1, 0x004b6669, 0x12f3e755, 0xc3689f5b)
    ensures FourCalls(w, Digest(0xdf63eaa1, 0x004b6669, 0x12f3e755, 0xc3689f5b), 36)
         == Digest(0x5f7a9b2e, 0xc5dc8c15, 0x91ca4cb7, 0xabc34e16)
    ensures FourCalls(w, Digest(0x5f7a9b2e, 0xc5dc8c15, 0x91ca4cb7, 0xabc34e16), 40)
         == Digest(0x4497169d, 0x0fe32453, 0xfd95f243, 0x76fd93d4)
    ensures FourCalls(w, Digest(0x4497169d, 0x0fe32453, 0xfd95f243, 0x76fd93d4), 44)
         == Digest(0x3f55edfd, 0xca7d2dbd, 0x68d84ea2, 0x22a31f54)
  {
    hide Written;
    Calls3();
  }

  lemma EmptyRound4(w: seq<bv32>)
    requires ShortWords(w, 0x00000080, 0x00000000)
    ensures FourCalls(w, Digest(0x3f55edfd, 0xca7d2dbd, 0x68d84ea2, 0x22a31f54), 48)
         == Digest(0x93aa2577, 0x561e0689, 0xcd85b8cb, 0x1688dc85)
    ensures FourCalls(w, Digest(0x93aa2577, 0x561e0689, 0xcd85b8cb, 0x1688dc85), 52)
         == Digest(0x5625a114, 0x1e77fa61, 0x392ad0d0, 0x3450f42b)
    ensures FourCalls(w, Digest(0x5625a114, 0x1e77fa61, 0x392ad0d0, 0x3450f42b), 56)
         == Digest(0x474a9c8c, 0x30130182, 0x36594b14, 0xdfce00bc)
    ensures FourCalls(w, Digest(0x474a9c8c, 0x30130182, 0x36594b14, 0xdfce00bc), 60)
         == Digest(0x7246fad3, 0x14e45506, 0xff4ea3eb, 0x6e10a476)
  {
    hide Written;
    Calls4();
  }

  lemma EmptyRounds(w: seq<bv32>)
    requires ShortWords(w, 0x00000080, 0x00000000)
    ensures Unrolled(w, INIT, 16) == Digest(0x7246fad3, 0x14e45506, 0xff4ea3eb, 0x6e10a476)
  {
    hide FourCalls, Unrolled;
    UnrolledStart(w, INIT);
    EmptyRound1(w);
    EmptyRound2(w);
    EmptyRound3(w);
    EmptyRound4(w);
    UnrolledNext(w, INIT, 0);
    UnrolledNext(w, INIT, 1);
    UnrolledNext(w, INIT, 2);
    UnrolledNext(w, INIT, 3);
    UnrolledNext(w, INIT, 4);
    UnrolledNext(w, INIT, 5);
    UnrolledNext(w, INIT, 6);
    UnrolledNext(w, INIT, 7);
    UnrolledNext(w, INIT, 8);
    UnrolledNext(w, INIT, 9);
    UnrolledNext(w, INIT, 10);
    UnrolledNext(w, INIT, 11);
    UnrolledNext(w, INIT, 12);
    UnrolledNext(w, INIT, 13);
    UnrolledNext(w, INIT, 14);
    UnrolledNext(w, INIT, 15);
  }

  // --- The registers for "abc", after every four calls ---

  lemma AbcRound1(w: seq<bv32>)
    requires ShortWords(w, 0x80636261, 0x00000018)
    ensures FourCalls(w, Digest(0x67452301, 0xefcdab89, 0x98badcfe, 0x10325476), 0)
         == Digest(0xd6d117b4, 0x7ad956f2, 0x2f6fbd72, 0x344a8432)
    ensures FourCalls(w, Digest(0xd6d117b4, 0x7ad956f2, 0x2f6fbd72, 0x344a8432), 4)
         == Digest(0xc73741ef, 0x928d99f6, 0x207dc67b, 0x8bac3051)
    ensures FourCalls(w, Digest(0xc73741ef, 0x928d99f6, 0x207dc67b, 0x8bac3051), 8)
         == Digest(0x854b3712, 0x5ed49596, 0x3020401c, 0x74e2f284)
    ensures FourCalls(w, Digest(0x854b3712, 0x5ed49596, 0x3020401c, 0x74e2f284), 12)
         == Digest(0xdda9b9a6, 0x72aff2e0, 0xe396856b, 0xa1051895)
  {
    hide Written;
    Calls1();
  }

  lemma AbcRound2(w: seq<bv32>)
    requires ShortWords(w, 0x80636261, 0x00000018)
    ensures FourCalls(w, Digest(0xdda9b9a6, 0x72aff2e0, 0xe396856b, 0xa1051895), 16)
         == Digest(0x3e9e9126, 0xb5b204e4, 0xe25e1652, 0x4a1d804e)
    ensures FourCalls(w, Digest(0x3e9e9126, 0xb5b204e4, 0xe25e1652, 0x4a1d804e), 20)
         == Digest(0x59a8ffda, 0x47092c07, 0xabfc7920, 0x6d002f1e)
    ensures FourCalls(w, Digest(0x59a8ffda, 0x47092c07, 0xabfc7920, 0x6d002f1e), 24)
         == Digest(0xb7f268cf, 0x786acb8f, 0xfe1623b1, 0x09388eff)
    ensures FourCalls(w, Digest(0xb7f268cf, 0x786acb8f, 0xfe1623b1, 0x09388eff), 28)
         == Digest(0x790a77fb, 0x726342d3, 0xa62884aa, 0x9f47e4f8)
  {
    hide Written;
    Calls2();
  }

  lemma AbcRound3(w: seq<bv32>)
    requires ShortWords(w, 0x80636261, 0x00000018)
    ensures FourCalls(w, Digest(0x790a77fb, 0x726342d3, 0xa62884aa, 0x9f47e4f8), 32)
         == Digest(0xb3707ebf, 0x3b0875c7, 0x8d212ff5, 0x60127b2e)
    ensures FourCalls(w, Digest(0xb3707ebf, 0x3b0875c7, 0x8d212ff5, 0x60127b2e), 36)
         == Digest(0x21b117b9, 0x5a2f5ea5, 0x3575227e, 0x6e7429d5)
    ensures FourCalls(w, Digest(0x21b117b9, 0x5a2f5ea5, 0x3575227e, 0x6e7429d5), 40)
         == Digest(0x11de1779, 0x4c6124f4, 0x31c465ca, 0xfadcaa38)
    ensures FourCalls(w, Digest(0x11de1779, 0x4c6124f4, 0x31c465ca, 0xfadcaa38), 44)
         == Digest(0x7f2e507b, 0x7beb9700, 0x8fae6399, 0x99d9679d)
  {
    hide Written;
    Calls3();
  }

  lemma AbcRound4(w: seq<bv32>)
    requires ShortWords(w, 0x80636261, 0x00000018)
    ensures FourCalls(w, Digest(0x7f2e507b, 0x7beb9700, 0x8fae6399, 0x99d9679d), 48)
         == Digest(0x7b201df8, 0x8bf025c4, 0xb298cefd, 0xf4e8e96e)
    ensures FourCalls(w, Digest(0x7b201df8, 0x8bf025c4, 0xb298cefd, 0xf4e8e96e), 52)
         == Digest(0x06cc5e8a, 0x3bfa2c27, 0x7d632dd0, 0x5b0d97aa)
    ensures FourCalls(w, Digest(0x06cc5e8a, 0x3bfa2c27, 0x7d632dd0, 0x5b0d97aa), 56)
         == Digest(0x7f81cc35, 0x7327d604, 0x4f9dbe3f, 0x094454ab)
    ensures FourCalls(w, Digest(0x7f81cc35, 0x7327d604, 0x4f9dbe3f, 0x094454ab), 60)
         == Digest(0x310ade8f, 0xc08226b3, 0xe484b9d8, 0x624d8cb2)
  {
    hide Written;
    Calls4();
  }

  lemma AbcRounds(w: seq<bv32>)
    requires ShortWords(w, 0x80636261, 0x00000018)
    ensures Unrolled(w, INIT, 16) == Digest(0x310ade8f, 0xc08226b3, 0xe484b9d8, 0x624d8cb2)
  {
    hide FourCalls, Unrolled;
    UnrolledStart(w, INIT);
    AbcRound1(w);
    AbcRound2(w);
    AbcRound3(w);
    AbcRound4(w);
    UnrolledNext(w, INIT, 0);
    UnrolledNext(w, INIT, 1);
    UnrolledNext(w, INIT, 2);
    UnrolledNext(w, INIT, 3);
    UnrolledNext(w, INIT, 4);
    UnrolledNext(w, INIT, 5);
    UnrolledNext(w, INIT, 6);
    UnrolledNext(w, INIT, 7);
    UnrolledNext(w, INIT, 8);
    UnrolledNext(w, INIT, 9);
    UnrolledNext(w, INIT, 10);
    UnrolledNext(w, INIT, 11);
    UnrolledNext(w, INIT, 12);
    UnrolledNext(w, INIT, 13);
    UnrolledNext(w, INIT, 14);
    UnrolledNext(w, INIT, 15);
  }

  // --- Whole messages ---

  lemma UnrolledStart(w: seq<bv32>, s: Digest)
    requires |w| == 16
    ensures Unrolled(w, s, 0) == s
  {
  }

  lemma UnrolledNext(w: seq<bv32>, s: Digest, n: nat)
    requires |w| == 16 && n < 16
    ensures Unrolled(w, s, n + 1) == FourCalls(w, Unrolled(w, s, n), 4 * n)
  {
    hide FourCalls;
  }

  /** The block a message of at most 3 bytes is padded to. */
  lemma ShortBlock(m: seq<byte>)
    requires |m| <= 3
    ensures |Pad(m)| == BLOCK
    ensures forall k :: 0 <= k < BLOCK ==>
              Pad(m)[k] == if k < |m| then m[k] else if k == |m| then 0x80 else if k == 56 then 8 * |m| else 0
  {
    hide WordBytes;
    assert (55 - |m|) % BLOCK == 55 - |m|;
    ShortWord(8 * |m|);
    ShortWord(0);
  }

  lemma ShortWord(n: nat)
    requires n < 256
    ensures WordBytes(n) == [n, 0, 0, 0]
  {
  }

  lemma SameNumber(x: bv32, y: bv32)
    requires x as int == y as int
    ensures x == y
  {
    assert (x as int) as bv32 == x && (y as int) as bv32 == y;
  }

  lemma WordIs(block: seq<byte>, i: nat, x: bv32)
    requires |block| == 64 && i < 16 && Word(block, 4 * i) == x as int
    ensures Words(block)[i] == x
  {
    hide Load32, Word;
    LoadIsWord(block, i);
    SameNumber(Load32(block, i), x);
  }

  lemma ShortMessage(m: seq<byte>, first: bv32, bits: bv32)
    requires |m| <= 3 && Word(Pad(m), 0) == first as int && bits as int == 8 * |m|
    ensures ShortWords(Words(Pad(m)), first, bits)
    ensures Absorb(Pad(m)) == Compress(INIT, Pad(m))
  {
    hide Pad, Words, Compress;
    ShortBlock(m);
    var block := Pad(m);
    WordIs(block, 0, first);
    WordIs(block, 14, bits);
    forall i | 1 <= i < 14 || i == 15 ensures Words(block)[i] == 0 {
      WordIs(block, i, 0);
    }
    assert [] + block == block && Absorb([]) == INIT;
    AbsorbBlock([], block);
  }

  /** The digest of the empty message. */
  lemma EmptyDigest()
    ensures Digested([]) == [
              0xd4, 0x1d, 0x8c, 0xd9, 0x8f, 0x00, 0xb2, 0x04,
              0xe9, 0x80, 0x09, 0x98, 0xec, 0xf8, 0x42, 0x7e
            ]
  {
    hide Absorb, Pad, Words, Unrolled, Word, Store32;
    var m: seq<byte> := [];
    EmptyFirst(m);
    ShortMessage(m, 0x00000080, 0x00000000);
    EmptyRounds(Words(Pad(m)));
    EmptyStored();
  }

  lemma EmptyFirst(m: seq<byte>)
    requires m == []
    ensures Word(Pad(m), 0) == 0x00000080 && 0x00000080 == (0x00000080 as bv32) as int
  {
    hide Pad;
    ShortBlock(m);
  }

  lemma EmptyStored()
    ensures Store32(0xd98c1dd4) == [0xd4, 0x1d, 0x8c, 0xd9]
    ensures Store32(0x04b2008f) == [0x8f, 0x00, 0xb2, 0x04]
    ensures Store32(0x980980e9) == [0xe9, 0x80, 0x09, 0x98]
    ensures Store32(0x7e42f8ec) == [0xec, 0xf8, 0x42, 0x7e]
  {
  }

  /** The digest of "abc". */
  lemma AbcDigest()
    ensures Digested([0x61, 0x62, 0x63]) == [
              0x90, 0x01, 0x50, 0x98, 0x3c, 0xd2, 0x4f, 0xb0,
              0xd6, 0x96, 0x3f, 0x7d, 0x28, 0xe1, 0x7f, 0x72
            ]
  {
    hide Absorb, Pad, Words, Unrolled, Word, Store32;
    var m: seq<byte> := [0x61, 0x62, 0x63];
    AbcFirst(m);
    ShortMessage(m, 0x80636261, 0x00000018);
    AbcRounds(Words(Pad(m)));
    AbcStored();
  }

  lemma AbcFirst(m: seq<byte>)
    requires m == [0x61, 0x62, 0x63]
    ensures Word(Pad(m), 0) == 0x80636261 && 0x80636261 == (0x80636261 as bv32) as int
  {
    hide Pad;
    ShortBlock(m);
  }

  lemma AbcStored()
    ensures Store32(0x98500190) == [0x90, 0x01, 0x50, 0x98]
    ensures Store32(0xb04fd23c) == [0x3c, 0xd2, 0x4f, 0xb0]
    ensures Store32(0x7d3f96d6) == [0xd6, 0x96, 0x3f, 0x7d]
    ensures Store32(0x727fe128) == [0x28, 0xe1, 0x7f, 0x72]
  {
  }

}
