/** The MD5 compression function, in the unrolled and the looping form the code offers. */
module Md5Compress {
  import opened Bytes
  import opened BitWords

  datatype Digest = Digest(a: bv32, b: bv32, c: bv32, d: bv32)

  const INIT := Digest(0x67452301, 0xefcdab89, 0x98badcfe, 0x10325476)

  // Which message word, rotation and constant each step of the loop uses, one row a round.
  const WORDER: seq<seq<nat>> := [
    [0, 1, 2, 3, 4, 5, 6, 7, 8, 9, 10, 11, 12, 13, 14, 15],
    [1, 6, 11, 0, 5, 10, 15, 4, 9, 14, 3, 8, 13, 2, 7, 12],
    [5, 8, 11, 14, 1, 4, 7, 10, 13, 0, 3, 6, 9, 12, 15, 2],
    [0, 7, 14, 5, 12, 3, 10, 1, 8, 15, 6, 13, 4, 11, 2, 9]
  ]

  const RORDER: seq<seq<nat>> := [
    [7, 12, 17, 22, 7, 12, 17, 22, 7, 12, 17, 22, 7, 12, 17, 22],
    [5, 9, 14, 20, 5, 9, 14, 20, 5, 9, 14, 20, 5, 9, 14, 20],
    [4, 11, 16, 23, 4, 11, 16, 23, 4, 11, 16, 23, 4, 11, 16, 23],
    [6, 10, 15, 21, 6, 10, 15, 21, 6, 10, 15, 21, 6, 10, 15, 21]
  ]

  // The last four constants belong to no step.
  const KORDER: seq<seq<bv32>> := [
    [
      0xd76aa478, 0xe8c7b756, 0x242070db, 0xc1bdceee, 0xf57c0faf, 0x4787c62a, 0xa8304613, 0xfd469501,
      0x698098d8, 0x8b44f7af, 0xffff5bb1, 0x895cd7be, 0x6b901122, 0xfd987193, 0xa679438e, 0x49b40821
    ],
    [
      0xf61e2562, 0xc040b340, 0x265e5a51, 0xe9b6c7aa, 0xd62f105d, 0x02441453, 0xd8a1e681, 0xe7d3fbc8,
      0x21e1cde6, 0xc33707d6, 0xf4d50d87, 0x455a14ed, 0xa9e3e905, 0xfcefa3f8, 0x676f02d9, 0x8d2a4c8a
    ],
    [
      0xfffa3942, 0x8771f681, 0x6d9d6122, 0xfde5380c, 0xa4beea44, 0x4bdecfa9, 0xf6bb4b60, 0xbebfbc70,
      0x289b7ec6, 0xeaa127fa, 0xd4ef3085, 0x04881d05, 0xd9d4d039, 0xe6db99e5, 0x1fa27cf8, 0xc4ac5665
    ],
    [
      0xf4292244, 0x432aff97, 0xab9423a7, 0xfc93a039, 0x655b59c3, 0x8f0ccc92, 0xffeff47d, 0x85845dd1,
      0x6fa87e4f, 0xfe2ce6e0, 0xa3014314, 0x4e0811a1, 0xf7537e82, 0xbd3af235, 0x2ad7d2bb, 0xeb86d391
    ],
    [0xe1f27f3a, 0xf5710fb0, 0xada0e5c4, 0x98e4c919]
  ]

  /** The message word, rotation and constant written into one call of the unrolled code. */
  datatype MacroCall = MacroCall(word: nat, shift: nat, constant: bv32)

  const UNROLLED: seq<seq<MacroCall>> := [
    [
      MacroCall(0, 7, 0xd76aa478), MacroCall(1, 12, 0xe8c7b756), MacroCall(2, 17, 0x242070db), MacroCall(3, 22, 0xc1bdceee),
      MacroCall(4, 7, 0xf57c0faf), MacroCall(5, 12, 0x4787c62a), MacroCall(6, 17, 0xa8304613), MacroCall(7, 22, 0xfd469501),
      MacroCall(8, 7, 0x698098d8), MacroCall(9, 12, 0x8b44f7af), MacroCall(10, 17, 0xffff5bb1), MacroCall(11, 22, 0x895cd7be),
      MacroCall(12, 7, 0x6b901122), MacroCall(13, 12, 0xfd987193), MacroCall(14, 17, 0xa679438e), MacroCall(15, 22, 0x49b40821)
    ],
    [
      MacroCall(1, 5, 0xf61e2562), MacroCall(6, 9, 0xc040b340), MacroCall(11, 14, 0x265e5a51), MacroCall(0, 20, 0xe9b6c7aa),
      MacroCall(5, 5, 0xd62f105d), MacroCall(10, 9, 0x02441453), MacroCall(15, 14, 0xd8a1e681), MacroCall(4, 20, 0xe7d3fbc8),
      MacroCall(9, 5, 0x21e1cde6), MacroCall(14, 9, 0xc33707d6), MacroCall(3, 14, 0xf4d50d87), MacroCall(8, 20, 0x455a14ed),
      MacroCall(13, 5, 0xa9e3e905), MacroCall(2, 9, 0xfcefa3f8), MacroCall(7, 14, 0x676f02d9), MacroCall(12, 20, 0x8d2a4c8a)
    ],
    [
      MacroCall(5, 4, 0xfffa3942), MacroCall(8, 11, 0x8771f681), MacroCall(11, 16, 0x6d9d6122), MacroCall(14, 23, 0xfde5380c),
      MacroCall(1, 4, 0xa4beea44), MacroCall(4, 11, 0x4bdecfa9), MacroCall(7, 16, 0xf6bb4b60), MacroCall(10, 23, 0xbebfbc70),
      MacroCall(13, 4, 0x289b7ec6), MacroCall(0, 11, 0xeaa127fa), MacroCall(3, 16, 0xd4ef3085), MacroCall(6, 23, 0x04881d05),
      MacroCall(9, 4, 0xd9d4d039), MacroCall(12, 11, 0xe6db99e5), MacroCall(15, 16, 0x1fa27cf8), MacroCall(2, 23, 0xc4ac5665)
    ],
    [
      MacroCall(0, 6, 0xf4292244), MacroCall(7, 10, 0x432aff97), MacroCall(14, 15, 0xab9423a7), MacroCall(5, 21, 0xfc93a039),
      MacroCall(12, 6, 0x655b59c3), MacroCall(3, 10, 0x8f0ccc92), MacroCall(10, 15, 0xffeff47d), MacroCall(1, 21, 0x85845dd1),
      MacroCall(8, 6, 0x6fa87e4f), MacroCall(15, 10, 0xfe2ce6e0), MacroCall(6, 15, 0xa3014314), MacroCall(13, 21, 0x4e0811a1),
      MacroCall(4, 6, 0xf7537e82), MacroCall(11, 10, 0xbd3af235), MacroCall(2, 15, 0x2ad7d2bb), MacroCall(9, 21, 0xeb86d391)
    ]
  ]

  function F(x: bv32, y: bv32, z: bv32): bv32 { z ^ (x & (y ^ z)) }
  function G(x: bv32, y: bv32, z: bv32): bv32 { y ^ (z & (y ^ x)) }
  function H(x: bv32, y: bv32, z: bv32): bv32 { (x ^ y) ^ z }
  function I(x: bv32, y: bv32, z: bv32): bv32 { y ^ (x | !z) }

  /** The shortened forms of F and G compute the functions of section 3.4 of RFC 1321. */
  lemma ShortForms(x: bv32, y: bv32, z: bv32)
    ensures F(x, y, z) == (x & y) | (!x & z)
    ensures G(x, y, z) == (x & z) | (y & !z)
  {
  }

  function Round(i: nat, x: bv32, y: bv32, z: bv32): bv32 {
    if i < 16 then F(x, y, z) else if i < 32 then G(x, y, z) else if i < 48 then H(x, y, z) else I(x, y, z)
  }

  function Rol(x: bv32, n: nat): bv32
    requires 0 < n < 32
  {
    (x << n) | (x >> (32 - n))
  }

  function TableEntry(i: nat): MacroCall
    requires i < 64
  {
    MacroCall(WORDER[i / 16][i % 16], RORDER[i / 16][i % 16], KORDER[i / 16][i % 16])
  }

  /** From call `i` of a round on, the unrolled code and the tables agree and stay in range. */
  predicate RowMatches(round: nat, i: nat)
    requires round < 4 && i <= 16
    decreases 16 - i
  {
    i == 16 ||
    (&& UNROLLED[round][i] == MacroCall(WORDER[round][i], RORDER[round][i], KORDER[round][i])
     && WORDER[round][i] < 16 && 0 < RORDER[round][i] < 32
     && RowMatches(round, i + 1))
  }

  lemma Row0Matches()
    ensures RowMatches(0, 0)
  {
    assert RowMatches(0, 12);
    assert RowMatches(0, 8);
    assert RowMatches(0, 4);
  }

  lemma Row1Matches()
    ensures RowMatches(1, 0)
  {
    assert RowMatches(1, 12);
    assert RowMatches(1, 8);
    assert RowMatches(1, 4);
  }

  lemma Row2Matches()
    ensures RowMatches(2, 0)
  {
    assert RowMatches(2, 12);
    assert RowMatches(2, 8);
    assert RowMatches(2, 4);
  }

  lemma Row3Matches()
    ensures RowMatches(3, 0)
  {
    assert RowMatches(3, 12);
    assert RowMatches(3, 8);
    assert RowMatches(3, 4);
  }

  lemma {:induction false} RowMatchesAt(round: nat, i: nat)
    requires round < 4 && i < 16
    ensures RowMatches(round, i)
  {
    if i == 0 {
      Row0Matches();
      Row1Matches();
      Row2Matches();
      Row3Matches();
    } else {
      RowMatchesAt(round, i - 1);
    }
  }

  /** The constants written into the unrolled code are the ones in the tables, call by call. */
  lemma CallsMatchTables(i: nat)
    requires i < 64
    ensures UNROLLED[i / 16][i % 16] == TableEntry(i)
    ensures TableEntry(i).word < 16 && 0 < TableEntry(i).shift < 32
  {
    RowMatchesAt(i / 16, i % 16);
  }

  /** The value step `i` gives its first register. */
  function Step(i: nat, call: MacroCall, w: seq<bv32>, a: bv32, b: bv32, c: bv32, d: bv32): bv32
    requires |w| == 16 && call.word < 16 && 0 < call.shift < 32
  {
    Rol(a + Round(i, b, c, d) + w[call.word] + call.constant, call.shift) + b
  }

  /** The registers after the first `n` steps of the loop, which renames all four after each step. */
  function Looped(w: seq<bv32>, s: Digest, n: nat): Digest
    requires |w| == 16 && n <= 64
  {
    if n == 0 then s
    else
      var t := Looped(w, s, n - 1);
      Digest(t.d, Step(n - 1, TableCall(n - 1), w, t.a, t.b, t.c, t.d), t.b, t.c)
  }

  function TableCall(i: nat): (call: MacroCall)
    requires i < 64
    ensures call.word < 16 && 0 < call.shift < 32
  {
    CallsMatchTables(i);
    TableEntry(i)
  }

  /** Four calls of the unrolled code, each giving one register its new value. */
  function FourCalls(w: seq<bv32>, t: Digest, i: nat): Digest
    requires |w| == 16 && i + 4 <= 64
  {
    var a := Step(i, Written(i), w, t.a, t.b, t.c, t.d);
    var d := Step(i + 1, Written(i + 1), w, t.d, a, t.b, t.c);
    var c := Step(i + 2, Written(i + 2), w, t.c, d, a, t.b);
    var b := Step(i + 3, Written(i + 3), w, t.b, c, d, a);
    Digest(a, b, c, d)
  }

  /** The registers after the first `4 * n` calls of the unrolled code, which rename nothing. */
  function Unrolled(w: seq<bv32>, s: Digest, n: nat): Digest
    requires |w| == 16 && n <= 16
  {
    if n == 0 then s else FourCalls(w, Unrolled(w, s, n - 1), 4 * (n - 1))
  }

  function Written(i: nat): (call: MacroCall)
    requires i < 64
    ensures call == TableCall(i)
  {
    CallsMatchTables(i);
    UNROLLED[i / 16][i % 16]
  }

  lemma LoopedStart(w: seq<bv32>, s: Digest)
    requires |w| == 16
    ensures Looped(w, s, 0) == s
  {
  }

  /** Unrolling the loop four steps at a time, so that the registers come home, does not change the result. */
  lemma {:induction false} UnrollingAgrees(w: seq<bv32>, s: Digest, n: nat)
    requires |w| == 16 && n <= 16
    ensures Unrolled(w, s, n) == Looped(w, s, 4 * n)
  {
    hide Step, Written, TableCall, Looped;
    LoopedStart(w, s);
    if n > 0 {
      UnrollingAgrees(w, s, n - 1);
      FourSteps(w, s, 4 * (n - 1));
    }
  }

  /** After four steps of the loop the registers are back in their places. */
  lemma FourSteps(w: seq<bv32>, s: Digest, i: nat)
    requires |w| == 16 && i + 4 <= 64
    ensures var t := Looped(w, s, i);
      var a := Step(i, TableCall(i), w, t.a, t.b, t.c, t.d);
      var d := Step(i + 1, TableCall(i + 1), w, t.d, a, t.b, t.c);
      var c := Step(i + 2, TableCall(i + 2), w, t.c, d, a, t.b);
      var b := Step(i + 3, TableCall(i + 3), w, t.b, c, d, a);
      Looped(w, s, i + 4) == Digest(a, b, c, d)
  {
    hide Step, TableCall;
    var t1, t2, t3 := Looped(w, s, i + 1), Looped(w, s, i + 2), Looped(w, s, i + 3);
  }

  function Load32(block: seq<byte>, i: nat): bv32
    requires |block| == 64 && i < 16
  {
    Little(block[4 * i], block[4 * i + 1], block[4 * i + 2], block[4 * i + 3])
  }

  /** A message word is the little-endian word of its four bytes. */
  lemma LoadIsWord(block: seq<byte>, i: nat)
    requires |block| == 64 && i < 16
    ensures Load32(block, i) as int == Word(block, 4 * i)
  {
    hide Little;
    LittleValue(block[4 * i], block[4 * i + 1], block[4 * i + 2], block[4 * i + 3]);
  }

  function Words(block: seq<byte>): (w: seq<bv32>)
    requires |block| == 64
    ensures |w| == 16
  {
    seq(16, i requires 0 <= i < 16 => Load32(block, i))
  }

  /** One application of the compression function to a block of 64 bytes. */
  function Compress(s: Digest, block: seq<byte>): Digest
    requires |block| == 64
  {
    Added(s, Unrolled(Words(block), s, 16))
  }

  function Added(s: Digest, t: Digest): Digest {
    Digest(s.a + t.a, s.b + t.b, s.c + t.c, s.d + t.d)
  }

  /** The compression function as the looping form computes it. */
  function CompressLooping(s: Digest, block: seq<byte>): Digest
    requires |block| == 64
  {
    Added(s, Looped(Words(block), s, 64))
  }

  /** Both forms of the compression function agree on every block. */
  lemma CompressAgrees(s: Digest, block: seq<byte>)
    requires |block| == 64
    ensures Compress(s, block) == CompressLooping(s, block)
  {
    hide Unrolled, Looped, Words, Added;
    UnrollingAgrees(Words(block), s, 16);
  }

  function Encode(s: Digest): (bs: seq<byte>)
    ensures |bs| == 16
  {
    Store32(s.a) + Store32(s.b) + Store32(s.c) + Store32(s.d)
  }
}
