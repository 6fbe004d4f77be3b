/** The first vector of the test suite in section A.5 of RFC 1321, the digest of the empty message, worked out step
    by step: it fixes the constants of Md5.dfy, which nothing else does.
 */
module Md5Sample {
  import opened BitVectors
  import opened Common
  import opened M = Md5

  // ---------- One operation ----------

  // What goes into an operation besides the registers.
  predicate Uses(round: nat, i: nat, x: seq<bv32>, word: bv32, t: bv32, s: bv32)
    requires round < 4 && i < 16 && |x| == 16
  {
    x[WordUsed(round, i)] == word && T(16 * round + i) == t && Shift(round, i) == s
  }

  function Value(round: nat, a: bv32, b: bv32, c: bv32, d: bv32, word: bv32, t: bv32, s: bv32): bv32
    requires 0 < s < 32
  {
    Plus(b, RotateLeft(Plus(Plus(Plus(a, Mix(round, b, c, d)), word), t), s))
  }

  lemma Operate(r: Registers, round: nat, i: nat, x: seq<bv32>, word: bv32, t: bv32, s: bv32)
    requires round < 4 && i < 16 && |x| == 16 && 0 < s < 32 && Uses(round, i, x, word, t, s)
    ensures var a := First(i);
      Round(r, round, i + 1, x) ==
        var q := Round(r, round, i, x);
        q[a := Value(round, q[a], q[(a + 1) % 4], q[(a + 2) % 4], q[(a + 3) % 4], word, t, s)]
  {
    hide Plus, RotateLeft, Mix, T, WordUsed, Shift;
  }

  lemma OperateA(r: Registers, round: nat, i: nat, x: seq<bv32>, a: bv32, b: bv32, c: bv32, d: bv32,
                 word: bv32, t: bv32, s: bv32, w: bv32)
    requires round < 4 && i < 16 && |x| == 16 && 0 < s < 32 && Uses(round, i, x, word, t, s) && i % 4 == 0
    requires Round(r, round, i, x) == [a, b, c, d] && w == Value(round, a, b, c, d, word, t, s)
    ensures Round(r, round, i + 1, x) == [w, b, c, d]
  {
    hide Value, Round, Uses;
    Operate(r, round, i, x, word, t, s);
  }

  lemma OperateD(r: Registers, round: nat, i: nat, x: seq<bv32>, a: bv32, b: bv32, c: bv32, d: bv32,
                 word: bv32, t: bv32, s: bv32, w: bv32)
    requires round < 4 && i < 16 && |x| == 16 && 0 < s < 32 && Uses(round, i, x, word, t, s) && i % 4 == 1
    requires Round(r, round, i, x) == [a, b, c, d] && w == Value(round, d, a, b, c, word, t, s)
    ensures Round(r, round, i + 1, x) == [a, b, c, w]
  {
    hide Value, Round, Uses;
    Operate(r, round, i, x, word, t, s);
  }

  lemma OperateC(r: Registers, round: nat, i: nat, x: seq<bv32>, a: bv32, b: bv32, c: bv32, d: bv32,
                 word: bv32, t: bv32, s: bv32, w: bv32)
    requires round < 4 && i < 16 && |x| == 16 && 0 < s < 32 && Uses(round, i, x, word, t, s) && i % 4 == 2
    requires Round(r, round, i, x) == [a, b, c, d] && w == Value(round, c, d, a, b, word, t, s)
    ensures Round(r, round, i + 1, x) == [a, b, w, d]
  {
    hide Value, Round, Uses;
    Operate(r, round, i, x, word, t, s);
  }

  lemma OperateB(r: Registers, round: nat, i: nat, x: seq<bv32>, a: bv32, b: bv32, c: bv32, d: bv32,
                 word: bv32, t: bv32, s: bv32, w: bv32)
    requires round < 4 && i < 16 && |x| == 16 && 0 < s < 32 && Uses(round, i, x, word, t, s) && i % 4 == 3
    requires Round(r, round, i, x) == [a, b, c, d] && w == Value(round, b, c, d, a, word, t, s)
    ensures Round(r, round, i + 1, x) == [a, w, c, d]
  {
    hide Value, Round, Uses;
    Operate(r, round, i, x, word, t, s);
  }

  // ---------- The empty message ----------

  // The block to which the empty message is padded.
  predicate IsEmptyBlock(x: seq<bv32>) {
    |x| == 16 && x[0] == 0x80 && forall k | 1 <= k < 16 :: x[k] == 0
  }

  lemma Looked11(x: seq<bv32>)
    requires IsEmptyBlock(x)
    ensures Uses(0, 0, x, 0x80, 0xd76aa478, 7)
    ensures Uses(0, 1, x, 0, 0xe8c7b756, 12)
    ensures Uses(0, 2, x, 0, 0x242070db, 17)
    ensures Uses(0, 3, x, 0, 0xc1bdceee, 22)
  {
  }

  lemma Operations11(r: Registers, x: seq<bv32>)
    requires IsEmptyBlock(x) && Round(r, 0, 0, x) == [0x67452301, 0xefcdab89, 0x98badcfe, 0x10325476]
    ensures Round(r, 0, 4, x) == [0xa5202774, 0x1b163203, 0xe7f06b23, 0xf59592dd]
  {
    hide Round, Uses;
    Looked11(x);
    OperateA(r, 0, 0, x, 0x67452301, 0xefcdab89, 0x98badcfe, 0x10325476,
             0x80, 0xd76aa478, 7, 0xa5202774);
    OperateD(r, 0, 1, x, 0xa5202774, 0xefcdab89, 0x98badcfe, 0x10325476,
             0, 0xe8c7b756, 12, 0xf59592dd);
    OperateC(r, 0, 2, x, 0xa5202774, 0xefcdab89, 0x98badcfe, 0xf59592dd,
             0, 0x242070db, 17, 0xe7f06b23);
    OperateB(r, 0, 3, x, 0xa5202774, 0xefcdab89, 0xe7f06b23, 0xf59592dd,
             0, 0xc1bdceee, 22, 0x1b163203);
  }

  lemma Looked12(x: seq<bv32>)
    requires IsEmptyBlock(x)
    ensures Uses(0, 4, x, 0, 0xf57c0faf, 7)
    ensures Uses(0, 5, x, 0, 0x4787c62a, 12)
    ensures Uses(0, 6, x, 0, 0xa8304613, 17)
    ensures Uses(0, 7, x, 0, 0xfd469501, 22)
  {
  }

  lemma Operations12(r: Registers, x: seq<bv32>)
    requires IsEmptyBlock(x) && Round(r, 0, 4, x) == [0xa5202774, 0x1b163203, 0xe7f06b23, 0xf59592dd]
    ensures Round(r, 0, 8, x) == [0x32033344, 0x9bc13ce9, 0xf5b158db, 0x2f35d494]
  {
    hide Round, Uses;
    Looked12(x);
    OperateA(r, 0, 4, x, 0xa5202774, 0x1b163203, 0xe7f06b23, 0xf59592dd,
             0, 0xf57c0faf, 7, 0x32033344);
    OperateD(r, 0, 5, x, 0x32033344, 0x1b163203, 0xe7f06b23, 0xf59592dd,
             0, 0x4787c62a, 12, 0x2f35d494);
    OperateC(r, 0, 6, x, 0x32033344, 0x1b163203, 0xe7f06b23, 0x2f35d494,
             0, 0xa8304613, 17, 0xf5b158db);
    OperateB(r, 0, 7, x, 0x32033344, 0x1b163203, 0xf5b158db, 0x2f35d494,
             0, 0xfd469501, 22, 0x9bc13ce9);
  }

  lemma Looked13(x: seq<bv32>)
    requires IsEmptyBlock(x)
    ensures Uses(0, 8, x, 0, 0x698098d8, 7)
    ensures Uses(0, 9, x, 0, 0x8b44f7af, 12)
    ensures Uses(0, 10, x, 0, 0xffff5bb1, 17)
    ensures Uses(0, 11, x, 0, 0x895cd7be, 22)
  {
  }

  lemma Operations13(r: Registers, x: seq<bv32>)
    requires IsEmptyBlock(x) && Round(r, 0, 8, x) == [0x32033344, 0x9bc13ce9, 0xf5b158db, 0x2f35d494]
    ensures Round(r, 0, 12, x) == [0x3893b991, 0x70768a29, 0xe1ef0576, 0xfce4a312]
  {
    hide Round, Uses;
    Looked13(x);
    OperateA(r, 0, 8, x, 0x32033344, 0x9bc13ce9, 0xf5b158db, 0x2f35d494,
             0, 0x698098d8, 7, 0x3893b991);
    OperateD(r, 0, 9, x, 0x3893b991, 0x9bc13ce9, 0xf5b158db, 0x2f35d494,
             0, 0x8b44f7af, 12, 0xfce4a312);
    OperateC(r, 0, 10, x, 0x3893b991, 0x9bc13ce9, 0xf5b158db, 0xfce4a312,
             0, 0xffff5bb1, 17, 0xe1ef0576);
    OperateB(r, 0, 11, x, 0x3893b991, 0x9bc13ce9, 0xe1ef0576, 0xfce4a312,
             0, 0x895cd7be, 22, 0x70768a29);
  }

  lemma Looked14(x: seq<bv32>)
    requires IsEmptyBlock(x)
    ensures Uses(0, 12, x, 0, 0x6b901122, 7)
    ensures Uses(0, 13, x, 0, 0xfd987193, 12)
    ensures Uses(0, 14, x, 0, 0xa679438e, 17)
    ensures Uses(0, 15, x, 0, 0x49b40821, 22)
  {
  }

  lemma Operations14(r: Registers, x: seq<bv32>)
    requires IsEmptyBlock(x) && Round(r, 0, 12, x) == [0x3893b991, 0x70768a29, 0xe1ef0576, 0xfce4a312]
    ensures Round(r, 0, 16, x) == [0xf56c7cf1, 0xd6819c6a, 0x5aa53f75, 0x374943a7]
  {
    hide Round, Uses;
    Looked14(x);
    OperateA(r, 0, 12, x, 0x3893b991, 0x70768a29, 0xe1ef0576, 0xfce4a312,
             0, 0x6b901122, 7, 0xf56c7cf1);
    OperateD(r, 0, 13, x, 0xf56c7cf1, 0x70768a29, 0xe1ef0576, 0xfce4a312,
             0, 0xfd987193, 12, 0x374943a7);
    OperateC(r, 0, 14, x, 0xf56c7cf1, 0x70768a29, 0xe1ef0576, 0x374943a7,
             0, 0xa679438e, 17, 0x5aa53f75);
    OperateB(r, 0, 15, x, 0xf56c7cf1, 0x70768a29, 0x5aa53f75, 0x374943a7,
             0, 0x49b40821, 22, 0xd6819c6a);
  }

  lemma Looked21(x: seq<bv32>)
    requires IsEmptyBlock(x)
    ensures Uses(1, 0, x, 0, 0xf61e2562, 5)
    ensures Uses(1, 1, x, 0, 0xc040b340, 9)
    ensures Uses(1, 2, x, 0, 0x265e5a51, 14)
    ensures Uses(1, 3, x, 0x80, 0xe9b6c7aa, 20)
  {
  }

  lemma Operations21(r: Registers, x: seq<bv32>)
    requires IsEmptyBlock(x) && Round(r, 1, 0, x) == [0xf56c7cf1, 0xd6819c6a, 0x5aa53f75, 0x374943a7]
    ensures Round(r, 1, 4, x) == [0x1c7d7513, 0xbd782e17, 0xc095f13a, 0x7bd57a3a]
  {
    hide Round, Uses;
    Looked21(x);
    OperateA(r, 1, 0, x, 0xf56c7cf1, 0xd6819c6a, 0x5aa53f75, 0x374943a7,
             0, 0xf61e2562, 5, 0x1c7d7513);
    OperateD(r, 1, 1, x, 0x1c7d7513, 0xd6819c6a, 0x5aa53f75, 0x374943a7,
             0, 0xc040b340, 9, 0x7bd57a3a);
    OperateC(r, 1, 2, x, 0x1c7d7513, 0xd6819c6a, 0x5aa53f75, 0x7bd57a3a,
             0, 0x265e5a51, 14, 0xc095f13a);
    OperateB(r, 1, 3, x, 0x1c7d7513, 0xd6819c6a, 0xc095f13a, 0x7bd57a3a,
             0x80, 0xe9b6c7aa, 20, 0xbd782e17);
  }

  lemma Looked22(x: seq<bv32>)
    requires IsEmptyBlock(x)
    ensures Uses(1, 4, x, 0, 0xd62f105d, 5)
    ensures Uses(1, 5, x, 0, 0x02441453, 9)
    ensures Uses(1, 6, x, 0, 0xd8a1e681, 14)
    ensures Uses(1, 7, x, 0, 0xe7d3fbc8, 20)
  {
  }

  lemma Operations22(r: Registers, x: seq<bv32>)
    requires IsEmptyBlock(x) && Round(r, 1, 4, x) == [0x1c7d7513, 0xbd782e17, 0xc095f13a, 0x7bd57a3a]
    ensures Round(r, 1, 8, x) == [0x3d1e3e6c, 0xe422531a, 0xeb41643e, 0x68b7b3e3]
  {
    hide Round, Uses;
    Looked22(x);
    OperateA(r, 1, 4, x, 0x1c7d7513, 0xbd782e17, 0xc095f13a, 0x7bd57a3a,
             0, 0xd62f105d, 5, 0x3d1e3e6c);
    OperateD(r, 1, 5, x, 0x3d1e3e6c, 0xbd782e17, 0xc095f13a, 0x7bd57a3a,
             0, 0x02441453, 9, 0x68b7b3e3);
    OperateC(r, 1, 6, x, 0x3d1e3e6c, 0xbd782e17, 0xc095f13a, 0x68b7b3e3,
             0, 0xd8a1e681, 14, 0xeb41643e);
    OperateB(r, 1, 7, x, 0x3d1e3e6c, 0xbd782e17, 0xeb41643e, 0x68b7b3e3,
             0, 0xe7d3fbc8, 20, 0xe422531a);
  }

  lemma Looked23(x: seq<bv32>)
    requires IsEmptyBlock(x)
    ensures Uses(1, 8, x, 0, 0x21e1cde6, 5)
    ensures Uses(1, 9, x, 0, 0xc33707d6, 9)
    ensures Uses(1, 10, x, 0, 0xf4d50d87, 14)
    ensures Uses(1, 11, x, 0, 0x455a14ed, 20)
  {
  }

  lemma Operations23(r: Registers, x: seq<bv32>)
    requires IsEmptyBlock(x) && Round(r, 1, 8, x) == [0x3d1e3e6c, 0xe422531a, 0xeb41643e, 0x68b7b3e3]
    ensures Round(r, 1, 12, x) == [0x306ec122, 0xa0572807, 0xa3c663da, 0xd28c77c2]
  {
    hide Round, Uses;
    Looked23(x);
    OperateA(r, 1, 8, x, 0x3d1e3e6c, 0xe422531a, 0xeb41643e, 0x68b7b3e3,
             0, 0x21e1cde6, 5, 0x306ec122);
    OperateD(r, 1, 9, x, 0x306ec122, 0xe422531a, 0xeb41643e, 0x68b7b3e3,
             0, 0xc33707d6, 9, 0xd28c77c2);
    OperateC(r, 1, 10, x, 0x306ec122, 0xe422531a, 0xeb41643e, 0xd28c77c2,
             0, 0xf4d50d87, 14, 0xa3c663da);
    OperateB(r, 1, 11, x, 0x306ec122, 0xe422531a, 0xa3c663da, 0xd28c77c2,
             0, 0x455a14ed, 20, 0xa0572807);
  }

  lemma Looked24(x: seq<bv32>)
    requires IsEmptyBlock(x)
    ensures Uses(1, 12, x, 0, 0xa9e3e905, 5)
    ensures Uses(1, 13, x, 0, 0xfcefa3f8, 9)
    ensures Uses(1, 14, x, 0, 0x676f02d9, 14)
    ensures Uses(1, 15, x, 0, 0x8d2a4c8a, 20)
  {
  }

  lemma Operations24(r: Registers, x: seq<bv32>)
    requires IsEmptyBlock(x) && Round(r, 1, 12, x) == [0x306ec122, 0xa0572807, 0xa3c663da, 0xd28c77c2]
    ensures Round(r, 1, 16, x) == [0x13707036, 0xa2205f1f, 0x1c31c384, 0xae7813db]
  {
    hide Round, Uses;
    Looked24(x);
    OperateA(r, 1, 12, x, 0x306ec122, 0xa0572807, 0xa3c663da, 0xd28c77c2,
             0, 0xa9e3e905, 5, 0x13707036);
    OperateD(r, 1, 13, x, 0x13707036, 0xa0572807, 0xa3c663da, 0xd28c77c2,
             0, 0xfcefa3f8, 9, 0xae7813db);
    OperateC(r, 1, 14, x, 0x13707036, 0xa0572807, 0xa3c663da, 0xae7813db,
             0, 0x676f02d9, 14, 0x1c31c384);
    OperateB(r, 1, 15, x, 0x13707036, 0xa0572807, 0x1c31c384, 0xae7813db,
             0, 0x8d2a4c8a, 20, 0xa2205f1f);
  }

  lemma Looked31(x: seq<bv32>)
    requires IsEmptyBlock(x)
    ensures Uses(2, 0, x, 0, 0xfffa3942, 4)
    ensures Uses(2, 1, x, 0, 0x8771f681, 11)
    ensures Uses(2, 2, x, 0, 0x6d9d6122, 16)
    ensures Uses(2, 3, x, 0, 0xfde5380c, 23)
  {
  }

  lemma Operations31(r: Registers, x: seq<bv32>)
    requires IsEmptyBlock(x) && Round(r, 2, 0, x) == [0x13707036, 0xa2205f1f, 0x1c31c384, 0xae7813db]
    ensures Round(r, 2, 4, x) == [0xdf63eaa1, 0x004b6669, 0x12f3e755, 0xc3689f5b]
  {
    hide Round, Uses;
    Looked31(x);
    OperateA(r, 2, 0, x, 0x13707036, 0xa2205f1f, 0x1c31c384, 0xae7813db,
             0, 0xfffa3942, 4, 0xdf63eaa1);
    OperateD(r, 2, 1, x, 0xdf63eaa1, 0xa2205f1f, 0x1c31c384, 0xae7813db,
             0, 0x8771f681, 11, 0xc3689f5b);
    OperateC(r, 2, 2, x, 0xdf63eaa1, 0xa2205f1f, 0x1c31c384, 0xc3689f5b,
             0, 0x6d9d6122, 16, 0x12f3e755);
    OperateB(r, 2, 3, x, 0xdf63eaa1, 0xa2205f1f, 0x12f3e755, 0xc3689f5b,
             0, 0xfde5380c, 23, 0x004b6669);
  }

  lemma Looked32(x: seq<bv32>)
    requires IsEmptyBlock(x)
    ensures Uses(2, 4, x, 0, 0xa4beea44, 4)
    ensures Uses(2, 5, x, 0, 0x4bdecfa9, 11)
    ensures Uses(2, 6, x, 0, 0xf6bb4b60, 16)
    ensures Uses(2, 7, x, 0, 0xbebfbc70, 23)
  {
  }

  lemma Operations32(r: Registers, x: seq<bv32>)
    requires IsEmptyBlock(x) && Round(r, 2, 4, x) == [0xdf63eaa1, 0x004b6669, 0x12f3e755, 0xc3689f5b]
    ensures Round(r, 2, 8, x) == [0x5f7a9b2e, 0xc5dc8c15, 0x91ca4cb7, 0xabc34e16]
  {
    hide Round, Uses;
    Looked32(x);
    OperateA(r, 2, 4, x, 0xdf63eaa1, 0x004b6669, 0x12f3e755, 0xc3689f5b,
             0, 0xa4beea44, 4, 0x5f7a9b2e);
    OperateD(r, 2, 5, x, 0x5f7a9b2e, 0x004b6669, 0x12f3e755, 0xc3689f5b,
             0, 0x4bdecfa9, 11, 0xabc34e16);
    OperateC(r, 2, 6, x, 0x5f7a9b2e, 0x004b6669, 0x12f3e755, 0xabc34e16,
             0, 0xf6bb4b60, 16, 0x91ca4cb7);
    OperateB(r, 2, 7, x, 0x5f7a9b2e, 0x004b6669, 0x91ca4cb7, 0xabc34e16,
             0, 0xbebfbc70, 23, 0xc5dc8c15);
  }

  lemma Looked33(x: seq<bv32>)
    requires IsEmptyBlock(x)
    ensures Uses(2, 8, x, 0, 0x289b7ec6, 4)
    ensures Uses(2, 9, x, 0x80, 0xeaa127fa, 11)
    ensures Uses(2, 10, x, 0, 0xd4ef3085, 16)
    ensures Uses(2, 11, x, 0, 0x04881d05, 23)
  {
  }

  lemma Operations33(r: Registers, x: seq<bv32>)
    requires IsEmptyBlock(x) && Round(r, 2, 8, x) == [0x5f7a9b2e, 0xc5dc8c15, 0x91ca4cb7, 0xabc34e16]
    ensures Round(r, 2, 12, x) == [0x4497169d, 0x0fe32453, 0xfd95f243, 0x76fd93d4]
  {
    hide Round, Uses;
    Looked33(x);
    OperateA(r, 2, 8, x, 0x5f7a9b2e, 0xc5dc8c15, 0x91ca4cb7, 0xabc34e16,
             0, 0x289b7ec6, 4, 0x4497169d);
    OperateD(r, 2, 9, x, 0x4497169d, 0xc5dc8c15, 0x91ca4cb7, 0xabc34e16,
             0x80, 0xeaa127fa, 11, 0x76fd93d4);
    OperateC(r, 2, 10, x, 0x4497169d, 0xc5dc8c15, 0x91ca4cb7, 0x76fd93d4,
             0, 0xd4ef3085, 16, 0xfd95f243);
    OperateB(r, 2, 11, x, 0x4497169d, 0xc5dc8c15, 0xfd95f243, 0x76fd93d4,
             0, 0x04881d05, 23, 0x0fe32453);
  }

  lemma Looked34(x: seq<bv32>)
    requires IsEmptyBlock(x)
    ensures Uses(2, 12, x, 0, 0xd9d4d039, 4)
    ensures Uses(2, 13, x, 0, 0xe6db99e5, 11)
    ensures Uses(2, 14, x, 0, 0x1fa27cf8, 16)
    ensures Uses(2, 15, x, 0, 0xc4ac5665, 23)
  {
  }

  lemma Operations34(r: Registers, x: seq<bv32>)
    requires IsEmptyBlock(x) && Round(r, 2, 12, x) == [0x4497169d, 0x0fe32453, 0xfd95f243, 0x76fd93d4]
    ensures Round(r, 2, 16, x) == [0x3f55edfd, 0xca7d2dbd, 0x68d84ea2, 0x22a31f54]
  {
    hide Round, Uses;
    Looked34(x);
    OperateA(r, 2, 12, x, 0x4497169d, 0x0fe32453, 0xfd95f243, 0x76fd93d4,
             0, 0xd9d4d039, 4, 0x3f55edfd);
    OperateD(r, 2, 13, x, 0x3f55edfd, 0x0fe32453, 0xfd95f243, 0x76fd93d4,
             0, 0xe6db99e5, 11, 0x22a31f54);
    OperateC(r, 2, 14, x, 0x3f55edfd, 0x0fe32453, 0xfd95f243, 0x22a31f54,
             0, 0x1fa27cf8, 16, 0x68d84ea2);
    OperateB(r, 2, 15, x, 0x3f55edfd, 0x0fe32453, 0x68d84ea2, 0x22a31f54,
             0, 0xc4ac5665, 23, 0xca7d2dbd);
  }

  lemma Looked41(x: seq<bv32>)
    requires IsEmptyBlock(x)
    ensures Uses(3, 0, x, 0x80, 0xf4292244, 6)
    ensures Uses(3, 1, x, 0, 0x432aff97, 10)
    ensures Uses(3, 2, x, 0, 0xab9423a7, 15)
    ensures Uses(3, 3, x, 0, 0xfc93a039, 21)
  {
  }

  lemma Operations41(r: Registers, x: seq<bv32>)
    requires IsEmptyBlock(x) && Round(r, 3, 0, x) == [0x3f55edfd, 0xca7d2dbd, 0x68d84ea2, 0x22a31f54]
    ensures Round(r, 3, 4, x) == [0x93aa2577, 0x561e0689, 0xcd85b8cb, 0x1688dc85]
  {
    hide Round, Uses;
    Looked41(x);
    OperateA(r, 3, 0, x, 0x3f55edfd, 0xca7d2dbd, 0x68d84ea2, 0x22a31f54,
             0x80, 0xf4292244, 6, 0x93aa2577);
    OperateD(r, 3, 1, x, 0x93aa2577, 0xca7d2dbd, 0x68d84ea2, 0x22a31f54,
             0, 0x432aff97, 10, 0x1688dc85);
    OperateC(r, 3, 2, x, 0x93aa2577, 0xca7d2dbd, 0x68d84ea2, 0x1688dc85,
             0, 0xab9423a7, 15, 0xcd85b8cb);
    OperateB(r, 3, 3, x, 0x93aa2577, 0xca7d2dbd, 0xcd85b8cb, 0x1688dc85,
             0, 0xfc93a039, 21, 0x561e0689);
  }

  lemma Looked42(x: seq<bv32>)
    requires IsEmptyBlock(x)
    ensures Uses(3, 4, x, 0, 0x655b59c3, 6)
    ensures Uses(3, 5, x, 0, 0x8f0ccc92, 10)
    ensures Uses(3, 6, x, 0, 0xffeff47d, 15)
    ensures Uses(3, 7, x, 0, 0x85845dd1, 21)
  {
  }

  lemma Operations42(r: Registers, x: seq<bv32>)
    requires IsEmptyBlock(x) && Round(r, 3, 4, x) == [0x93aa2577, 0x561e0689, 0xcd85b8cb, 0x1688dc85]
    ensures Round(r, 3, 8, x) == [0x5625a114, 0x1e77fa61, 0x392ad0d0, 0x3450f42b]
  {
    hide Round, Uses;
    Looked42(x);
    OperateA(r, 3, 4, x, 0x93aa2577, 0x561e0689, 0xcd85b8cb, 0x1688dc85,
             0, 0x655b59c3, 6, 0x5625a114);
    OperateD(r, 3, 5, x, 0x5625a114, 0x561e0689, 0xcd85b8cb, 0x1688dc85,
             0, 0x8f0ccc92, 10, 0x3450f42b);
    OperateC(r, 3, 6, x, 0x5625a114, 0x561e0689, 0xcd85b8cb, 0x3450f42b,
             0, 0xffeff47d, 15, 0x392ad0d0);
    OperateB(r, 3, 7, x, 0x5625a114, 0x561e0689, 0x392ad0d0, 0x3450f42b,
             0, 0x85845dd1, 21, 0x1e77fa61);
  }

  lemma Looked43(x: seq<bv32>)
    requires IsEmptyBlock(x)
    ensures Uses(3, 8, x, 0, 0x6fa87e4f, 6)
    ensures Uses(3, 9, x, 0, 0xfe2ce6e0, 10)
    ensures Uses(3, 10, x, 0, 0xa3014314, 15)
    ensures Uses(3, 11, x, 0, 0x4e0811a1, 21)
  {
  }

  lemma Operations43(r: Registers, x: seq<bv32>)
    requires IsEmptyBlock(x) && Round(r, 3, 8, x) == [0x5625a114, 0x1e77fa61, 0x392ad0d0, 0x3450f42b]
    ensures Round(r, 3, 12, x) == [0x474a9c8c, 0x30130182, 0x36594b14, 0xdfce00bc]
  {
    hide Round, Uses;
    Looked43(x);
    OperateA(r, 3, 8, x, 0x5625a114, 0x1e77fa61, 0x392ad0d0, 0x3450f42b,
             0, 0x6fa87e4f, 6, 0x474a9c8c);
    OperateD(r, 3, 9, x, 0x474a9c8c, 0x1e77fa61, 0x392ad0d0, 0x3450f42b,
             0, 0xfe2ce6e0, 10, 0xdfce00bc);
    OperateC(r, 3, 10, x, 0x474a9c8c, 0x1e77fa61, 0x392ad0d0, 0xdfce00bc,
             0, 0xa3014314, 15, 0x36594b14);
    OperateB(r, 3, 11, x, 0x474a9c8c, 0x1e77fa61, 0x36594b14, 0xdfce00bc,
             0, 0x4e0811a1, 21, 0x30130182);
  }

  lemma Looked44(x: seq<bv32>)
    requires IsEmptyBlock(x)
    ensures Uses(3, 12, x, 0, 0xf7537e82, 6)
    ensures Uses(3, 13, x, 0, 0xbd3af235, 10)
    ensures Uses(3, 14, x, 0, 0x2ad7d2bb, 15)
    ensures Uses(3, 15, x, 0, 0xeb86d391, 21)
  {
  }

  lemma Operations44(r: Registers, x: seq<bv32>)
    requires IsEmptyBlock(x) && Round(r, 3, 12, x) == [0x474a9c8c, 0x30130182, 0x36594b14, 0xdfce00bc]
    ensures Round(r, 3, 16, x) == [0x7246fad3, 0x14e45506, 0xff4ea3eb, 0x6e10a476]
  {
    hide Round, Uses;
    Looked44(x);
    OperateA(r, 3, 12, x, 0x474a9c8c, 0x30130182, 0x36594b14, 0xdfce00bc,
             0, 0xf7537e82, 6, 0x7246fad3);
    OperateD(r, 3, 13, x, 0x7246fad3, 0x30130182, 0x36594b14, 0xdfce00bc,
             0, 0xbd3af235, 10, 0x6e10a476);
    OperateC(r, 3, 14, x, 0x7246fad3, 0x30130182, 0x36594b14, 0x6e10a476,
             0, 0x2ad7d2bb, 15, 0xff4ea3eb);
    OperateB(r, 3, 15, x, 0x7246fad3, 0x30130182, 0xff4ea3eb, 0x6e10a476,
             0, 0xeb86d391, 21, 0x14e45506);
  }

  lemma EmptyRounds(x: seq<bv32>)
    requires IsEmptyBlock(x)
    ensures AllRounds(INIT_STATE, x) == [0x7246fad3, 0x14e45506, 0xff4ea3eb, 0x6e10a476]
  {
    hide Round, IsEmptyBlock;
    var r := INIT_STATE;
    Starts(r, 0, x);
    Operations11(r, x);
    Operations12(r, x);
    Operations13(r, x);
    Operations14(r, x);
    r := Round(r, 0, 16, x);
    Starts(r, 1, x);
    Operations21(r, x);
    Operations22(r, x);
    Operations23(r, x);
    Operations24(r, x);
    r := Round(r, 1, 16, x);
    Starts(r, 2, x);
    Operations31(r, x);
    Operations32(r, x);
    Operations33(r, x);
    Operations34(r, x);
    r := Round(r, 2, 16, x);
    Starts(r, 3, x);
    Operations41(r, x);
    Operations42(r, x);
    Operations43(r, x);
    Operations44(r, x);
  }

  lemma Starts(r: Registers, round: nat, x: seq<bv32>)
    requires round < 4 && IsEmptyBlock(x)
    ensures Round(r, round, 0, x) == r && |x| == 16
  {
  }

  lemma EmptyPadded()
    ensures Rfc1321Padded([]) == [0x80] + Zeros(63)
  {
    hide LeBytes;
    assert Gap(0) == 55;
    ZeroWord(0);
    EightBytes(0);
    assert Rfc1321Padded([]) == [0x80] + Zeros(55) + BitLength(0, 8);
  }

  lemma EmptyWords(block: seq<byte>)
    requires block == [0x80] + Zeros(63)
    ensures IsEmptyBlock(Words(block))
  {
    hide LeWord;
    FirstWord(block);
    forall k | 1 <= k < 16 ensures Words(block)[k] == 0 {
      WordOfZeros(block, 4 * k);
    }
  }

  lemma FirstWord(block: seq<byte>)
    requires |block| == 64 && block[0] == 0x80 && block[1] == 0 && block[2] == 0 && block[3] == 0
    ensures LeWord(block, 0) == 0x80
  {
  }

  lemma WordOfZeros(block: seq<byte>, i: nat)
    requires i + 4 <= |block| && block[i] == 0 && block[i + 1] == 0 && block[i + 2] == 0 && block[i + 3] == 0
    ensures LeWord(block, i) == 0
  {
  }

  lemma EmptyState()
    ensures Add(INIT_STATE, [0x7246fad3, 0x14e45506, 0xff4ea3eb, 0x6e10a476])
         == [0xd98c1dd4, 0x04b2008f, 0x980980e9, 0x7e42f8ec]
    ensures WordBytes(0xd98c1dd4) == [0xd4, 0x1d, 0x8c, 0xd9] && WordBytes(0x04b2008f) == [0x8f, 0x00, 0xb2, 0x04]
    ensures WordBytes(0x980980e9) == [0xe9, 0x80, 0x09, 0x98] && WordBytes(0x7e42f8ec) == [0xec, 0xf8, 0x42, 0x7e]
  {
  }

  /** MD5 ("") = d41d8cd98f00b204e9800998ecf8427e */
  lemma EmptyDigest()
    ensures M.Md5([]) ==
      [0xd4, 0x1d, 0x8c, 0xd9, 0x8f, 0x00, 0xb2, 0x04, 0xe9, 0x80, 0x09, 0x98, 0xec, 0xf8, 0x42, 0x7e]
  {
    hide AllRounds, Words, WordBytes, Rfc1321Padded, Add, Zeros;
    var p := Rfc1321Padded([]);
    EmptyPadded();
    EmptyWords(p);
    EmptyRounds(Words(p));
    EmptyState();
    assert p[0..64] == p;
    assert Fold(p, 1) == Transform(Fold(p, 0), p[0..64]);
    assert M.Md5([]) == StateBytes(Fold(p, 1));
  }
}
