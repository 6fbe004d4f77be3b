/** MD5 as in second/md5.c: registers that rotate through the variables of `md5_transform`, and a message
    that arrives in pieces.  The specification is RFC 1321: the 64 named operations of section 3.4 on
    fixed registers, and the padding of sections 3.1 and 3.2.
 */
module Md5 {
  import opened BitVectors
  import opened Common

  const BLOCK := 64

  // The input and what the buffer holds are added up in an int.
  const MAX_INPUT := 0x7fff_ffff - 63

  // ---------- Basic functions ----------

  function F(x: bv32, y: bv32, z: bv32): bv32 { Or(And(x, y), And(Not(x), z)) }

  function G(x: bv32, y: bv32, z: bv32): bv32 { Or(And(x, z), And(y, Not(z))) }

  function H(x: bv32, y: bv32, z: bv32): bv32 { Xor(Xor(x, y), z) }

  function I(x: bv32, y: bv32, z: bv32): bv32 { Xor(y, Or(x, Not(z))) }

  /** What section 3.4 of RFC 1321 says of them: F is "if x then y else z" in every bit, and G "if z then x else y";
      H is the parity; I is what it calls y xor (x or not z). */
  lemma BasicFunctions(x: bv32, y: bv32, z: bv32, k: bv5)
    ensures Bit(F(x, y, z), k) <==> if Bit(x, k) then Bit(y, k) else Bit(z, k)
    ensures Bit(G(x, y, z), k) <==> if Bit(z, k) then Bit(x, k) else Bit(y, k)
    ensures Bit(H(x, y, z), k) <==> (Bit(x, k) <==> (Bit(y, k) <==> Bit(z, k)))
    ensures Bit(I(x, y, z), k) <==> if Bit(z, k) then Bit(x, k) != Bit(y, k) else !Bit(y, k)
  {
    hide And, Or, Xor, Not, Bit;
    Bitwise(x, y, k);
    Bitwise(x, z, k);
    Bitwise(z, x, k);
    Bitwise(Not(x), z, k);
    Bitwise(And(x, y), And(Not(x), z), k);
    Bitwise(y, Not(z), k);
    Bitwise(And(x, z), And(y, Not(z)), k);
    Bitwise(Xor(x, y), z, k);
    Bitwise(x, Not(z), k);
    Bitwise(y, Or(x, Not(z)), k);
  }

  const INIT_STATE: seq<bv32> := [0x67452301, 0xefcdab89, 0x98badcfe, 0x10325476]

  const TABLE1: seq<bv32> := [
    0xd76aa478, 0xe8c7b756, 0x242070db, 0xc1bdceee, 0xf57c0faf, 0x4787c62a, 0xa8304613, 0xfd469501,
    0x698098d8, 0x8b44f7af, 0xffff5bb1, 0x895cd7be, 0x6b901122, 0xfd987193, 0xa679438e, 0x49b40821
  ]

  const TABLE2: seq<bv32> := [
    0xf61e2562, 0xc040b340, 0x265e5a51, 0xe9b6c7aa, 0xd62f105d, 0x02441453, 0xd8a1e681, 0xe7d3fbc8,
    0x21e1cde6, 0xc33707d6, 0xf4d50d87, 0x455a14ed, 0xa9e3e905, 0xfcefa3f8, 0x676f02d9, 0x8d2a4c8a
  ]

  const TABLE3: seq<bv32> := [
    0xfffa3942, 0x8771f681, 0x6d9d6122, 0xfde5380c, 0xa4beea44, 0x4bdecfa9, 0xf6bb4b60, 0xbebfbc70,
    0x289b7ec6, 0xeaa127fa, 0xd4ef3085, 0x04881d05, 0xd9d4d039, 0xe6db99e5, 0x1fa27cf8, 0xc4ac5665
  ]

  const TABLE4: seq<bv32> := [
    0xf4292244, 0x432aff97, 0xab9423a7, 0xfc93a039, 0x655b59c3, 0x8f0ccc92, 0xffeff47d, 0x85845dd1,
    0x6fa87e4f, 0xfe2ce6e0, 0xa3014314, 0x4e0811a1, 0xf7537e82, 0xbd3af235, 0x2ad7d2bb, 0xeb86d391
  ]

  const TABLE := TABLE1 + TABLE2 + TABLE3 + TABLE4

  function T(i: nat): bv32
    requires i < 64
  {
    TABLE[i]
  }

  // Addition of 32-bit words.
  function Plus(x: bv32, y: bv32): bv32 {
    x + y
  }

  // An unsigned char as a 32-bit word.
  function Widened(b: byte): bv32 {
    b as bv8 as bv32
  }

  // The four bytes of block from i on, least significant first.
  function LeWord(block: seq<byte>, i: nat): bv32
    requires i + 4 <= |block|
  {
    Widened(block[i]) | (Widened(block[i + 1]) << 8) | (Widened(block[i + 2]) << 16) | (Widened(block[i + 3]) << 24)
  }

  function WordBytes(w: bv32): (r: seq<byte>)
    ensures |r| == 4
  {
    [(w & 0xff) as int, ((w >> 8) & 0xff) as int, ((w >> 16) & 0xff) as int, ((w >> 24) & 0xff) as int]
  }

  lemma WordsOfBytes(a: bv32, b: bv32, c: bv32, d: bv32)
    requires a <= 0xff && b <= 0xff && c <= 0xff && d <= 0xff
    ensures var w := a | (b << 8) | (c << 16) | (d << 24);
      w & 0xff == a && (w >> 8) & 0xff == b && (w >> 16) & 0xff == c && (w >> 24) & 0xff == d
  {
  }

  lemma WidenedIs(b: byte)
    ensures Widened(b) as int == b && Widened(b) <= 0xff
  {
    CharNumber(b);
    WidenedChar(b as bv8);
  }

  /** Reading a word and storing it again gives the same bytes. */
  lemma WordBack(block: seq<byte>, i: nat)
    requires i + 4 <= |block|
    ensures WordBytes(LeWord(block, i)) == block[i..i + 4]
  {
    hide Widened;
    WidenedIs(block[i]);
    WidenedIs(block[i + 1]);
    WidenedIs(block[i + 2]);
    WidenedIs(block[i + 3]);
    WordsOfBytes(Widened(block[i]), Widened(block[i + 1]), Widened(block[i + 2]), Widened(block[i + 3]));
  }

  lemma BytesAreNumbers(w: bv32)
    ensures WordBytes(w) == [Number(Byte0(w)), Number(Byte1(w)), Number(Byte2(w)), Number(Byte3(w))]
  {
  }

  /** They are the bytes of the number, least significant first. */
  lemma WordBytesAreLe(w: bv32)
    ensures WordBytes(w) == LeBytes(Number(w), 4)
  {
    hide WordBytes, LeBytes, Number, Byte0, Byte1, Byte2, Byte3;
    BytesSum(w);
    BytesAreNumbers(w);
    var b := WordBytes(w);
    FourBytesOf(Number(w));
    BytesOf(b[0], b[1], b[2], b[3], Number(w));
  }

  lemma BytesOf(a: byte, b: byte, c: byte, d: byte, n: nat)
    requires n == d * 0x100_0000 + c * 0x1_0000 + b * 0x100 + a
    ensures n % 0x100 == a && n / 0x100 % 0x100 == b
    ensures n / 0x100 / 0x100 % 0x100 == c && n / 0x100 / 0x100 / 0x100 % 0x100 == d
  {
    assert n / 0x100 == d * 0x1_0000 + c * 0x100 + b;
    assert n / 0x100 / 0x100 == d * 0x100 + c;
  }

  // The block as sixteen words.
  function Words(block: seq<byte>): (x: seq<bv32>)
    requires |block| == BLOCK
    ensures |x| == 16 && forall k | 0 <= k < 16 :: x[k] == LeWord(block, 4 * k)
  {
    seq(16, k requires 0 <= k < 16 => LeWord(block, 4 * k))
  }

  // ---------- Section 3.4 of RFC 1321 ----------

  // The word each operation of a round uses, in order.
  const ROUND1: seq<nat> := [0, 1, 2, 3, 4, 5, 6, 7, 8, 9, 10, 11, 12, 13, 14, 15]
  const ROUND2: seq<nat> := [1, 6, 11, 0, 5, 10, 15, 4, 9, 14, 3, 8, 13, 2, 7, 12]
  const ROUND3: seq<nat> := [5, 8, 11, 14, 1, 4, 7, 10, 13, 0, 3, 6, 9, 12, 15, 2]
  const ROUND4: seq<nat> := [0, 7, 14, 5, 12, 3, 10, 1, 8, 15, 6, 13, 4, 11, 2, 9]

  function WordUsed(round: nat, i: nat): (k: nat)
    requires round < 4 && i < 16
    ensures k < 16
  {
    (if round == 0 then ROUND1 else if round == 1 then ROUND2 else if round == 2 then ROUND3 else ROUND4)[i]
  }

  function Shift(round: nat, i: nat): (s: bv32)
    requires round < 4
    ensures 0 < s < 32
  {
    (if round == 0 then [7, 12, 17, 22] else if round == 1 then [5, 9, 14, 20]
     else if round == 2 then [4, 11, 16, 23] else [6, 10, 15, 21])[i % 4]
  }

  function Mix(round: nat, x: bv32, y: bv32, z: bv32): bv32 {
    if round == 0 then F(x, y, z) else if round == 1 then G(x, y, z) else if round == 2 then H(x, y, z) else I(x, y, z)
  }

  // The operations of a round come in fours: ABCD, DABC, CDAB, BCDA; A is register 0.
  function First(i: nat): nat {
    if i % 4 == 0 then 0 else 4 - i % 4
  }

  // "a = b + ((a + Mix(b, c, d) + X[k] + T[i]) <<< s)", for whichever registers play a, b, c and d.
  function Step(round: nat, i: nat, a: bv32, b: bv32, c: bv32, d: bv32, x: seq<bv32>): bv32
    requires round < 4 && i < 16 && |x| == 16
  {
    var sum := Plus(Plus(Plus(a, Mix(round, b, c, d)), x[WordUsed(round, i)]), T(16 * round + i));
    Plus(b, RotateLeft(sum, Shift(round, i)))
  }

  type Registers = r: seq<bv32> | |r| == 4 witness INIT_STATE

  function Operation(r: Registers, round: nat, i: nat, x: seq<bv32>): Registers
    requires round < 4 && i < 16 && |x| == 16
  {
    var a := First(i);
    r[a := Step(round, i, r[a], r[(a + 1) % 4], r[(a + 2) % 4], r[(a + 3) % 4], x)]
  }

  // After the first i operations of a round.
  function Round(r: Registers, round: nat, i: nat, x: seq<bv32>): Registers
    requires round < 4 && i <= 16 && |x| == 16
  {
    if i == 0 then r else Operation(Round(r, round, i - 1, x), round, i - 1, x)
  }

  function AllRounds(r: Registers, x: seq<bv32>): Registers
    requires |x| == 16
  {
    Round(Round(Round(Round(r, 0, 16, x), 1, 16, x), 2, 16, x), 3, 16, x)
  }

  function Add(r: Registers, s: Registers): Registers {
    [Plus(r[0], s[0]), Plus(r[1], s[1]), Plus(r[2], s[2]), Plus(r[3], s[3])]
  }

  /** What one block of the message does to the state. */
  function Transform(r: Registers, block: seq<byte>): Registers
    requires |block| == BLOCK
  {
    Add(r, AllRounds(r, Words(block)))
  }

  /** The variables a, b, c, d of md5_transform hold the registers, rotated one place by each operation. */
  predicate Rotated(a: bv32, b: bv32, c: bv32, d: bv32, r: Registers, i: nat) {
    var n := First(i);
    a == r[n] && b == r[(n + 1) % 4] && c == r[(n + 2) % 4] && d == r[(n + 3) % 4]
  }

  lemma RotateOnce(a: bv32, b: bv32, c: bv32, d: bv32, r: Registers, round: nat, i: nat, x: seq<bv32>)
    requires round < 4 && i < 16 && |x| == 16 && Rotated(a, b, c, d, r, i)
    ensures Rotated(d, Step(round, i, a, b, c, d, x), b, c, Operation(r, round, i, x), i + 1)
  {
    hide Step, Plus;
    assert i % 4 == 0 || i % 4 == 1 || i % 4 == 2 || i % 4 == 3;
  }

  lemma RotatedStart(a: bv32, b: bv32, c: bv32, d: bv32, r: Registers)
    ensures Rotated(a, b, c, d, r, 0) <==> a == r[0] && b == r[1] && c == r[2] && d == r[3]
  {
  }

  // Sixteen operations bring every register back to where it was, ready for the next round.
  lemma RotatedEnd(a: bv32, b: bv32, c: bv32, d: bv32, r: Registers)
    requires Rotated(a, b, c, d, r, 16)
    ensures Rotated(a, b, c, d, r, 0)
  {
  }

  // s1 .. s4 of the C code.
  const S1: seq<bv32> := [7, 12, 17, 22]
  const S2: seq<bv32> := [5, 9, 14, 20]
  const S3: seq<bv32> := [4, 11, 16, 23]
  const S4: seq<bv32> := [6, 10, 15, 21]

  lemma ShiftOrder(round: nat, i: nat)
    requires round < 4 && i < 16
    ensures Shift(round, i) ==
      (if round == 0 then S1 else if round == 1 then S2 else if round == 2 then S3 else S4)[i % 4]
  {
  }

  lemma WordOrder1(i: nat)
    requires i < 16
    ensures ROUND1[i] == i && ROUND2[i] == (1 + 5 * i) % 16
  {
  }

  lemma WordOrder2(i: nat)
    requires i < 16
    ensures ROUND3[i] == (5 + 3 * i) % 16 && ROUND4[i] == (7 * i) % 16
  {
  }

  /** The running index j modulo 16 visits the words in the order of section 3.4. */
  lemma WordOrder(round: nat, i: nat)
    requires round < 4 && i < 16
    ensures WordUsed(round, i) ==
      if round == 0 then i else if round == 1 then (1 + 5 * i) % 16
      else if round == 2 then (5 + 3 * i) % 16 else (7 * i) % 16
    ensures Shift(round, i) ==
      (if round == 0 then S1 else if round == 1 then S2 else if round == 2 then S3 else S4)[i % 4]
  {
    hide Shift;
    ShiftOrder(round, i);
    WordOrder1(i);
    WordOrder2(i);
  }

  // ---------- Blocks of a message ----------

  // The state after the first n blocks of a message.
  function Fold(m: seq<byte>, n: nat): Registers
    requires n * BLOCK <= |m|
  {
    if n == 0 then INIT_STATE else Transform(Fold(m, n - 1), m[(n - 1) * BLOCK..n * BLOCK])
  }

  lemma {:induction false} FoldPrefix(m: seq<byte>, more: seq<byte>, n: nat)
    requires n * BLOCK <= |m|
    ensures Fold(m + more, n) == Fold(m, n)
  {
    hide Transform;
    if n > 0 {
      FoldPrefix(m, more, n - 1);
      assert (m + more)[(n - 1) * BLOCK..n * BLOCK] == m[(n - 1) * BLOCK..n * BLOCK];
    }
  }

  /** n whole blocks of the message have gone into the state; the buffer starts with the rest. */
  ghost predicate Holds(r: Registers, buffer: seq<byte>, m: seq<byte>, n: nat) {
    && n * BLOCK <= |m| < (n + 1) * BLOCK == n * BLOCK + |buffer|
    && r == Fold(m, n)
    && buffer[..|m| - n * BLOCK] == m[n * BLOCK..]
  }

  // ---------- Padding ----------

  function Zeros(n: nat): (z: seq<byte>)
    ensures |z| == n
  {
    seq(n, _ => 0)
  }

  // The number of zero bytes that bring a message with its 0x80 byte to 56 modulo 64 bytes.
  function Gap(n: nat): (z: nat)
    ensures z < BLOCK && (n + 1 + z) % BLOCK == 56
  {
    (119 - n % BLOCK) % BLOCK
  }

  // The message length in bits, modulo 2^(8k), in k bytes.
  function BitLength(n: nat, k: nat): (r: seq<byte>)
    ensures |r| == k
  {
    LeBytes(8 * n, k)
  }

  lemma PadLength(n: nat)
    ensures (n + 1 + Gap(n) + 8) % BLOCK == 0
  {
    hide Gap;
    assert (n + 1 + Gap(n)) % BLOCK == 56;
  }

  // What md5_final appends: the length in bits as one 32-bit number, and a word of zeros.
  function Padded(m: seq<byte>): (p: seq<byte>)
    ensures |p| % BLOCK == 0 && m <= p
  {
    hide BitLength, Gap, Zeros;
    PadLength(|m|);
    m + [0x80] + Zeros(Gap(|m|)) + BitLength(|m|, 4) + [0, 0, 0, 0]
  }

  /** Sections 3.1 and 3.2 of RFC 1321: a 1 bit, then 0 bits until the length is 448 modulo 512, then the
      number of bits of the message modulo 2^64, low-order byte first. */
  function Rfc1321Padded(m: seq<byte>): (p: seq<byte>)
    ensures |p| % BLOCK == 0
  {
    hide BitLength, Gap, Zeros;
    PadLength(|m|);
    m + [0x80] + Zeros(Gap(|m|)) + BitLength(|m|, 8)
  }

  /** With fewer than 56 bytes in the last block the padding completes that block ... */
  lemma PadOneBlock(m: seq<byte>, n: nat)
    requires n * BLOCK <= |m| < n * BLOCK + 56
    ensures Padded(m) == m[..n * BLOCK]
              + (m[n * BLOCK..] + [0x80] + Zeros(n * BLOCK + 55 - |m|) + BitLength(|m|, 4) + [0, 0, 0, 0])
  {
    hide BitLength;
    assert Gap(|m|) == n * BLOCK + 55 - |m|;
  }

  /** ... with more it needs another one. */
  lemma PadTwoBlocks(m: seq<byte>, n: nat)
    requires n * BLOCK + 56 <= |m| < (n + 1) * BLOCK
    ensures Padded(m) == m[..n * BLOCK]
              + (m[n * BLOCK..] + [0x80] + Zeros((n + 1) * BLOCK - 1 - |m|))
              + (Zeros(56) + BitLength(|m|, 4) + [0, 0, 0, 0])
  {
    hide BitLength;
    var z := (n + 1) * BLOCK - 1 - |m|;
    assert Gap(|m|) == z + 56;
    assert Zeros(z + 56) == Zeros(z) + Zeros(56);
  }

  lemma EightBytes(n: nat)
    ensures LeBytes(n, 8) == LeBytes(n, 4) + LeBytes(n / WORDS, 4)
  {
    var n1 := n / 0x100;
    var n2 := n1 / 0x100;
    var n3 := n2 / 0x100;
    FourBytesOf(n);
    assert n3 / 0x100 == n / WORDS;
    assert LeBytes(n3, 5) == [n3 % 0x100] + LeBytes(n / WORDS, 4);
    assert LeBytes(n2, 6) == [n2 % 0x100] + LeBytes(n3, 5);
    assert LeBytes(n1, 7) == [n1 % 0x100] + LeBytes(n2, 6);
  }

  lemma DropByte(a: nat, t: nat, k: nat)
    requires k > 0
    ensures LeBytes(a + t * 0x100, k) == [a % 0x100] + LeBytes(a / 0x100 + t, k - 1)
  {
    var b := a + t * 0x100;
    assert b == (a / 0x100 + t) * 0x100 + a % 0x100;
    assert b / 0x100 == a / 0x100 + t && b % 0x100 == a % 0x100;
  }

  // Multiples of 2^32 do not show in the low-order word.
  lemma SameLowWord(a: nat, u: nat)
    ensures LeBytes(a + u * WORDS, 4) == LeBytes(a, 4)
  {
    hide LeBytes;
    var a1 := a / 0x100;
    var a2 := a1 / 0x100;
    var a3 := a2 / 0x100;
    DropByte(a, u * 0x100_0000, 4);
    DropByte(a1, u * 0x1_0000, 3);
    DropByte(a2, u * 0x100, 2);
    DropByte(a3, u, 1);
    DropByte(a, 0, 4);
    DropByte(a1, 0, 3);
    DropByte(a2, 0, 2);
    DropByte(a3, 0, 1);
    assert a + u * WORDS == a + (u * 0x100_0000) * 0x100;
  }

  // Counting the length modulo 2^32, as the variable `length` does, does not change its low-order word.
  lemma LowWord(n: nat)
    ensures LeBytes((8 * (n % WORDS)) % WORDS, 4) == BitLength(n, 4)
  {
    hide LeBytes;
    var a := (8 * (n % WORDS)) % WORDS;
    var u := 8 * (n % WORDS) / WORDS + 8 * (n / WORDS);
    SameLowWord(a, u);
    assert 8 * n == a + u * WORDS;
  }

  lemma FourBytesOf(n: nat)
    ensures var n1 := n / 0x100; var n2 := n1 / 0x100; var n3 := n2 / 0x100;
      LeBytes(n, 4) == [n % 0x100, n1 % 0x100, n2 % 0x100, n3 % 0x100]
  {
    var n1 := n / 0x100;
    var n2 := n1 / 0x100;
    var n3 := n2 / 0x100;
    assert LeBytes(n3, 1) == [n3 % 0x100];
    assert LeBytes(n2, 2) == [n2 % 0x100, n3 % 0x100];
    assert LeBytes(n1, 3) == [n1 % 0x100, n2 % 0x100, n3 % 0x100];
  }

  lemma ZeroWord(y: nat)
    ensures LeBytes(y, 4) == [0, 0, 0, 0] <==> y % WORDS == 0
  {
    hide LeBytes;
    FourBytesOf(y);
    var y1 := y / 0x100;
    var y2 := y1 / 0x100;
    var y3 := y2 / 0x100;
    var r := y % 0x100 + 0x100 * (y1 % 0x100) + 0x1_0000 * (y2 % 0x100) + 0x100_0000 * (y3 % 0x100);
    assert y == (y3 / 0x100) * WORDS + r;
    RemainderIs(y, y3 / 0x100, r);
  }

  lemma RemainderIs(y: nat, q: nat, r: nat)
    requires y == q * WORDS + r && r < WORDS
    ensures y % WORDS == r
  {
  }

  lemma BelowHalfGiga(n: nat, y: nat, s: nat)
    requires n == y * 0x2000_0000 + s && s < 0x2000_0000
    ensures y % WORDS == 0 <==> n % 0x2000_0000_0000_0000 < 0x2000_0000
  {
    assert n == (y / WORDS) * 0x2000_0000_0000_0000 + (y % WORDS) * 0x2000_0000 + s;
  }

  lemma HighWord(n: nat)
    ensures BitLength(n, 8) == BitLength(n, 4) + [0, 0, 0, 0] <==> n % 0x2000_0000_0000_0000 < 0x2000_0000
  {
    hide LeBytes;
    EightBytes(8 * n);
    var y := n / 0x2000_0000;
    assert 8 * n / WORDS == y;
    ZeroWord(y);
    BelowHalfGiga(n, y, n % 0x2000_0000);
    SameFront(LeBytes(8 * n, 4), LeBytes(y, 4), [0, 0, 0, 0]);
  }

  /** This code pads as RFC 1321 does exactly when the message, its length taken modulo 2^61 bytes, has
      fewer than 2^29 bytes: it never writes the high-order word of the length. */
  lemma PaddingIsRfc1321(m: seq<byte>)
    ensures Padded(m) == Rfc1321Padded(m) <==> |m| % 0x2000_0000_0000_0000 < 0x2000_0000
  {
    hide BitLength;
    HighWord(|m|);
    var front := m + [0x80] + Zeros(Gap(|m|));
    assert Padded(m) == front + (BitLength(|m|, 4) + [0, 0, 0, 0]);
    assert Rfc1321Padded(m) == front + BitLength(|m|, 8);
    SameFront(front, BitLength(|m|, 4) + [0, 0, 0, 0], BitLength(|m|, 8));
  }

  lemma SameFront(f: seq<byte>, a: seq<byte>, b: seq<byte>)
    requires |a| == |b|
    ensures f + a == f + b <==> a == b
  {
    assert (f + a)[|f|..] == a;
    assert (f + b)[|f|..] == b;
  }

  lemma WholeBlocks(m: seq<byte>, n: nat)
    requires n * BLOCK <= |m| < (n + 1) * BLOCK
    ensures |m| / BLOCK == n && |m| % BLOCK == |m| - n * BLOCK
  {
  }

  // The state as the bytes it is stored in.
  function StateBytes(r: Registers): (d: seq<byte>)
    ensures |d| == 16
  {
    WordBytes(r[0]) + WordBytes(r[1]) + WordBytes(r[2]) + WordBytes(r[3])
  }

  function Digest(p: seq<byte>): (d: seq<byte>)
    requires |p| % BLOCK == 0
    ensures |d| == 16
  {
    StateBytes(Fold(p, |p| / BLOCK))
  }

  /** The message digest of RFC 1321. */
  function Md5(m: seq<byte>): (d: seq<byte>)
    ensures |d| == 16
  {
    Digest(Rfc1321Padded(m))
  }

  class Context {
    const state: array<bv32>
    const buffer: array<byte>
    // The number of bytes so far; unsigned int.
    var length: nat
    // The message so far.
    ghost var message: seq<byte>

    ghost predicate Shaped() {
      state.Length == 4 && buffer.Length == BLOCK
    }

    ghost predicate Valid()
      reads this, state, buffer
    {
      && Shaped()
      && length == |message| % WORDS
      && Holds(state[..], buffer[..], message, |message| / BLOCK)
    }

    constructor ()
      ensures Shaped() && fresh(state) && fresh(buffer)
    {
      state := new bv32[4];
      buffer := new byte[BLOCK];
      length, message := 0, [];
    }

    method Init()
      requires Shaped()
      modifies this, state
      ensures Valid() && message == []
    {
      state[0], state[1], state[2], state[3] := INIT_STATE[0], INIT_STATE[1], INIT_STATE[2], INIT_STATE[3];
      length := 0;
      message := [];
      assert state[..] == INIT_STATE;
    }

    // The four loops of md5_transform.
    method Round1(a0: bv32, b0: bv32, c0: bv32, d0: bv32, x: seq<bv32>, ghost r: Registers)
      returns (a: bv32, b: bv32, c: bv32, d: bv32)
      requires |x| == 16 && Rotated(a0, b0, c0, d0, r, 0)
      ensures Rotated(a, b, c, d, Round(r, 0, 16, x), 0)
    {
      hide RotateLeft, Plus, T, F, Rotated, Operation, WordUsed, Shift;
      a, b, c, d := a0, b0, c0, d0;
      var i: nat := 0;
      while i < 16
        invariant i <= 16
        invariant Rotated(a, b, c, d, Round(r, 0, i, x), i)
      {
        WordOrder(0, i);
        var tmp := Plus(Plus(Plus(a, F(b, c, d)), x[i]), T(i));
        tmp := RotateLeft(tmp, S1[i % 4]);
        tmp := Plus(b, tmp);
        RotateOnce(a, b, c, d, Round(r, 0, i, x), 0, i, x);
        a := d;
        d := c;
        c := b;
        b := tmp;
        i := i + 1;
      }
      RotatedEnd(a, b, c, d, Round(r, 0, 16, x));
    }

    method Round2(a0: bv32, b0: bv32, c0: bv32, d0: bv32, x: seq<bv32>, ghost r: Registers)
      returns (a: bv32, b: bv32, c: bv32, d: bv32)
      requires |x| == 16 && Rotated(a0, b0, c0, d0, r, 0)
      ensures Rotated(a, b, c, d, Round(r, 1, 16, x), 0)
    {
      hide RotateLeft, Plus, T, G, Rotated, Operation, WordUsed, Shift;
      a, b, c, d := a0, b0, c0, d0;
      var i: nat := 0;
      var j: nat := 1;
      while i < 16
        invariant i <= 16
        invariant j == 1 + 5 * i
        invariant Rotated(a, b, c, d, Round(r, 1, i, x), i)
      {
        WordOrder(1, i);
        var tmp := Plus(Plus(Plus(a, G(b, c, d)), x[j % 16]), T(i + 16));
        tmp := RotateLeft(tmp, S2[i % 4]);
        tmp := Plus(b, tmp);
        RotateOnce(a, b, c, d, Round(r, 1, i, x), 1, i, x);
        a := d;
        d := c;
        c := b;
        b := tmp;
        i := i + 1;
        j := j + 5;
      }
      RotatedEnd(a, b, c, d, Round(r, 1, 16, x));
    }

    method Round3(a0: bv32, b0: bv32, c0: bv32, d0: bv32, x: seq<bv32>, ghost r: Registers)
      returns (a: bv32, b: bv32, c: bv32, d: bv32)
      requires |x| == 16 && Rotated(a0, b0, c0, d0, r, 0)
      ensures Rotated(a, b, c, d, Round(r, 2, 16, x), 0)
    {
      hide RotateLeft, Plus, T, H, Rotated, Operation, WordUsed, Shift;
      a, b, c, d := a0, b0, c0, d0;
      var i: nat := 0;
      var j: nat := 5;
      while i < 16
        invariant i <= 16
        invariant j == 5 + 3 * i
        invariant Rotated(a, b, c, d, Round(r, 2, i, x), i)
      {
        WordOrder(2, i);
        var tmp := Plus(Plus(Plus(a, H(b, c, d)), x[j % 16]), T(i + 32));
        tmp := RotateLeft(tmp, S3[i % 4]);
        tmp := Plus(b, tmp);
        RotateOnce(a, b, c, d, Round(r, 2, i, x), 2, i, x);
        a := d;
        d := c;
        c := b;
        b := tmp;
        i := i + 1;
        j := j + 3;
      }
      RotatedEnd(a, b, c, d, Round(r, 2, 16, x));
    }

    method Round4(a0: bv32, b0: bv32, c0: bv32, d0: bv32, x: seq<bv32>, ghost r: Registers)
      returns (a: bv32, b: bv32, c: bv32, d: bv32)
      requires |x| == 16 && Rotated(a0, b0, c0, d0, r, 0)
      ensures Rotated(a, b, c, d, Round(r, 3, 16, x), 0)
    {
      hide RotateLeft, Plus, T, I, Rotated, Operation, WordUsed, Shift;
      a, b, c, d := a0, b0, c0, d0;
      var i: nat := 0;
      var j: nat := 0;
      while i < 16
        invariant i <= 16
        invariant j == 0 + 7 * i
        invariant Rotated(a, b, c, d, Round(r, 3, i, x), i)
      {
        WordOrder(3, i);
        var tmp := Plus(Plus(Plus(a, I(b, c, d)), x[j % 16]), T(i + 48));
        tmp := RotateLeft(tmp, S4[i % 4]);
        tmp := Plus(b, tmp);
        RotateOnce(a, b, c, d, Round(r, 3, i, x), 3, i, x);
        a := d;
        d := c;
        c := b;
        b := tmp;
        i := i + 1;
        j := j + 7;
      }
      RotatedEnd(a, b, c, d, Round(r, 3, 16, x));
    }

    /** `md5_transform`. */
    method TransformBlock(block: seq<byte>)
      requires Shaped() && |block| == BLOCK
      modifies state
      ensures state[..] == Transform(old(state[..]), block)
    {
      hide Rotated, Round, Plus, LeWord;
      var x := Words(block);
      ghost var start: Registers := state[..];
      var a, b, c, d := state[0], state[1], state[2], state[3];
      RotatedStart(a, b, c, d, start);
      a, b, c, d := Round1(a, b, c, d, x, start);
      a, b, c, d := Round2(a, b, c, d, x, Round(start, 0, 16, x));
      a, b, c, d := Round3(a, b, c, d, x, Round(Round(start, 0, 16, x), 1, 16, x));
      a, b, c, d := Round4(a, b, c, d, x, Round(Round(Round(start, 0, 16, x), 1, 16, x), 2, 16, x));
      RotatedStart(a, b, c, d, AllRounds(start, x));
      state[0] := Plus(state[0], a);
      state[1] := Plus(state[1], b);
      state[2] := Plus(state[2], c);
      state[3] := Plus(state[3], d);
      assert state[..] == Add(start, AllRounds(start, x));
    }

    // memcpy (buffer + at, ...)
    method Fill(at: nat, data: seq<byte>)
      requires Shaped() && at + |data| <= BLOCK
      modifies buffer
      ensures buffer[..] == old(buffer[..at]) + data + old(buffer[at + |data|..])
    {
      forall i | 0 <= i < |data| {
        buffer[at + i] := data[i];
      }
      assert buffer[..at] == old(buffer[..at]);
      assert buffer[at..at + |data|] == data;
      assert buffer[at + |data|..] == old(buffer[at + |data|..]);
    }

    /** `md5_update`: appends to the message, in pieces of any size. */
    method Update(input: seq<byte>)
      requires Valid() && |input| <= MAX_INPUT
      modifies this, state, buffer
      ensures Valid() && message == old(message) + input
    {
      hide Transform, Holds;
      ghost var full := message + input;
      ghost var n := |message| / BLOCK;
      WholeBlocks(message, n);
      LengthBits(|message|);
      Lengths(|message|, |input|);
      var buflen := length % BLOCK;
      length := (length + |input|) % WORDS;
      if buflen + |input| < BLOCK {
        Fill(buflen, input);
        StillHolds(state[..], old(buffer[..]), buffer[..], message, n, input);
        WholeBlocks(full, n);
        message := full;
        return;
      }
      n := UpdateBlocks(input, buflen, n);
      WholeBlocks(full, n);
      message := full;
    }

    // The rest of md5_update, when the input completes a block: that block, whole blocks of input, and what is left.
    method UpdateBlocks(input: seq<byte>, buflen: nat, ghost n0: nat) returns (ghost n: nat)
      requires Shaped() && Holds(state[..], buffer[..], message, n0)
      requires buflen == |message| - n0 * BLOCK && buflen + |input| >= BLOCK
      modifies state, buffer
      ensures Holds(state[..], buffer[..], message + input, n)
      ensures n * BLOCK <= |message + input| < (n + 1) * BLOCK
    {
      hide Transform, Holds;
      ghost var full := message + input;
      n := n0;
      HoldsBounds(state[..], buffer[..], message, n);
      var at := BLOCK - buflen;
      Fill(buflen, input[..at]);
      BlockFull(state[..], old(buffer[..]), buffer[..], message, n, input);
      TransformBlock(buffer[..]);
      FoldOne(full, n, buffer[..]);
      n := n + 1;
      while |input| - at >= BLOCK
        invariant 0 <= at <= |input| && n * BLOCK == |message| + at
        invariant state[..] == Fold(full, n)
      {
        Behind(message, input, at, BLOCK);
        TransformBlock(input[at..at + BLOCK]);
        FoldOne(full, n, input[at..at + BLOCK]);
        at := at + BLOCK;
        n := n + 1;
      }
      Fill(0, input[at..]);
      assert buffer[..|full| - n * BLOCK] == full[n * BLOCK..];
      HoldsNow(state[..], buffer[..], full, n);
      HoldsBounds(state[..], buffer[..], full, n);
    }

    lemma Behind(m: seq<byte>, input: seq<byte>, at: nat, k: nat)
      requires at + k <= |input|
      ensures input[at..at + k] == (m + input)[|m| + at..|m| + at + k]
    {
    }

    lemma HoldsBounds(r: Registers, buf: seq<byte>, m: seq<byte>, n: nat)
      requires Holds(r, buf, m, n)
      ensures n * BLOCK <= |m| < (n + 1) * BLOCK && |buf| == BLOCK
    {
    }

    lemma Lengths(n: nat, k: nat)
      ensures (n % WORDS + k) % WORDS == (n + k) % WORDS
    {
    }

    lemma HoldsNow(r: Registers, buf: seq<byte>, m: seq<byte>, n: nat)
      requires |buf| == BLOCK && n * BLOCK <= |m| < (n + 1) * BLOCK
      requires r == Fold(m, n) && buf[..|m| - n * BLOCK] == m[n * BLOCK..]
      ensures Holds(r, buf, m, n)
    {
    }

    // Less than a block: the bytes wait in the buffer.
    lemma StillHolds(r: Registers, buf0: seq<byte>, buf: seq<byte>, m: seq<byte>, n: nat, input: seq<byte>)
      requires Holds(r, buf0, m, n) && |m| - n * BLOCK + |input| < BLOCK
      requires buf == buf0[..|m| - n * BLOCK] + input + buf0[|m| - n * BLOCK + |input|..]
      ensures Holds(r, buf, m + input, n)
    {
      hide Transform;
      FoldPrefix(m, input, n);
      var k := |m| - n * BLOCK;
      assert buf[..k + |input|] == m[n * BLOCK..] + input;
      assert (m + input)[n * BLOCK..] == m[n * BLOCK..] + input;
    }

    // The buffer has been filled up.
    lemma BlockFull(r: Registers, buf0: seq<byte>, buf: seq<byte>, m: seq<byte>, n: nat, input: seq<byte>)
      requires Holds(r, buf0, m, n) && |m| - n * BLOCK + |input| >= BLOCK
      requires buf == buf0[..|m| - n * BLOCK] + input[..(n + 1) * BLOCK - |m|] + buf0[BLOCK..]
      ensures r == Fold(m + input, n)
      ensures buf == (m + input)[n * BLOCK..(n + 1) * BLOCK]
    {
      hide Transform;
      FoldPrefix(m, input, n);
      assert (m + input)[n * BLOCK..(n + 1) * BLOCK] == m[n * BLOCK..] + input[..(n + 1) * BLOCK - |m|];
    }

    lemma FoldOne(m: seq<byte>, n: nat, block: seq<byte>)
      requires (n + 1) * BLOCK <= |m| && block == m[n * BLOCK..(n + 1) * BLOCK]
      ensures Fold(m, n + 1) == Transform(Fold(m, n), block)
    {
      hide Transform;
    }

    lemma LengthBits(n: nat)
      ensures (n % WORDS) % BLOCK == n % BLOCK
    {
    }

    // The 0x80 byte and the zeros behind it; the block that is to hold the length is left in the buffer.
    method PadBlocks() returns (ghost n: nat)
      requires Valid()
      modifies state, buffer
      ensures |Padded(message)| == (n + 1) * BLOCK && state[..] == Fold(Padded(message), n)
      ensures Padded(message)[n * BLOCK..] == buffer[..56] + BitLength(|message|, 4) + [0, 0, 0, 0]
    {
      hide Transform, Padded, BitLength, LeBytes, WordBytes, Holds, Fold, Gap, Zeros;
      ghost var padded := Padded(message);
      n := |message| / BLOCK;
      ghost var tail := message[n * BLOCK..];
      WholeBlocks(message, n);
      LengthBits(|message|);
      FinalStarts(state[..], buffer[..], message, n);
      var buflen := length % BLOCK;
      buffer[buflen] := 0x80;
      buflen := buflen + 1;
      Fill(buflen, Zeros(BLOCK - buflen));
      assert buffer[..] == tail + [0x80] + Zeros(BLOCK - buflen);
      assert BLOCK - buflen == (n + 1) * BLOCK - 1 - |message|;
      if buflen > 56 {
        FirstOfTwo(message, n, buffer[..]);
        TransformBlock(buffer[..]);
        FoldOne(padded, n, buffer[..]);
        n := n + 1;
        Fill(0, Zeros(BLOCK));
        ZerosInFront(buffer[..]);
      } else {
        OnlyBlock(message, n, buffer[..]);
      }
    }

    lemma FirstOfTwo(m: seq<byte>, n: nat, buf: seq<byte>)
      requires n * BLOCK + 56 <= |m| < (n + 1) * BLOCK
      requires buf == m[n * BLOCK..] + [0x80] + Zeros((n + 1) * BLOCK - 1 - |m|)
      ensures |Padded(m)| == (n + 2) * BLOCK && buf == Padded(m)[n * BLOCK..(n + 1) * BLOCK]
      ensures Padded(m)[(n + 1) * BLOCK..] == Zeros(56) + BitLength(|m|, 4) + [0, 0, 0, 0]
    {
      hide Padded, BitLength, Zeros;
      PadTwoBlocks(m, n);
    }

    lemma OnlyBlock(m: seq<byte>, n: nat, buf: seq<byte>)
      requires n * BLOCK <= |m| < n * BLOCK + 56
      requires buf == m[n * BLOCK..] + [0x80] + Zeros((n + 1) * BLOCK - 1 - |m|)
      ensures |Padded(m)| == (n + 1) * BLOCK
      ensures Padded(m)[n * BLOCK..] == buf[..56] + BitLength(|m|, 4) + [0, 0, 0, 0]
    {
      hide Padded, BitLength;
      PadOneBlock(m, n);
      assert buf[..56] == m[n * BLOCK..] + [0x80] + Zeros(n * BLOCK + 55 - |m|);
    }

    lemma ZerosInFront(buf: seq<byte>)
      requires buf == Zeros(BLOCK)
      ensures buf[..56] == Zeros(56)
    {
    }

    /** `md5_final`: the digest of the message as this code pads it. */
    method Final() returns (digest: seq<byte>)
      requires Valid()
      modifies state, buffer
      ensures digest == Digest(Padded(message)) && |digest| == 16
      ensures |message| % 0x2000_0000_0000_0000 < 0x2000_0000 ==> digest == Md5(message)
    {
      hide Transform, Padded, BitLength, LeBytes, WordBytes, Holds, Fold, Rfc1321Padded;
      LowWord(|message|);
      ghost var n := PadBlocks();
      FinishBlock(Padded(message), n);
      digest := StateBytes(state[..]);
      PaddingIsRfc1321(message);
    }

    lemma FinalStarts(r: Registers, buf: seq<byte>, m: seq<byte>, n: nat)
      requires Holds(r, buf, m, n)
      ensures n * BLOCK <= |Padded(m)| && r == Fold(Padded(m), n)
      ensures |buf| == BLOCK && buf[..|m| - n * BLOCK] == m[n * BLOCK..]
    {
      hide Transform;
      FoldPrefix(m, Padded(m)[|m|..], n);
      assert m + Padded(m)[|m|..] == Padded(m);
    }

    // The length goes into the last eight bytes of the last block.
    method FinishBlock(ghost padded: seq<byte>, ghost n: nat)
      requires Shaped() && |padded| == (n + 1) * BLOCK && state[..] == Fold(padded, n)
      requires padded[n * BLOCK..] == buffer[..56] + LeBytes((8 * length) % WORDS, 4) + [0, 0, 0, 0]
      modifies state, buffer
      ensures state[..] == Fold(padded, |padded| / BLOCK)
    {
      hide Transform, LeBytes;
      Fill(56, LeBytes((8 * length) % WORDS, 4));
      Fill(60, [0, 0, 0, 0]);
      assert buffer[..] == padded[n * BLOCK..(n + 1) * BLOCK];
      TransformBlock(buffer[..]);
      FoldOne(padded, n, buffer[..]);
    }
  }
}
