/** Words of 32 bits as the machine computes with them, bit by bit and as numbers.

    The lemmas named Raw... are about single machine operations; the others put them together without
    looking at the bits again.
 */
module BitVectors {
  function And(x: bv32, y: bv32): bv32 { x & y }

  function Or(x: bv32, y: bv32): bv32 { x | y }

  function Xor(x: bv32, y: bv32): bv32 { x ^ y }

  function Not(x: bv32): bv32 { !x }

  function RotateLeft(x: bv32, n: bv32): bv32
    requires 0 < n < 32
  {
    (x << n) | (x >> (32 - n))
  }

  // ---------- Bits ----------

  function Mask(k: bv5): bv32 { 1 << k }

  /** Bit k, the least significant one being bit 0. */
  predicate Bit(x: bv32, k: bv5) {
    And(x, Mask(k)) != 0
  }

  lemma OneBit(x: bv32, k: bv5)
    ensures And(x, Mask(k)) == (if Bit(x, k) then Mask(k) else 0) && Mask(k) != 0
  {
  }

  lemma RawAnd(x: bv32, y: bv32, m: bv32)
    ensures x & m == m ==> (x & y) & m == y & m
    ensures x & m == 0 ==> (x & y) & m == 0
  {
  }

  lemma RawOr(x: bv32, y: bv32, m: bv32)
    ensures x & m == m ==> (x | y) & m == m
    ensures x & m == 0 ==> (x | y) & m == y & m
  {
  }

  lemma RawXorLeft(x: bv32, y: bv32, m: bv32)
    requires x & m == 0
    ensures (x ^ y) & m == y & m
  {
  }

  lemma RawXorRight(x: bv32, y: bv32, m: bv32)
    requires x & m == m && y & m == 0
    ensures (x ^ y) & m == m
  {
  }

  lemma RawXorBoth(x: bv32, y: bv32, m: bv32)
    requires x & m == m && y & m == m
    ensures (x ^ y) & m == 0
  {
  }

  lemma RawNot(x: bv32, m: bv32)
    ensures x & m == m ==> !x & m == 0
    ensures x & m == 0 ==> !x & m == m
  {
  }

  lemma MaskedAnd(x: bv32, y: bv32, m: bv32)
    ensures And(x, m) == m ==> And(And(x, y), m) == And(y, m)
    ensures And(x, m) == 0 ==> And(And(x, y), m) == 0
  {
    RawAnd(x, y, m);
  }

  lemma MaskedOr(x: bv32, y: bv32, m: bv32)
    ensures And(x, m) == m ==> And(Or(x, y), m) == m
    ensures And(x, m) == 0 ==> And(Or(x, y), m) == And(y, m)
  {
    RawOr(x, y, m);
  }

  lemma MaskedXorLeft(x: bv32, y: bv32, m: bv32)
    requires And(x, m) == 0
    ensures And(Xor(x, y), m) == And(y, m)
  {
    RawXorLeft(x, y, m);
  }

  lemma MaskedXorRight(x: bv32, y: bv32, m: bv32)
    requires And(x, m) == m && And(y, m) == 0
    ensures And(Xor(x, y), m) == m
  {
    RawXorRight(x, y, m);
  }

  lemma MaskedXorBoth(x: bv32, y: bv32, m: bv32)
    requires And(x, m) == m && And(y, m) == m
    ensures And(Xor(x, y), m) == 0
  {
    RawXorBoth(x, y, m);
  }

  lemma MaskedNot(x: bv32, m: bv32)
    ensures And(x, m) == m ==> And(Not(x), m) == 0
    ensures And(x, m) == 0 ==> And(Not(x), m) == m
  {
    RawNot(x, m);
  }

  /** The operations of the machine work on each bit by itself. */
  lemma Bitwise(x: bv32, y: bv32, k: bv5)
    ensures Bit(And(x, y), k) <==> Bit(x, k) && Bit(y, k)
    ensures Bit(Or(x, y), k) <==> Bit(x, k) || Bit(y, k)
    ensures Bit(Xor(x, y), k) <==> Bit(x, k) != Bit(y, k)
    ensures Bit(Not(x), k) <==> !Bit(x, k)
  {
    hide And, Or, Xor, Not, Mask;
    var m := Mask(k);
    OneBit(x, k);
    OneBit(y, k);
    MaskedAnd(x, y, m);
    MaskedOr(x, y, m);
    MaskedNot(x, m);
    if !Bit(x, k) {
      MaskedXorLeft(x, y, m);
    } else if !Bit(y, k) {
      MaskedXorRight(x, y, m);
    } else {
      MaskedXorBoth(x, y, m);
    }
  }

  // Bit k, shifted down to the place of bit 0.
  predicate LowBit(x: bv32, k: bv5) {
    (x >> k) & 1 == 1
  }

  lemma RawRotateHigh(x: bv32, n: bv32, k: bv5)
    requires 0 < n < 32 && k as bv32 >= n
    ensures (((x << n) | (x >> (32 - n))) >> k) & 1 == 1 <==> (x >> (k - n as bv5)) & 1 == 1
  {
  }

  lemma RawRotateLow(x: bv32, n: bv32, k: bv5)
    requires 0 < n < 32 && k as bv32 < n
    ensures (((x << n) | (x >> (32 - n))) >> k) & 1 == 1 <==> (x >> (k - n as bv5)) & 1 == 1
  {
  }

  lemma RotatedHigh(x: bv32, n: bv32, k: bv5)
    requires 0 < n < 32 && k as bv32 >= n
    ensures LowBit(RotateLeft(x, n), k) <==> LowBit(x, k - n as bv5)
  {
    RawRotateHigh(x, n, k);
  }

  lemma RotatedLow(x: bv32, n: bv32, k: bv5)
    requires 0 < n < 32 && k as bv32 < n
    ensures LowBit(RotateLeft(x, n), k) <==> LowBit(x, k - n as bv5)
  {
    RawRotateLow(x, n, k);
  }

  /** Bit k of the rotated word is bit k - n, modulo 32, of the word. */
  lemma RotatedBits(x: bv32, n: bv32, k: bv5)
    requires 0 < n < 32
    ensures LowBit(RotateLeft(x, n), k) <==> LowBit(x, k - n as bv5)
  {
    hide RotateLeft, LowBit;
    if k as bv32 >= n {
      RotatedHigh(x, n, k);
    } else {
      RotatedLow(x, n, k);
    }
  }

  // ---------- Numbers ----------

  /** The number that a word stands for. */
  function Number(w: bv32): nat {
    w as int
  }

  lemma WidenedChar(c: bv8)
    ensures (c as bv32) as int == c as int && c as bv32 <= 0xff
  {
  }

  lemma RawNibble(n: int)
    requires 0 <= n < 0x10
    ensures (n as bv4) as int == n
  {
  }

  lemma RawChar(high: bv4, low: bv4)
    ensures (((high as bv8) << 4) | (low as bv8)) as int == 0x10 * high as int + low as int
  {
  }

  lemma RawSame(n: int, c: bv8)
    requires 0 <= n < 0x100 && n == c as int
    ensures n as bv8 == c
  {
  }

  // A character made of its two hexadecimal digits.
  function Char(high: bv4, low: bv4): bv8 {
    ((high as bv8) << 4) | (low as bv8)
  }

  /** As a character, a number below 256 is itself. */
  lemma CharNumber(n: int)
    requires 0 <= n < 0x100
    ensures (n as bv8) as int == n
  {
    hide Char;
    RawNibble(n / 0x10);
    RawNibble(n % 0x10);
    var high, low := (n / 0x10) as bv4, (n % 0x10) as bv4;
    CharValue(high, low);
    RawSame(n, Char(high, low));
  }

  lemma CharValue(high: bv4, low: bv4)
    ensures Char(high, low) as int == 0x10 * high as int + low as int
  {
    RawChar(high, low);
  }

  function Byte0(w: bv32): bv32 { w & 0xff }

  function Byte1(w: bv32): bv32 { (w >> 8) & 0xff }

  function Byte2(w: bv32): bv32 { (w >> 16) & 0xff }

  function Byte3(w: bv32): bv32 { (w >> 24) & 0xff }

  function Low24(w: bv32): bv32 { w & 0xff_ffff }

  function Low16(w: bv32): bv32 { w & 0xffff }

  lemma RawTop(w: bv32)
    ensures w as int == ((w >> 24) & 0xff) as int * 0x100_0000 + (w & 0xff_ffff) as int
  {
  }

  lemma RawMiddle(w: bv32)
    ensures (w & 0xff_ffff) as int == ((w >> 16) & 0xff) as int * 0x1_0000 + (w & 0xffff) as int
  {
  }

  lemma RawLow(w: bv32)
    ensures (w & 0xffff) as int == ((w >> 8) & 0xff) as int * 0x100 + (w & 0xff) as int
  {
  }

  lemma SplitTop(w: bv32)
    ensures Number(w) == Number(Byte3(w)) * 0x100_0000 + Number(Low24(w))
  {
    RawTop(w);
  }

  lemma SplitMiddle(w: bv32)
    ensures Number(Low24(w)) == Number(Byte2(w)) * 0x1_0000 + Number(Low16(w))
  {
    RawMiddle(w);
  }

  lemma SplitLow(w: bv32)
    ensures Number(Low16(w)) == Number(Byte1(w)) * 0x100 + Number(Byte0(w))
  {
    RawLow(w);
  }

  lemma BytesSum(w: bv32)
    ensures Number(w) == Number(Byte3(w)) * 0x100_0000 + Number(Byte2(w)) * 0x1_0000
                         + Number(Byte1(w)) * 0x100 + Number(Byte0(w))
  {
    hide Number, Byte0, Byte1, Byte2, Byte3, Low24, Low16;
    SplitTop(w);
    SplitMiddle(w);
    SplitLow(w);
  }
}
