/** The integers of the machine, and two stock definitions. */
module Common {
  type byte = x: int | 0 <= x < 0x100
  type word = x: int | 0 <= x < WORDS

  // An unsigned int, and an unsigned long, has 32 bits.
  const WORDS := 0x1_0000_0000

  datatype Option<T> = None | Some(value: T)

  function Min(a: int, b: int): (r: int)
    ensures r <= a && r <= b && (r == a || r == b)
  {
    if a <= b then a else b
  }

  lemma {:induction false} Multiples(k: nat, m: nat, a: nat)
    requires k < m
    ensures k * a + a <= m * a
  {
    if k + 1 < m {
      Multiples(k, m - 1, a);
    }
    assert (m - 1) * a + a == m * a;
  }

  lemma QuotientIs(n: nat, d: nat, q: nat, s: nat)
    requires d > 0 && s < d && n == q * d + s
    ensures n / d == q && n % d == s
  {
    var p := n / d;
    if p < q {
      Multiples(p, q, d);
    } else if p > q {
      Multiples(q, p, d);
    }
  }

  // The k low-order bytes of n, least significant first.
  function LeBytes(n: nat, k: nat): (r: seq<byte>)
    ensures |r| == k
  {
    if k == 0 then [] else [n % 0x100] + LeBytes(n / 0x100, k - 1)
  }

  function Max(a: int, b: int): (r: int)
    ensures r >= a && r >= b && (r == a || r == b)
  {
    if a <= b then b else a
  }
}
