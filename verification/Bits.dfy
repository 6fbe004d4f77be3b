/** Powers of two, which the C code tests with `(n - 1) & n`. */
module Bits {
  predicate IsPowerOfTwo(n: nat) {
    n == 1 || (n > 1 && n % 2 == 0 && IsPowerOfTwo(n / 2))
  }

  function Power(k: nat): (r: nat)
    ensures r >= 1
  {
    if k == 0 then 1 else 2 * Power(k - 1)
  }

  lemma {:induction false} IsPower(k: nat)
    ensures IsPowerOfTwo(Power(k))
  {
    if k > 0 {
      IsPower(k - 1);
      assert Power(k) / 2 == Power(k - 1);
    }
  }

  lemma {:induction false} Exponent(n: nat) returns (k: nat)
    requires IsPowerOfTwo(n)
    ensures n == Power(k)
  {
    if n == 1 {
      k := 0;
    } else {
      k := Exponent(n / 2);
      k := k + 1;
    }
  }

  lemma PowersOfTwo(n: nat)
    ensures IsPowerOfTwo(n) <==> exists k: nat :: n == Power(k)
  {
    if IsPowerOfTwo(n) {
      var k := Exponent(n);
    }
    forall k: nat ensures n == Power(k) ==> IsPowerOfTwo(n) {
      IsPower(k);
    }
  }
}
