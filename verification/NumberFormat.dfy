/** The number printer and the number parsers of lib/vsprintf.c.  Strings end where the C string has its NUL;
    longs have 32 bits.
 */
module NumberFormat {
  import opened Common

  const LONG_LONG := 0x8000_0000_0000_0000

  const LOWER := "0123456789abcdefghijklmnopqrstuvwxyz"
  const UPPER := "0123456789ABCDEFGHIJKLMNOPQRSTUVWXYZ"

  const TMP_SIZE := 66

  datatype Flags = Flags(zeropad: bool, sign: bool, plus: bool, space: bool, left: bool, special: bool, large: bool)

  // ---------- What is printed ----------

  lemma UpperIs(d: nat)
    requires d < 36
    ensures UPPER[d] as int == if d < 10 then '0' as int + d else 'A' as int + (d - 10)
  {
  }

  lemma LowerIs(d: nat)
    requires d < 36
    ensures LOWER[d] as int == if d < 10 then '0' as int + d else 'a' as int + (d - 10)
  {
  }

  function Digit(d: nat, large: bool): char
    requires d < 36
  {
    if large then UPPER[d] else LOWER[d]
  }

  /** The digits of `n`, the most significant one first. */
  function Digits(n: nat, base: nat, large: bool): (r: string)
    requires 2 <= base <= 36
    ensures |r| > 0
  {
    if n < base then [Digit(n, large)] else Digits(n / base, base, large) + [Digit(n % base, large)]
  }

  function Repeat(c: char, n: int): (r: string)
    ensures |r| == if n > 0 then n else 0
    ensures forall i :: 0 <= i < |r| ==> r[i] == c
  {
    if n <= 0 then "" else Repeat(c, n - 1) + [c]
  }

  function SignOf(num: int, f: Flags): string {
    if !f.sign then ""
    else if num < 0 then "-"
    else if f.plus then "+"
    else if f.space then " "
    else ""
  }

  function Prefix(base: nat, f: Flags): string {
    if !f.special then ""
    else if base == 8 then "0"
    else if base == 16 then ['0', Digit(33, f.large)]
    else ""
  }

  function Abs(x: int): nat {
    if x < 0 then -x else x
  }

  /** The digits, with zeros in front up to the precision. */
  function Numeral(num: int, base: nat, precision: int, f: Flags): string
    requires 2 <= base <= 36
  {
    var digits := Digits(Abs(num), base, f.large);
    Repeat('0', precision - |digits|) + digits
  }

  /** A number in a field: flush right, filled up with zeros behind the sign, or flush left. */
  function Formatted(num: int, base: nat, size: int, precision: int, f: Flags): string
    requires 2 <= base <= 36
  {
    var sign := SignOf(num, f) + Prefix(base, f);
    var numeral := Numeral(num, base, precision, f);
    var fill := size - |sign| - |numeral|;
    if f.left then sign + numeral + Repeat(' ', fill)
    else if f.zeropad then sign + Repeat('0', fill) + numeral
    else Repeat(' ', fill) + sign + numeral
  }

  function Signed(minus: bool, n: nat): int {
    var m: int := n;
    if minus then -m else m
  }

  /** The field is as wide as asked for, unless the number needs more. */
  lemma FieldWidth(num: int, base: nat, size: int, precision: int, f: Flags)
    requires 2 <= base <= 36
    ensures |Formatted(num, base, size, precision, f)|
         == Max(size, |SignOf(num, f)| + |Prefix(base, f)| + Max(|Digits(Abs(num), base, f.large)|, precision))
  {
  }

  /** Large digits are capital letters, the others small ones. */
  lemma DigitIs(d: nat, large: bool)
    requires d < 36
    ensures Digit(d, large) as int ==
      if d < 10 then '0' as int + d else (if large then 'A' as int else 'a' as int) + (d - 10)
  {
    if large {
      UpperIs(d);
    } else {
      LowerIs(d);
    }
  }

  predicate IsDigitOf(c: char, large: bool) {
    '0' <= c <= '9' || (if large then 'A' <= c <= 'Z' else 'a' <= c <= 'z')
  }

  lemma {:induction false} DigitsAre(n: nat, base: nat, large: bool)
    requires 2 <= base <= 36
    ensures forall c :: c in Digits(n, base, large) ==> IsDigitOf(c, large)
  {
    hide Digit, IsDigitOf;
    if n < base {
      OneDigit(n, large);
    } else {
      OneDigit(n % base, large);
      DigitsAre(n / base, base, large);
      var front, last := Digits(n / base, base, large), [Digit(n % base, large)];
      forall c | c in front + last ensures IsDigitOf(c, large) {
        assert c in front || c in last;
      }
    }
  }

  lemma OneDigit(d: nat, large: bool)
    requires d < 36
    ensures IsDigitOf(Digit(d, large), large)
  {
    hide Digit;
    DigitIs(d, large);
  }

  /** A field has a plus sign in it exactly if one is asked for and the number is not negative, and a minus sign
      exactly if signs are asked for and it is. */
  lemma Signs(num: int, base: nat, size: int, precision: int, f: Flags)
    requires 2 <= base <= 36
    ensures '+' in Formatted(num, base, size, precision, f) <==> f.sign && f.plus && num >= 0
    ensures '-' in Formatted(num, base, size, precision, f) <==> f.sign && num < 0
  {
    hide Digits, Digit;
    DigitsAre(Abs(num), base, f.large);
    DigitIs(33, f.large);
    NoneIn(Prefix(base, f));
    NoneIn(Digits(Abs(num), base, f.large));
    SignIn(num, f);
  }

  lemma NoneIn(s: string)
    requires forall c :: c in s ==> c >= '0'
    ensures '+' !in s && '-' !in s
  {
  }

  lemma SignIn(num: int, f: Flags)
    ensures '+' in SignOf(num, f) <==> f.sign && f.plus && num >= 0
    ensures '-' in SignOf(num, f) <==> f.sign && num < 0
  {
    assert '+' in "+" && '-' in "-";
  }

  // ---------- What is parsed ----------

  predicate IsDigit(c: char) {
    '0' <= c <= '9'
  }

  predicate IsXDigit(c: char) {
    IsDigit(c) || 'a' <= c <= 'f' || 'A' <= c <= 'F'
  }

  // Counts only for hexadecimal digits.
  function DigitValue(c: char): (v: nat) {
    if IsDigit(c) then c as int - '0' as int
    else if 'a' <= c then c as int - 'a' as int + 10
    else if 'A' <= c then c as int - 'A' as int + 10
    else 0
  }

  predicate InBase(c: char, base: nat) {
    IsXDigit(c) && DigitValue(c) < base
  }

  /** The digits from `i` on. */
  function Span(s: string, i: nat, base: nat): (end: nat)
    requires i <= |s|
    ensures i <= end <= |s| && (end < |s| ==> !InBase(s[end], base))
    ensures forall k :: i <= k < end ==> InBase(s[k], base)
    decreases |s| - i
  {
    if i == |s| || !InBase(s[i], base) then i else Span(s, i + 1, base)
  }

  function Value(digits: string, base: nat): nat {
    if digits == "" then 0
    else var n := |digits| - 1; Value(digits[..n], base) * base + DigitValue(digits[n])
  }

  /** The base, and where the digits begin; base 0 is taken from the number itself. */
  function Lead(s: string, i: nat, base: nat): (r: (nat, nat))
    requires i <= |s|
    ensures i <= r.0 <= |s|
  {
    if base != 0 then (i, base)
    else if i == |s| || s[i] != '0' then (i, 10)
    else if i + 2 < |s| && s[i + 1] == 'x' && IsXDigit(s[i + 2]) then (i + 2, 16)
    else (i + 1, 8)
  }

  /** What `simple_strtoul` returns, and where it stops. */
  function ULong(s: string, i: nat, base: nat): (r: (word, nat))
    requires i <= |s|
    ensures r.1 <= |s|
  {
    var (start, b) := Lead(s, i, base);
    var end := Span(s, start, b);
    (Value(s[start..end], b) % WORDS, end)
  }

  /** What `simple_strtol` returns, modulo 2^32, and where it stops. */
  function Long(s: string, i: nat, base: nat): (r: (word, nat))
    requires i <= |s|
    ensures r.1 <= |s|
  {
    if i < |s| && s[i] == '-' then
      var (r, end) := ULong(s, i + 1, base);
      ((WORDS - r) % WORDS, end)
    else ULong(s, i, base)
  }

  lemma ValueStep(s: string, start: nat, end: nat, base: nat)
    requires start <= end <= |s|
    ensures Value(s[start..start], base) == 0
    ensures end < |s| ==> Value(s[start..end + 1], base) == Value(s[start..end], base) * base + DigitValue(s[end])
  {
    if end < |s| {
      assert s[start..end + 1][..end - start] == s[start..end];
    }
  }

  method SimpleStrToUl(s: string, cp: nat, base: nat) returns (result: word, end: nat)
    requires cp <= |s|
    ensures (result, end) == ULong(s, cp, base)
  {
    hide Value, DigitValue;
    var b := base;
    end := cp;
    if b == 0 {
      b := 10;
      if end < |s| && s[end] == '0' {
        b := 8;
        end := end + 1;
        if end < |s| && s[end] == 'x' && end + 1 < |s| && IsXDigit(s[end + 1]) {
          end := end + 1;
          b := 16;
        }
      }
    }
    ghost var start := end;
    assert (start, b) == Lead(s, cp, base);
    result := 0;
    ValueStep(s, start, start, b);
    while end < |s| && IsXDigit(s[end]) && DigitValue(s[end]) < b
      invariant start <= end <= |s| && Span(s, end, b) == Span(s, start, b)
      invariant result == Value(s[start..end], b) % WORDS
    {
      ValueStep(s, start, end, b);
      WrapStep(Value(s[start..end], b), b, DigitValue(s[end]));
      result := (result * b + DigitValue(s[end])) % WORDS;
      end := end + 1;
    }
  }

  // The product is cut to 32 bits at each step.
  lemma WrapStep(v: nat, base: nat, d: nat)
    ensures ((v % WORDS) * base + d) % WORDS == (v * base + d) % WORDS
  {
    var q := v / WORDS;
    assert v == q * WORDS + v % WORDS;
    assert v * base == (q * base) * WORDS + (v % WORDS) * base;
    SameRemainder((v % WORDS) * base + d, q * base);
  }

  lemma SameRemainder(x: int, k: int)
    ensures (x + k * WORDS) % WORDS == x % WORDS
  {
  }

  method SimpleStrToL(s: string, cp: nat, base: nat) returns (result: word, end: nat)
    requires cp <= |s|
    ensures (result, end) == Long(s, cp, base)
  {
    if cp < |s| && s[cp] == '-' {
      result, end := SimpleStrToUl(s, cp + 1, base);
      result := (WORDS - result) % WORDS;
      return;
    }
    result, end := SimpleStrToUl(s, cp, base);
  }

  // ---------- Reading back what was printed ----------

  predicate AllZeros(s: string) {
    forall i :: 0 <= i < |s| ==> s[i] == '0'
  }

  predicate AllBlank(s: string) {
    forall i :: 0 <= i < |s| ==> s[i] == ' '
  }

  /** The first character that is not blank. */
  function Start(s: string, i: nat): (r: nat)
    requires i <= |s|
    ensures i <= r <= |s| && (r < |s| ==> s[r] != ' ')
    ensures forall k :: i <= k < r ==> s[k] == ' '
    decreases |s| - i
  {
    if i == |s| || s[i] != ' ' then i else Start(s, i + 1)
  }

  lemma DigitBack(d: nat, large: bool)
    requires d < 16
    ensures IsXDigit(Digit(d, large)) && DigitValue(Digit(d, large)) == d
  {
  }

  predicate AllInBase(s: string, base: nat) {
    forall i :: 0 <= i < |s| ==> InBase(s[i], base)
  }

  lemma {:induction false} DigitsBack(n: nat, base: nat, large: bool)
    requires 2 <= base <= 16
    ensures Value(Digits(n, base, large), base) == n && AllInBase(Digits(n, base, large), base)
  {
    hide Digit, DigitValue, IsXDigit, Value, AllInBase, InBase;
    if n < base {
      NothingRead(base);
      OneMore("", n, base, large);
      assert "" + [Digit(n, large)] == [Digit(n, large)];
    } else {
      var (q, d) := (n / base, n % base);
      DigitsBack(q, base, large);
      OneMore(Digits(q, base, large), d, base, large);
      Division(n, base);
      assert Digits(n, base, large) == Digits(q, base, large) + [Digit(d, large)];
    }
  }

  lemma NothingRead(base: nat)
    ensures Value("", base) == 0 && AllInBase("", base)
  {
  }

  lemma Division(n: nat, base: nat)
    requires base > 0
    ensures n / base * base + n % base == n
  {
  }

  lemma OneMore(s: string, d: nat, base: nat, large: bool)
    requires d < base <= 16 && AllInBase(s, base)
    ensures Value(s + [Digit(d, large)], base) == Value(s, base) * base + d
    ensures AllInBase(s + [Digit(d, large)], base)
  {
    hide Digit, DigitValue, IsXDigit;
    DigitBack(d, large);
    ValueOfMore(s, Digit(d, large), base);
  }

  lemma ValueOfMore(s: string, c: char, base: nat)
    ensures Value("", base) == 0
    ensures Value(s + [c], base) == Value(s, base) * base + DigitValue(c)
  {
    assert (s + [c])[..|s|] == s;
  }

  lemma {:induction false} ZerosInFront(zeros: string, digits: string, base: nat)
    requires AllZeros(zeros)
    ensures Value(zeros + digits, base) == Value(digits, base)
    decreases |zeros| + |digits|
  {
    if digits != "" {
      var n := |digits| - 1;
      assert (zeros + digits)[..|zeros| + n] == zeros + digits[..n];
      ZerosInFront(zeros, digits[..n], base);
    } else if zeros != "" {
      var n := |zeros| - 1;
      assert (zeros + digits)[..n] == zeros[..n] + digits;
      ZerosInFront(zeros[..n], digits, base);
      assert Value(digits, base) == 0;
    }
  }

  lemma ZeroInBase(base: nat)
    ensures base > 0 ==> InBase('0', base)
    ensures !InBase(' ', base) && !InBase('-', base) && !InBase('+', base)
  {
  }

  // A numeral is read to its end and no further.
  lemma NumeralRead(front: string, zeros: string, n: nat, base: nat, large: bool, tail: string)
    requires 2 <= base <= 16 && AllZeros(zeros)
    requires tail == "" || !InBase(tail[0], base)
    ensures var s := front + zeros + Digits(n, base, large) + tail;
      ULong(s, |front|, base) == (n % WORDS, |s| - |tail|)
    ensures InBase((zeros + Digits(n, base, large))[0], base)
  {
    hide InBase, Digits, Value;
    var digits := zeros + Digits(n, base, large);
    var s := front + zeros + Digits(n, base, large) + tail;
    var end := |s| - |tail|;
    DigitsBack(n, base, large);
    ZeroInBase(base);
    ZerosInFront(zeros, Digits(n, base, large), base);
    assert s == front + digits + tail;
    assert s[|front|..end] == digits;
    assert forall k :: |front| <= k < end ==> s[k] == digits[k - |front|];
    assert end < |s| ==> s[end] == tail[0];
    assert Span(s, |front|, base) == end;
  }

  /** A base that is asked for, or told by the prefix; a zero in front is a prefix and also a digit. */
  predicate Recognised(prefix: string, asked: nat, base: nat) {
    || (prefix == "" && asked == base)
    || (prefix == "0" && base == 8 && (asked == 0 || asked == 8))
    || (prefix == "0x" && base == 16 && asked == 0)
  }

  lemma ZerosTogether(a: string, b: string, c: string, d: string, e: string)
    ensures a + (b + c) + d + e == a + b + c + d + e
  {
  }

  lemma PrefixRead(front: string, prefix: string, asked: nat, zeros: string, n: nat, base: nat, large: bool,
                   tail: string)
    requires 2 <= base <= 16 && AllZeros(zeros) && Recognised(prefix, asked, base)
    requires tail == "" || !InBase(tail[0], base)
    ensures var s := front + prefix + zeros + Digits(n, base, large) + tail;
      && ULong(s, |front|, asked) == (n % WORDS, |s| - |tail|)
      && s[|front|] != '-' && s[|front|] != ' '
  {
    hide Digits, Value, Span;
    var digits := zeros + Digits(n, base, large);
    var s := front + prefix + zeros + Digits(n, base, large) + tail;
    ZeroInBase(base);
    assert s == front + prefix + digits + tail;
    assert s[|front|] == (prefix + digits)[0];
    if prefix == "0" && asked == 8 {
      NumeralRead(front, prefix + zeros, n, base, large, tail);
      ZerosTogether(front, prefix, zeros, Digits(n, base, large), tail);
    } else {
      NumeralRead(front + prefix, zeros, n, base, large, tail);
      if prefix != "" {
        assert s[|front| + 1] == (prefix + digits)[1];
        assert prefix == "0x" ==> s[|front| + 2] == digits[0];
      }
      assert Lead(s, |front|, asked) == (|front + prefix|, base);
    }
  }

  // A number is read to its end, sign and prefix included.
  lemma NumberRead(front: string, minus: bool, prefix: string, asked: nat, zeros: string, n: nat, base: nat,
                   large: bool, tail: string)
    requires 2 <= base <= 16 && AllBlank(front) && AllZeros(zeros) && Recognised(prefix, asked, base)
    requires tail == "" || !InBase(tail[0], base)
    ensures var s := front + (if minus then "-" else "") + prefix + zeros + Digits(n, base, large) + tail;
      && Start(s, 0) == |front|
      && Long(s, |front|, asked) == (Signed(minus, n) % WORDS, |s| - |tail|)
  {
    hide InBase, Digits, Value, ULong, Recognised, AllZeros;
    var sign := if minus then "-" else "";
    var digits := prefix + zeros + Digits(n, base, large) + tail;
    var s := front + sign + prefix + zeros + Digits(n, base, large) + tail;
    PrefixRead(front + sign, prefix, asked, zeros, n, base, large, tail);
    assert s == front + sign + digits;
    assert s[|front|] == (sign + digits)[0];
    assert Start(s, 0) == |front|;
    Negated(n);
  }

  lemma Negated(n: nat)
    ensures (WORDS - n % WORDS) % WORDS == Signed(true, n) % WORDS
  {
    var q: int := n / WORDS;
    SameRemainder(WORDS - n % WORDS, -q - 1);
  }

  /** Where the number ends in its field. */
  function NumberEnd(num: int, base: nat, size: int, precision: int, f: Flags): nat
    requires 2 <= base <= 36
  {
    if f.left then |SignOf(num, f)| + |Prefix(base, f)| + |Numeral(num, base, precision, f)|
    else |Formatted(num, base, size, precision, f)|
  }

  /** A number without a plus sign and with a prefix that is recognised. */
  predicate Understood(num: int, base: nat, asked: nat, f: Flags) {
    SignOf(num, f) != "+" && Recognised(Prefix(base, f), asked, base)
  }

  lemma UnderstoodRead(num: int, base: nat, asked: nat, size: int, precision: int, f: Flags, rest: string)
    requires 2 <= base <= 16 && (f.sign || num >= 0) && Understood(num, base, asked, f)
    requires rest == "" || !InBase(rest[0], base)
    ensures var s := Formatted(num, base, size, precision, f) + rest;
      Long(s, Start(s, 0), asked) == (num % WORDS, NumberEnd(num, base, size, precision, f))
  {
    hide InBase, Digits, Long, Formatted, Start, Numeral, Abs, SignOf, NumberEnd, Around, Prefix, Signed, Recognised;
    SizeOf(num, base, size, precision, f);
    ZeroInBase(base);
    var (sign, prefix) := (SignOf(num, f), Prefix(base, f));
    var blank := if sign == " " then " " else "";
    var (front, zeros, tail) := Around(num, base, size, precision, f);
    Shape(num, base, size, precision, f);
    NumberRead(front + blank, sign == "-", prefix, asked, zeros, Abs(num), base, f.large, tail + rest);
    Regroup(front, sign, prefix, zeros, Digits(Abs(num), base, f.large), tail, rest);
  }

  /** A printed number is parsed, from the first character that is not blank, with its base or, if it has a prefix,
      with base 0.  This gives the number again modulo 2^32 and stops right behind its digits exactly when there is
      no plus sign and the prefix is recognised. */
  lemma RoundTrip(num: int, base: nat, asked: nat, size: int, precision: int, f: Flags, rest: string)
    requires 2 <= base <= 16 && (f.sign || num >= 0)
    requires asked == base || (asked == 0 && Prefix(base, f) != "")
    requires rest == "" || !InBase(rest[0], base)
    ensures var s := Formatted(num, base, size, precision, f) + rest;
      Long(s, Start(s, 0), asked) == (num % WORDS, NumberEnd(num, base, size, precision, f))
      <==> Understood(num, base, asked, f)
  {
    hide InBase, Digits, Long, Formatted, Start, NumberEnd, Around, Prefix, SignOf, Recognised;
    if Understood(num, base, asked, f) {
      UnderstoodRead(num, base, asked, size, precision, f, rest);
    } else if SignOf(num, f) == "+" {
      PlusIsNotRead(num, base, asked, size, precision, f, rest);
    } else {
      PrefixKinds(base, asked, f);
      PrefixIsNotRead(num, asked, size, precision, f, rest);
    }
  }

  // Only hexadecimal prefixes are not recognised.
  lemma PrefixKinds(base: nat, asked: nat, f: Flags)
    requires asked == base || (asked == 0 && Prefix(base, f) != "")
    requires !Recognised(Prefix(base, f), asked, base)
    ensures base == 16 && f.special && (asked == 16 || (asked == 0 && f.large))
  {
    assert LOWER[33] == 'x' && UPPER[33] == 'X';
    if f.special && base == 16 && !f.large {
      assert Prefix(base, f) == "0x";
    }
  }

  // The blanks in front of a number, the zeros behind its sign, and the blanks behind it.
  function Around(num: int, base: nat, size: int, precision: int, f: Flags): (r: (string, string, string))
    requires 2 <= base <= 36
    ensures AllBlank(r.0) && AllZeros(r.1) && AllBlank(r.2)
  {
    var digits := Digits(Abs(num), base, f.large);
    var zeros := Repeat('0', precision - |digits|);
    var fill := size - |SignOf(num, f) + Prefix(base, f)| - |zeros + digits|;
    if f.left then ("", zeros, Repeat(' ', fill))
    else if f.zeropad then ("", Repeat('0', fill) + zeros, "")
    else (Repeat(' ', fill), zeros, "")
  }

  lemma Shape(num: int, base: nat, size: int, precision: int, f: Flags)
    requires 2 <= base <= 36
    ensures var (front, zeros, tail) := Around(num, base, size, precision, f);
      Formatted(num, base, size, precision, f)
      == front + (SignOf(num, f) + Prefix(base, f)) + zeros + Digits(Abs(num), base, f.large) + tail
  {
    hide Digits, Abs, SignOf, Prefix, Repeat;
    var digits := Digits(Abs(num), base, f.large);
    var sign := SignOf(num, f) + Prefix(base, f);
    var zeros := Repeat('0', precision - |digits|);
    var fill := size - |sign| - |zeros + digits|;
    if f.left {
      assert sign + (zeros + digits) + Repeat(' ', fill) == "" + sign + zeros + digits + Repeat(' ', fill);
    } else if f.zeropad {
      assert sign + Repeat('0', fill) + (zeros + digits) == "" + sign + (Repeat('0', fill) + zeros) + digits + "";
    } else {
      assert Repeat(' ', fill) + sign + (zeros + digits) == Repeat(' ', fill) + sign + zeros + digits + "";
    }
  }

  lemma SizeOf(num: int, base: nat, size: int, precision: int, f: Flags)
    requires 2 <= base <= 36
    ensures NumberEnd(num, base, size, precision, f)
         == |Formatted(num, base, size, precision, f)| - |Around(num, base, size, precision, f).2|
    ensures SignOf(num, f) in ["", "-", "+", " "]
    ensures f.sign || num >= 0 ==> Signed(SignOf(num, f) == "-", Abs(num)) == num
  {
    hide Digits;
    assert "+"[0] != "-"[0] && " "[0] != "-"[0];
  }

  lemma Regroup(front: string, sign: string, prefix: string, zeros: string, digits: string, tail: string, rest: string)
    requires sign in ["", "-", " "]
    ensures front + (sign + prefix) + zeros + digits + tail + rest
         == (front + (if sign == " " then " " else "")) + (if sign == "-" then "-" else "")
            + prefix + zeros + digits + (tail + rest)
  {
    assert sign == (if sign == " " then " " else "") + (if sign == "-" then "-" else "");
  }

  /** A plus sign is not understood: nothing is read. */
  lemma PlusIsNotRead(num: int, base: nat, asked: nat, size: int, precision: int, f: Flags, rest: string)
    requires 2 <= base <= 16 && SignOf(num, f) == "+"
    ensures var s := Formatted(num, base, size, precision, f) + rest;
      Long(s, Start(s, 0), asked) == (0, Start(s, 0)) && Start(s, 0) < NumberEnd(num, base, size, precision, f)
  {
    hide Digits, Formatted, Abs, Around, SignOf, Prefix, NumberEnd, InBase;
    SizeOf(num, base, size, precision, f);
    Shape(num, base, size, precision, f);
    var (front, zeros, tail) := Around(num, base, size, precision, f);
    var more := Prefix(base, f) + zeros + Digits(Abs(num), base, f.large);
    assert Formatted(num, base, size, precision, f) == front + "+" + more + tail;
    assert Formatted(num, base, size, precision, f) + rest == front + "+" + (more + tail + rest);
    PlusRead(front, asked, more + tail + rest);
  }

  lemma PlusRead(front: string, asked: nat, more: string)
    requires AllBlank(front)
    ensures var s := front + "+" + more; Start(s, 0) == |front| && Long(s, |front|, asked) == (0, |front|)
  {
    var s := front + "+" + more;
    assert s[|front|] == '+';
    assert Start(s, 0) == |front|;
    assert s[|front|..|front|] == "";
  }

  /** Of a hexadecimal prefix only the zero is read when base 16 is asked for, and of 0X always. */
  lemma PrefixIsNotRead(num: int, asked: nat, size: int, precision: int, f: Flags, rest: string)
    requires f.special && SignOf(num, f) != "+" && (asked == 16 || (asked == 0 && f.large))
    ensures var s := Formatted(num, 16, size, precision, f) + rest;
      var end := Start(s, 0) + (if SignOf(num, f) == "-" then 2 else 1);
      Long(s, Start(s, 0), asked) == (0, end) && end < NumberEnd(num, 16, size, precision, f)
  {
    hide Digits, Formatted, Abs, Around, Start, Long, SignOf, Prefix, NumberEnd;
    SizeOf(num, 16, size, precision, f);
    Shape(num, 16, size, precision, f);
    HexPrefix(f);
    var sign := SignOf(num, f);
    var x := if f.large then 'X' else 'x';
    var (front, zeros, tail) := Around(num, 16, size, precision, f);
    var digits := Digits(Abs(num), 16, f.large);
    var blank := if sign == " " then " " else "";
    ZeroXRead(front + blank, sign == "-", x, asked, zeros + digits + (tail + rest));
    Regroup(front, sign, ['0', x], zeros, digits, tail, rest);
    Behind((front + blank) + (if sign == "-" then "-" else "") + ['0', x], zeros, digits, tail + rest);
  }

  lemma Behind(a: string, b: string, c: string, d: string)
    ensures a + b + c + d == a + (b + c + d)
  {
  }

  lemma HexPrefix(f: Flags)
    requires f.special
    ensures Prefix(16, f) == ['0', if f.large then 'X' else 'x']
  {
    assert LOWER[33] == 'x' && UPPER[33] == 'X';
  }

  lemma ZeroXRead(front: string, minus: bool, x: char, asked: nat, more: string)
    requires AllBlank(front) && (x == 'x' || x == 'X') && (asked == 16 || (asked == 0 && x == 'X'))
    ensures var s := front + (if minus then "-" else "") + ['0', x] + more;
      Start(s, 0) == |front| && Long(s, |front|, asked) == (0, |front| + if minus then 2 else 1)
  {
    hide Value, Span;
    var sign := if minus then "-" else "";
    var s := front + sign + ['0', x] + more;
    var k := |front| + |sign|;
    assert s[k] == '0' && s[k + 1] == x;
    assert s[|front|] != ' ';
    assert Start(s, 0) == |front|;
    OneZero(s, k, asked);
  }

  lemma OneZero(s: string, k: nat, asked: nat)
    requires k + 1 < |s| && s[k] == '0' && (s[k + 1] == 'x' || s[k + 1] == 'X')
    requires asked == 16 || (asked == 0 && s[k + 1] == 'X')
    ensures ULong(s, k, asked) == (0, k + 1)
  {
    var (start, base) := Lead(s, k, asked);
    assert Span(s, start, base) == k + 1;
    if asked == 0 {
      assert s[start..k + 1] == "";
    } else {
      assert s[start..k + 1] == "" + ['0'];
      ValueOfMore("", '0', base);
    }
  }

  // ---------- The printer ----------

  // `now` is `was` with `text` written at `at`.
  ghost predicate Written(was: string, now: string, at: nat, text: string) {
    && at + |text| <= |was| == |now|
    && now[at..at + |text|] == text
    && (forall i :: 0 <= i < |was| && !(at <= i < at + |text|) ==> now[i] == was[i])
  }

  lemma WrittenMore(was: string, now: string, after: string, at: nat, text: string, more: string)
    requires Written(was, now, at, text) && Written(now, after, at + |text|, more)
    ensures Written(was, after, at, text + more)
  {
    var end := at + |text|;
    assert after[at..end + |more|] == after[at..end] + after[end..end + |more|];
    assert after[at..end] == now[at..end];
  }

  method PutChar(buf: array<char>, str: nat, c: char) returns (end: nat)
    requires str < buf.Length
    modifies buf
    ensures end == str + 1 && Written(old(buf[..]), buf[..], str, [c])
  {
    buf[str] := c;
    end := str + 1;
  }

  // Writes a character as often as there is room in the field, and returns what the counter is then.
  method Fill(buf: array<char>, str: nat, c: char, size: int) returns (end: nat, left: int)
    requires str + |Repeat(c, size)| <= buf.Length
    modifies buf
    ensures end == str + |Repeat(c, size)| && Written(old(buf[..]), buf[..], str, Repeat(c, size))
    ensures left < 0 && (size <= 0 ==> left == size - 1)
  {
    end, left := str, size;
    ghost var text := "";
    while left > 0
      invariant size <= 0 ==> left == size
      invariant size > 0 ==> 0 <= left <= size
      invariant end == str + |text| && text == Repeat(c, size - left)
      invariant Written(old(buf[..]), buf[..], str, text)
    {
      ghost var now := buf[..];
      end := PutChar(buf, end, c);
      WrittenMore(old(buf[..]), now, buf[..], str, text, [c]);
      text := text + [c];
      left := left - 1;
    }
    left := left - 1;
  }

  function Reversed(s: string): (r: string)
    ensures |r| == |s|
  {
    if s == "" then "" else [s[|s| - 1]] + Reversed(s[..|s| - 1])
  }

  // The digits, the least significant one first.
  method PutDigits(tmp: array<char>, num: nat, base: nat, large: bool) returns (i: nat)
    requires 2 <= base <= 36 && num < LONG_LONG && tmp.Length == TMP_SIZE
    modifies tmp
    ensures 0 < i <= tmp.Length && Reversed(tmp[..i]) == Digits(num, base, large)
  {
    hide Digits, Digit, Reversed, Remaining;
    i := 0;
    DigitsFit(num, base, large);
    DigitsStep(num, base, large);
    ReversedMore("", '0');
    if num == 0 {
      tmp[0] := '0';
      i := 1;
      assert tmp[..1] == "" + ['0'];
      return;
    }
    var n: nat := num;
    RemainingAll(num, base, large);
    while n != 0
      invariant i + |Remaining(n, base, large)| == |Digits(num, base, large)|
      invariant Remaining(n, base, large) + Reversed(tmp[..i]) == Digits(num, base, large)
    {
      ghost var was := tmp[..i];
      DigitsStep(n, base, large);
      tmp[i] := Digit(n % base, large);
      assert tmp[..i + 1] == was + [tmp[i]];
      ReversedMore(was, tmp[i]);
      i := i + 1;
      n := n / base;
    }
    RemainingAll(0, base, large);
  }

  lemma RemainingAll(n: nat, base: nat, large: bool)
    requires 2 <= base <= 36
    ensures n > 0 ==> Remaining(n, base, large) + Reversed("") == Digits(n, base, large)
    ensures n > 0 ==> Remaining(n, base, large) == Digits(n, base, large)
    ensures Remaining(0, base, large) == ""
  {
  }

  lemma ReversedMore(s: string, c: char)
    ensures Reversed("") == "" && Reversed(s + [c]) == [c] + Reversed(s)
  {
    assert (s + [c])[..|s|] == s;
  }

  ghost function Pow2(n: nat): nat {
    if n == 0 then 1 else 2 * Pow2(n - 1)
  }

  lemma SevenMore(n: nat)
    ensures Pow2(n + 7) == 128 * Pow2(n)
  {
    assert Pow2(n + 2) == 4 * Pow2(n);
    assert Pow2(n + 4) == 4 * Pow2(n + 2);
    assert Pow2(n + 6) == 4 * Pow2(n + 4);
  }

  lemma Pow2OfLongLong()
    ensures Pow2(63) == LONG_LONG
  {
    hide Pow2;
    assert Pow2(0) == 1 by { Pow2OfNone(); }
    SevenMore(0);
    SevenMore(7);
    SevenMore(14);
    SevenMore(21);
    SevenMore(28);
    SevenMore(35);
    SevenMore(42);
    SevenMore(49);
    SevenMore(56);
  }

  lemma Pow2OfNone()
    ensures Pow2(0) == 1
  {
  }

  // `tmp` is large enough.
  lemma DigitsFit(n: nat, base: nat, large: bool)
    requires 2 <= base <= 36 && n < LONG_LONG
    ensures |Digits(n, base, large)| <= TMP_SIZE
  {
    hide Pow2, Digits;
    Pow2OfLongLong();
    DigitCount(n, base, large, 63);
  }

  lemma {:induction false} DigitCount(n: nat, base: nat, large: bool, k: nat)
    requires 2 <= base <= 36 && n < Pow2(k) && k > 0
    ensures |Digits(n, base, large)| <= k
  {
    hide Digit;
    if n >= base {
      Halves(n, base);
      DigitCount(n / base, base, large, k - 1);
    }
  }

  lemma Halves(n: nat, base: nat)
    requires base >= 2
    ensures n / base * 2 <= n
  {
    Division(n, base);
    assert n / base * 2 <= n / base * base;
  }

  lemma DigitsStep(n: nat, base: nat, large: bool)
    requires 2 <= base <= 36
    ensures 0 <= n / base <= n && Digits(0, base, large) == "0"
    ensures n > 0 ==>
      n / base < n
      && Remaining(n, base, large) == Remaining(n / base, base, large) + [Digit(n % base, large)]
  {
    hide Digit;
    Halves(n, base);
    ZeroDigit(base, large);
    if 0 < n < base {
      Below(n, base);
      assert Remaining(n, base, large) == "" + [Digit(n % base, large)];
    }
  }

  lemma ZeroDigit(base: nat, large: bool)
    requires 2 <= base <= 36
    ensures Digits(0, base, large) == "0"
  {
  }

  lemma Below(n: nat, base: nat)
    requires n < base
    ensures n / base == 0 && n % base == n
  {
  }

  // The digits still to be stored.
  function Remaining(n: nat, base: nat, large: bool): string
    requires 2 <= base <= 36
  {
    if n == 0 then "" else Digits(n, base, large)
  }

  // Blanks in front, the sign and the prefix.
  function FrontText(sign: string, prefix: string, fill: int, f: Flags): string {
    Blanks(fill, f) + sign + prefix
  }

  // Zeros, the digits, and blanks behind; `left` is what is left of the fill.
  function BackText(left: int, zeros: int, digits: string, f: Flags): string {
    ZerosLeft(left, f) + Repeat('0', zeros) + digits + BlanksLeft(left, f)
  }

  function ZerosLeft(left: int, f: Flags): string {
    if f.left then "" else Repeat('0', left)
  }

  function BlanksLeft(left: int, f: Flags): string {
    if f.left then Repeat(' ', left) else ""
  }

  lemma BackSize(left: int, zeros: int, digits: string, f: Flags)
    ensures |BackText(left, zeros, digits, f)|
         == |ZerosLeft(left, f)| + |Repeat('0', zeros)| + |digits| + |BlanksLeft(left, f)|
    ensures BackText(left, zeros, digits, f) == ZerosLeft(left, f) + Repeat('0', zeros) + digits + BlanksLeft(left, f)
  {
  }

  lemma FillsOf(left: int, c: char, f: Flags)
    requires c == if f.zeropad then '0' else ' '
    requires f.left || f.zeropad || left < 0
    ensures if f.left then ZerosLeft(left, f) == "" else ZerosLeft(left, f) == Repeat(c, left)
    ensures if f.left then BlanksLeft(left, f) == Repeat(' ', left) else BlanksLeft(left, f) == ""
  {
  }

  lemma TextParts(num: int, base: nat, size: int, precision: int, f: Flags, left: int)
    requires 2 <= base <= 36
    requires var digits := Digits(Abs(num), base, f.large);
      var fill := size - |SignOf(num, f)| - |Prefix(base, f)| - Max(|digits|, precision);
      if f.left || f.zeropad then left == fill else left < 0
    ensures var digits := Digits(Abs(num), base, f.large);
      var fill := size - |SignOf(num, f)| - |Prefix(base, f)| - Max(|digits|, precision);
      Formatted(num, base, size, precision, f)
      == FrontText(SignOf(num, f), Prefix(base, f), fill, f)
         + BackText(left, Max(|digits|, precision) - |digits|, digits, f)
  {
    hide Digits, Repeat, Abs, SignOf, Prefix, Blanks, ZerosLeft, BlanksLeft;
    var digits := Digits(Abs(num), base, f.large);
    var sign := SignOf(num, f);
    var prefix := Prefix(base, f);
    var fill := size - |sign| - |prefix| - Max(|digits|, precision);
    var zeros := Repeat('0', precision - |digits|);
    SameZeros(precision, |digits|);
    SizeOfZeros(precision, digits);
    assert |sign + prefix| == |sign| + |prefix|;
    BlanksOf(fill, f);
    FillsOf(left, if f.zeropad then '0' else ' ', f);
    FillsNothing(left);
    Rearranged(Blanks(fill, f), sign, prefix, ZerosLeft(left, f), zeros, digits, BlanksLeft(left, f));
    if f.left {
      Unite("", sign + prefix, "", zeros + digits, Repeat(' ', fill));
    } else if f.zeropad {
      Unite("", sign + prefix, Repeat('0', fill), zeros + digits, "");
    } else {
      NothingNegative(left);
      Unite(Repeat(' ', fill), sign + prefix, "", zeros + digits, "");
    }
  }

  lemma NothingNegative(left: int)
    ensures left <= 0 ==> Repeat('0', left) == Repeat(' ', left) == ""
  {
  }

  lemma SizeOfZeros(precision: int, digits: string)
    ensures |Repeat('0', precision - |digits|) + digits| == Max(|digits|, precision)
  {
  }

  lemma Rearranged(a: string, b: string, c: string, d: string, e: string, f: string, g: string)
    ensures (a + b + c) + (d + e + f + g) == a + (b + c) + d + (e + f) + g
  {
  }

  lemma Unite(a: string, b: string, c: string, d: string, e: string)
    ensures a == "" && c == "" ==> a + b + c + d + e == b + d + e
    ensures a == "" && e == "" ==> a + b + c + d + e == b + c + d
    ensures c == "" && e == "" ==> a + b + c + d + e == a + b + d
  {
  }

  lemma SameZeros(precision: int, count: nat)
    ensures Repeat('0', Max(count, precision) - count) == Repeat('0', precision - count)
  {
  }

  lemma WrittenNothing(was: string, at: nat)
    requires at <= |was|
    ensures Written(was, was, at, "")
  {
  }

  function SignText(sign: char): string {
    if sign == '\0' then "" else [sign]
  }

  method PutSign(buf: array<char>, str: nat, sign: char) returns (end: nat)
    requires str + |SignText(sign)| <= buf.Length
    modifies buf
    ensures end == str + |SignText(sign)| && Written(old(buf[..]), buf[..], str, SignText(sign))
  {
    end := str;
    if sign != '\0' {
      end := PutChar(buf, end, sign);
    }
  }

  method PutPrefix(buf: array<char>, str: nat, base: nat, f: Flags) returns (end: nat)
    requires str + |Prefix(base, f)| <= buf.Length
    modifies buf
    ensures end == str + |Prefix(base, f)| && Written(old(buf[..]), buf[..], str, Prefix(base, f))
  {
    hide Written, Digit;
    end := str;
    WrittenNothing(buf[..], str);
    if f.special {
      if base == 8 {
        end := PutChar(buf, end, '0');
      } else if base == 16 {
        end := PutChar(buf, end, '0');
        ghost var now := buf[..];
        end := PutChar(buf, end, Digit(33, f.large));
        WrittenMore(old(buf[..]), now, buf[..], str, ['0'], [Digit(33, f.large)]);
        assert ['0'] + [Digit(33, f.large)] == Prefix(base, f);
      }
    }
  }

  function Blanks(fill: int, f: Flags): string {
    if f.left || f.zeropad then "" else Repeat(' ', fill)
  }

  // Blanks if the number stands flush right, the sign, and the prefix of SPECIAL.
  method PutFront(buf: array<char>, str: nat, sign: char, base: nat, size: int, f: Flags)
    returns (end: nat, left: int)
    requires str + |FrontText(SignText(sign), Prefix(base, f), size, f)| <= buf.Length
    modifies buf
    ensures var text := FrontText(SignText(sign), Prefix(base, f), size, f);
      end == str + |text| && Written(old(buf[..]), buf[..], str, text)
    ensures if f.left || f.zeropad then left == size else left < 0
  {
    hide Repeat, Written, Prefix, SignText, FrontText, Blanks;
    FrontSize(SignText(sign), Prefix(base, f), size, f);
    BlanksOf(size, f);
    end, left := str, size;
    WrittenNothing(buf[..], str);
    if !(f.zeropad || f.left) {
      end, left := Fill(buf, end, ' ', left);
    }
    ghost var now := buf[..];
    end := PutSign(buf, end, sign);
    WrittenMore(old(buf[..]), now, buf[..], str, Blanks(size, f), SignText(sign));
    now := buf[..];
    end := PutPrefix(buf, end, base, f);
    WrittenMore(old(buf[..]), now, buf[..], str, Blanks(size, f) + SignText(sign), Prefix(base, f));
  }

  lemma BlanksOf(size: int, f: Flags)
    ensures if f.left || f.zeropad then Blanks(size, f) == "" else Blanks(size, f) == Repeat(' ', size)
  {
  }

  lemma FrontSize(sign: string, prefix: string, size: int, f: Flags)
    ensures FrontText(sign, prefix, size, f) == Blanks(size, f) + sign + prefix
    ensures |FrontText(sign, prefix, size, f)| == |Blanks(size, f)| + |sign| + |prefix|
  {
  }

  // Writes the first characters of `tmp`, the last one first.
  method PutReversed(buf: array<char>, str: nat, tmp: array<char>, count: nat) returns (end: nat)
    requires count <= tmp.Length && str + count <= buf.Length && buf != tmp
    modifies buf
    ensures end == str + count && Written(old(buf[..]), buf[..], str, Reversed(tmp[..count]))
  {
    hide Written;
    end := str;
    var i := count;
    ghost var text := "";
    WrittenNothing(buf[..], str);
    while i > 0
      invariant 0 <= i <= count && end == str + |text| && |text| == count - i
      invariant text + Reversed(tmp[..i]) == Reversed(tmp[..count])
      invariant Written(old(buf[..]), buf[..], str, text)
    {
      i := i - 1;
      ghost var now := buf[..];
      assert tmp[..i + 1][..i] == tmp[..i];
      end := PutChar(buf, end, tmp[i]);
      WrittenMore(old(buf[..]), now, buf[..], str, text, [tmp[i]]);
      text := text + [tmp[i]];
    }
    assert text == text + Reversed(tmp[..0]);
  }

  // The zeros of the field and of the precision.
  method PutZeros(buf: array<char>, str: nat, zeros: int, size: int, f: Flags) returns (end: nat, left: int)
    requires f.left || f.zeropad || size < 0
    requires str + |ZerosLeft(size, f)| + |Repeat('0', zeros)| <= buf.Length
    modifies buf
    ensures var text := ZerosLeft(size, f) + Repeat('0', zeros);
      end == str + |text| && Written(old(buf[..]), buf[..], str, text)
    ensures Repeat(' ', left) == BlanksLeft(size, f)
  {
    hide Repeat, Written, ZerosLeft, BlanksLeft;
    left := size;
    end := str;
    var c := if f.zeropad then '0' else ' ';
    FillsOf(size, c, f);
    WrittenNothing(buf[..], str);
    if !f.left {
      end, left := Fill(buf, end, c, left);
      FillsNothing(left);
    }
    ghost var now := buf[..];
    var rest;
    end, rest := Fill(buf, end, '0', zeros);
    WrittenMore(old(buf[..]), now, buf[..], str, ZerosLeft(size, f), Repeat('0', zeros));
  }

  method PutBack(buf: array<char>, str: nat, tmp: array<char>, i: nat, precision: int, size: int, f: Flags)
    returns (end: nat)
    requires i <= tmp.Length && buf != tmp && (f.left || f.zeropad || size < 0)
    requires str + |BackText(size, precision - i, Reversed(tmp[..i]), f)| <= buf.Length
    modifies buf
    ensures var text := BackText(size, precision - i, old(Reversed(tmp[..i])), f);
      end == str + |text| && Written(old(buf[..]), buf[..], str, text)
  {
    hide Repeat, Written, Reversed, BackText, ZerosLeft, BlanksLeft;
    ghost var digits := Reversed(tmp[..i]);
    BackSize(size, precision - i, digits, f);
    var left;
    end, left := PutZeros(buf, str, precision - i, size, f);
    ghost var text := ZerosLeft(size, f) + Repeat('0', precision - i);
    ghost var now := buf[..];
    end := PutReversed(buf, end, tmp, i);
    WrittenMore(old(buf[..]), now, buf[..], str, text, digits);
    now := buf[..];
    end, left := Fill(buf, end, ' ', left);
    WrittenMore(old(buf[..]), now, buf[..], str, text + digits, BlanksLeft(size, f));
  }

  lemma FillsNothing(left: int)
    ensures left <= 0 ==> Repeat(' ', left) == ""
  {
  }

  // The sign, the number without it, and the width that they and the prefix leave.
  method TakeSign(num: int, base: nat, size: int, f: Flags) returns (sign: char, n: nat, left: int)
    requires -LONG_LONG < num < LONG_LONG && (f.sign || num >= 0)
    ensures SignText(sign) == SignOf(num, f) && n == Abs(num) && n < LONG_LONG
    ensures left == size - |SignOf(num, f)| - |Prefix(base, f)|
  {
    sign, left := '\0', size;
    var m := num;
    if f.sign {
      if num < 0 {
        sign, m, left := '-', -num, left - 1;
      } else if f.plus {
        sign, left := '+', left - 1;
      } else if f.space {
        sign, left := ' ', left - 1;
      }
    }
    n := m;
    if f.special {
      if base == 16 {
        left := left - 2;
      } else if base == 8 {
        left := left - 1;
      }
    }
  }

  /** `number`: the field is written at `str`, nothing else changes, and the end of it is returned. */
  method Number(buf: array<char>, str: nat, num: int, base: int, size: int, precision: int, flags: Flags)
    returns (end: Option<nat>)
    requires -LONG_LONG < num < LONG_LONG && (flags.sign || num >= 0)
    requires 2 <= base <= 36 ==> str + |Formatted(num, base, size, precision, flags)| <= buf.Length
    modifies buf
    ensures 2 <= base <= 36 ==>
      var text := Formatted(num, base, size, precision, flags);
      end == Some(str + |text|) && Written(old(buf[..]), buf[..], str, text)
    ensures !(2 <= base <= 36) ==> end == None && buf[..] == old(buf[..])
  {
    hide Digits, Digit, Formatted, Written, Repeat, Reversed, FrontText, BackText, SignText, SignOf, Prefix, Abs;
    if base < 2 || base > 36 {
      return None;
    }
    var f := if flags.left then flags.(zeropad := false) else flags;
    var sign, n, left := TakeSign(num, base, size, f);
    var tmp := new char[TMP_SIZE];
    var i := PutDigits(tmp, n, base, f.large);
    var zeros := if i > precision then i else precision;
    left := left - zeros;
    ghost var fill := left;
    LeftClearsZeropad(num, base, size, precision, flags);
    TextParts(num, base, size, precision, f, if f.left || f.zeropad then fill else -1);
    ghost var was := buf[..];
    var at;
    at, left := PutFront(buf, str, sign, base, left, f);
    TextParts(num, base, size, precision, f, left);
    ghost var now := buf[..];
    var e := PutBack(buf, at, tmp, i, zeros, left, f);
    WrittenMore(was, now, buf[..], str, FrontText(SignText(sign), Prefix(base, f), fill, f),
                BackText(left, zeros - i, Digits(n, base, f.large), f));
    end := Some(e);
  }

  lemma LeftClearsZeropad(num: int, base: nat, size: int, precision: int, f: Flags)
    requires 2 <= base <= 36
    ensures f.left ==>
      Formatted(num, base, size, precision, f.(zeropad := false)) == Formatted(num, base, size, precision, f)
  {
    hide Repeat, Digits, Digit;
    var g := f.(zeropad := false);
    assert Prefix(base, g) == Prefix(base, f) && SignOf(num, g) == SignOf(num, f);
    assert Numeral(num, base, precision, g) == Numeral(num, base, precision, f);
  }
}
