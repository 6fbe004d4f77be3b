/** `md5_password` of second/md5.c: makes a password entry "$1$salt$digest", or checks a password
    against one.
 */
module Md5Crypt {
  import opened Bits
  import opened Common
  import opened Md5
  import StrStr

  const DOLLAR: byte := 0x24
  const HEADER := 3 // "$1$"
  const ENCODED := 22

  type Digest16 = d: seq<byte> | |d| == 16 witness [0, 0, 0, 0, 0, 0, 0, 0, 0, 0, 0, 0, 0, 0, 0, 0]

  // What md5_init, md5_update and md5_final compute.
  function Hash(m: seq<byte>): Digest16 {
    Digest(Padded(m))
  }

  // ---------- The digest of a password ----------

  // n bytes of the digest, over and over.
  function Tiled(d: Digest16, n: nat): seq<byte> {
    if n > 16 then d + Tiled(d, n - 16) else d[..n]
  }

  // One byte for each binary digit of n, the lowest first: NUL for a 1, the first byte of the key for a 0.
  function Digits(key: seq<byte>, n: nat): seq<byte>
    requires n > 0 ==> key != []
  {
    if n == 0 then [] else [if n % 2 == 1 then 0 else key[0]] + Digits(key, n / 2)
  }

  lemma DigitsStep(key: seq<byte>, n: nat)
    requires n > 0 ==> key != []
    ensures Digits(key, 0) == []
    ensures n > 0 ==> Digits(key, n) == [if n % 2 == 1 then 0 else key[0]] + Digits(key, n / 2)
  {
  }

  lemma {:induction false} TiledAt(d: Digest16, n: nat, k: nat)
    requires k < n
    ensures |Tiled(d, n)| == n && Tiled(d, n)[k] == d[k % 16]
  {
    if n > 16 {
      TiledAt(d, n - 16, if k < 16 then 0 else k - 16);
      if k >= 16 {
        assert k % 16 == (k - 16) % 16;
      }
    }
  }

  lemma {:induction false} DigitsAt(key: seq<byte>, n: nat, k: nat)
    requires n > 0 && key != []
    requires k < |Digits(key, n)|
    ensures Power(k) <= n < Power(|Digits(key, n)|)
    ensures Digits(key, n)[k] == if n / Power(k) % 2 == 1 then 0 else key[0]
  {
    var half := n / 2;
    DigitsStep(key, n);
    DigitsStep(key, half);
    if half == 0 {
      assert Power(1) == 2 * Power(0);
    } else {
      DigitsAt(key, half, if k == 0 then 0 else k - 1);
      if k > 0 {
        DivTwice(n, Power(k - 1));
        assert Digits(key, n)[k] == Digits(key, half)[k - 1];
      }
    }
  }

  lemma DivTwice(n: nat, p: nat)
    requires p > 0
    ensures n / (2 * p) == n / 2 / p
  {
    var q, r := n / 2 / p, n / 2 % p;
    assert n / 2 == q * p + r;
    var s := n - 2 * (q * p);
    assert 0 <= s < 2 * p && n == q * (2 * p) + s;
    QuotientIs(n, 2 * p, q, s);
  }

  function FirstDigest(key: seq<byte>, header: seq<byte>, salt: seq<byte>): Digest16 {
    Hash(key + header + salt + Tiled(Hash(key + salt + key), |key|) + Digits(key, |key|))
  }

  function NextDigest(key: seq<byte>, salt: seq<byte>, i: nat, d: Digest16): Digest16 {
    Hash((if i % 2 != 0 then key else d)
         + (if i % 3 != 0 then salt else [])
         + (if i % 7 != 0 then key else [])
         + (if i % 2 != 0 then d else key))
  }

  ghost predicate Divides(k: nat, i: nat) {
    exists q: nat :: i == q * k
  }

  lemma DividesMeans(k: nat, i: nat)
    requires k == 2 || k == 3 || k == 7
    ensures Divides(k, i) <==> i % k == 0
  {
    var q: nat := i / k;
    if k == 2 {
      assert i % 2 == 0 ==> i == q * 2;
    } else if k == 3 {
      assert i % 3 == 0 ==> i == q * 3;
    } else {
      assert i % 7 == 0 ==> i == q * 7;
    }
  }

  /** Even rounds hash the old digest and then the key, odd ones the key and then the old digest; in between comes
      the salt, but for every third round, and the key, but for every seventh. */
  lemma RoundMessage(key: seq<byte>, salt: seq<byte>, i: nat, d: Digest16)
    ensures
      var middle := (if Divides(3, i) then [] else salt) + (if Divides(7, i) then [] else key);
      NextDigest(key, salt, i, d) == Hash(if Divides(2, i) then d + middle + key else key + middle + d)
  {
    hide Hash;
    DividesMeans(2, i);
    DividesMeans(3, i);
    DividesMeans(7, i);
    var a, b := if i % 3 != 0 then salt else [], if i % 7 != 0 then key else [];
    assert d + (a + b) + key == d + a + b + key;
    assert key + (a + b) + d == key + a + b + d;
  }

  function CryptDigest(key: seq<byte>, header: seq<byte>, salt: seq<byte>, rounds: nat): Digest16 {
    if rounds == 0 then FirstDigest(key, header, salt)
    else NextDigest(key, salt, rounds - 1, CryptDigest(key, header, salt, rounds - 1))
  }

  // ---------- The encoding of a digest ----------

  // b64t: "./0123456789ABC...Zabc...z"
  function Base64(v: nat): (c: byte)
    requires v < 64
    ensures c != 0
  {
    if v < 12 then 0x2e + v else if v < 38 then 0x41 + (v - 12) else 0x61 + (v - 38)
  }

  const ROW1 := "./0123456789ABCD"
  const ROW2 := "EFGHIJKLMNOPQRST"
  const ROW3 := "UVWXYZabcdefghij"
  const ROW4 := "klmnopqrstuvwxyz"
  const ALPHABET := ROW1 + ROW2 + ROW3 + ROW4

  lemma FirstRow(n: nat)
    requires n < 16
    ensures Base64(n) == ROW1[n] as int && Base64(16 + n) == ROW2[n] as int
  {
  }

  lemma LastRow(n: nat)
    requires n < 16
    ensures Base64(32 + n) == ROW3[n] as int && Base64(48 + n) == ROW4[n] as int
  {
  }

  lemma AlphabetRows(n: nat)
    requires n < 16
    ensures |ALPHABET| == 64
    ensures ALPHABET[n] == ROW1[n] && ALPHABET[16 + n] == ROW2[n]
    ensures ALPHABET[32 + n] == ROW3[n] && ALPHABET[48 + n] == ROW4[n]
  {
  }

  lemma Base64InAlphabet(v: nat)
    requires v < 64
    ensures |ALPHABET| == 64 && Base64(v) == ALPHABET[v] as int
  {
    hide Base64;
    FirstRow(v % 16);
    LastRow(v % 16);
    AlphabetRows(v % 16);
    assert v == v % 16 || v == 16 + v % 16 || v == 32 + v % 16 || v == 48 + v % 16;
  }

  // The n lowest groups of six bits, the lowest first.
  function Chars(w: nat, n: nat): (r: seq<byte>)
    ensures |r| == n && forall i | 0 <= i < n :: r[i] != 0
  {
    if n == 0 then [] else [Base64(w % 64)] + Chars(w / 64, n - 1)
  }

  // The three bytes of the digest that make up group i.
  function Group(d: Digest16, i: nat): nat
    requires i < 5
  {
    d[if i == 4 then 5 else 12 + i] + 0x100 * (d[6 + i] as int) + 0x1_0000 * (d[i] as int)
  }

  // The first i groups.
  function Groups(d: Digest16, i: nat): (r: seq<byte>)
    requires i <= 5
    ensures |r| == 4 * i && forall k | 0 <= k < |r| :: r[k] != 0
  {
    if i == 0 then [] else Groups(d, i - 1) + Chars(Group(d, i - 1), 4)
  }

  function Encode(d: Digest16): (r: seq<byte>)
    ensures |r| == ENCODED && forall i | 0 <= i < ENCODED :: r[i] != 0
  {
    Groups(d, 5) + Chars(d[11], 2)
  }

  function Pow64(n: nat): nat {
    if n == 0 then 1 else 64 * Pow64(n - 1)
  }

  lemma {:induction false} CharsInjective(v: nat, w: nat, n: nat)
    requires v < Pow64(n) && w < Pow64(n) && Chars(v, n) == Chars(w, n)
    ensures v == w
  {
    if n > 0 {
      assert Chars(v, n)[0] == Base64(v % 64) && Chars(w, n)[0] == Base64(w % 64);
      assert Chars(v, n)[1..] == Chars(v / 64, n - 1) && Chars(w, n)[1..] == Chars(w / 64, n - 1);
      CharsInjective(v / 64, w / 64, n - 1);
    }
  }

  lemma {:induction false} GroupSlice(d: Digest16, n: nat, i: nat)
    requires i < n <= 5
    ensures Groups(d, n)[4 * i..4 * i + 4] == Chars(Group(d, i), 4)
  {
    if i < n - 1 {
      GroupSlice(d, n - 1, i);
      assert Groups(d, n)[4 * i..4 * i + 4] == Groups(d, n - 1)[4 * i..4 * i + 4];
    }
  }

  lemma GroupDetermines(d: Digest16, e: Digest16, i: nat)
    requires i < 5 && Group(d, i) == Group(e, i)
    ensures d[i] == e[i] && d[6 + i] == e[6 + i] && d[if i == 4 then 5 else 12 + i] == e[if i == 4 then 5 else 12 + i]
  {
  }

  lemma SameGroup(d: Digest16, e: Digest16, i: nat)
    requires i < 5 && Groups(d, 5) == Groups(e, 5)
    ensures d[i] == e[i] && d[6 + i] == e[6 + i] && d[if i == 4 then 5 else 12 + i] == e[if i == 4 then 5 else 12 + i]
  {
    GroupSlice(d, 5, i);
    GroupSlice(e, 5, i);
    assert Pow64(4) == 64 * (64 * (64 * (64 * Pow64(0))));
    CharsInjective(Group(d, i), Group(e, i), 4);
    GroupDetermines(d, e, i);
  }

  // The number whose digits to the base 64 are characters, the lowest first.
  ghost predicate Spells(r: seq<byte>, w: nat)
    decreases |r|
  {
    if r == [] then w == 0
    else exists v: nat | v < 64 :: r[0] == Base64(v) && w >= v && (w - v) % 64 == 0 && Spells(r[1..], (w - v) / 64)
  }

  lemma {:induction false} CharsSpell(w: nat, n: nat)
    requires w < Pow64(n)
    ensures Spells(Chars(w, n), w)
  {
    if n > 0 {
      CharsSpell(w / 64, n - 1);
      assert Chars(w, n)[1..] == Chars(w / 64, n - 1);
      var v: nat := w % 64;
      assert Chars(w, n)[0] == Base64(v) && (w - v) / 64 == w / 64;
    }
  }

  // The digest bytes of each group of four characters, least significant first.
  const ORDER: seq<seq<nat>> := [[12, 6, 0], [13, 7, 1], [14, 8, 2], [15, 9, 3], [5, 10, 4]]

  /** Four characters stand for three bytes of the digest, and the last two for the one that is left. */
  lemma EncodedBytes(d: Digest16, i: nat)
    requires i < 5
    ensures Spells(Encode(d)[4 * i..4 * i + 4],
                   d[ORDER[i][0]] + 0x100 * (d[ORDER[i][1]] as int) + 0x1_0000 * (d[ORDER[i][2]] as int))
    ensures Spells(Encode(d)[20..], d[11])
  {
    hide Spells, Chars;
    GroupSlice(d, 5, i);
    assert Encode(d)[4 * i..4 * i + 4] == Groups(d, 5)[4 * i..4 * i + 4];
    assert Encode(d)[20..] == Chars(d[11], 2);
    assert Pow64(4) == 64 * (64 * (64 * (64 * Pow64(0)))) && Pow64(2) == 64 * (64 * Pow64(0));
    CharsSpell(Group(d, i), 4);
    CharsSpell(d[11], 2);
    GroupBytes(d, i);
  }

  lemma GroupBytes(d: Digest16, i: nat)
    requires i < 5
    ensures Group(d, i) == d[ORDER[i][0]] + 0x100 * (d[ORDER[i][1]] as int) + 0x1_0000 * (d[ORDER[i][2]] as int)
    ensures Group(d, i) < 0x100_0000
  {
  }

  /** Different digests have different encodings. */
  lemma EncodeInjective(d: Digest16, e: Digest16)
    requires Encode(d) == Encode(e)
    ensures d == e
  {
    assert Encode(d)[..20] == Groups(d, 5) && Encode(e)[..20] == Groups(e, 5);
    assert Encode(d)[20..] == Chars(d[11], 2) && Encode(e)[20..] == Chars(e[11], 2);
    assert Pow64(2) == 64 * (64 * Pow64(0));
    CharsInjective(d[11], e[11], 2);
    SameGroup(d, e, 0);
    SameGroup(d, e, 1);
    SameGroup(d, e, 2);
    SameGroup(d, e, 3);
    SameGroup(d, e, 4);
    assert forall k | 0 <= k < 16 :: d[k] == e[k];
  }

  // ---------- Password entries ----------

  // Where strstr (salt, "$") finds the first '$'; the length of the string if there is none.
  function FirstDollar(salt: seq<byte>): (n: nat)
    ensures n <= |salt|
    ensures forall i | 0 <= i < n :: salt[i] != DOLLAR
    ensures n < |salt| ==> salt[n] == DOLLAR
  {
    if salt == [] || salt[0] == DOLLAR then 0 else 1 + FirstDollar(salt[1..])
  }

  predicate HasDollar(salt: seq<byte>) {
    FirstDollar(salt) < |salt|
  }

  // How much of the string behind the header is salt when an entry is made.
  function SaltLength(salt: seq<byte>): nat {
    if HasDollar(salt) && FirstDollar(salt) < 8 then FirstDollar(salt) else 8
  }

  /** What the string behind the header must look like for an entry to be made from it. */
  predicate HasSalt(salt: seq<byte>) {
    HasDollar(salt) || |salt| >= 8
  }

  /** The entry made for a key from a string that starts with header and salt. */
  function MakeEntry(key: seq<byte>, s: seq<byte>): seq<byte>
    requires HEADER <= |s| && HasSalt(s[HEADER..])
  {
    var n := SaltLength(s[HEADER..]);
    s[..HEADER + n] + [DOLLAR] + Encode(CryptDigest(key, s[..HEADER], s[HEADER..HEADER + n], 1000))
  }

  /** Whether the entry s, a string with a '$' behind the salt, is one for the key. */
  predicate Accepts(key: seq<byte>, s: seq<byte>)
    requires HEADER <= |s| && HasDollar(s[HEADER..])
  {
    var n := FirstDollar(s[HEADER..]);
    s[HEADER + n + 1..] == Encode(CryptDigest(key, s[..HEADER], s[HEADER..HEADER + n], 1000))
  }

  lemma {:induction false} FirstDollarIs(salt: seq<byte>, n: nat)
    requires n < |salt| && salt[n] == DOLLAR && forall i | 0 <= i < n :: salt[i] != DOLLAR
    ensures FirstDollar(salt) == n
  {
    if n > 0 {
      FirstDollarIs(salt[1..], n - 1);
    }
  }

  /** Making and checking agree: an entry is accepted for the key it was made for. */
  lemma MadeIsAccepted(key: seq<byte>, s: seq<byte>)
    requires HEADER <= |s| && HasSalt(s[HEADER..])
    ensures HasDollar(MakeEntry(key, s)[HEADER..])
    ensures Accepts(key, MakeEntry(key, s))
  {
    hide CryptDigest, Encode;
    var n := SaltLength(s[HEADER..]);
    var e := MakeEntry(key, s);
    assert forall i | 0 <= i < n :: e[HEADER..][i] == s[HEADER..][i];
    FirstDollarIs(e[HEADER..], n);
    assert e[HEADER..HEADER + n] == s[HEADER..HEADER + n];
    assert e[..HEADER] == s[..HEADER];
  }

  /** A made entry is accepted for another key exactly when both keys give the same digest. */
  lemma AcceptedIffSameDigest(key: seq<byte>, other: seq<byte>, s: seq<byte>)
    requires HEADER <= |s| && HasSalt(s[HEADER..])
    ensures var n := SaltLength(s[HEADER..]);
      var e := MakeEntry(key, s);
      HasDollar(e[HEADER..]) &&
      (Accepts(other, e) <==>
         CryptDigest(other, s[..HEADER], s[HEADER..HEADER + n], 1000)
         == CryptDigest(key, s[..HEADER], s[HEADER..HEADER + n], 1000))
  {
    hide CryptDigest, Encode;
    var n := SaltLength(s[HEADER..]);
    var e := MakeEntry(key, s);
    assert forall i | 0 <= i < n :: e[HEADER..][i] == s[HEADER..][i];
    FirstDollarIs(e[HEADER..], n);
    assert e[HEADER..HEADER + n] == s[HEADER..HEADER + n];
    assert e[..HEADER] == s[..HEADER];
    var d, d' := CryptDigest(key, s[..HEADER], s[HEADER..HEADER + n], 1000),
                 CryptDigest(other, s[..HEADER], s[HEADER..HEADER + n], 1000);
    assert e[HEADER + n + 1..] == Encode(d);
    if Encode(d) == Encode(d') {
      EncodeInjective(d, d');
    }
  }

  // ---------- md5_password ----------

  // The first digest, of key, salt and key.
  method ComputeAlternate(ctx: Context, key: seq<byte>, salt: seq<byte>) returns (digest: Digest16)
    requires ctx.Shaped() && |key| < 0x4000_0000 && |salt| <= MAX_INPUT
    modifies ctx, ctx.state, ctx.buffer
    ensures digest == Hash(key + salt + key)
  {
    hide Hash, Digest, Padded, Md5.Md5, Context.Valid;
    ctx.Init();
    ctx.Update(key);
    ctx.Update(salt);
    ctx.Update(key);
    assert ctx.message == key + salt + key;
    digest := ctx.Final();
    HashIs(ctx.message);
  }

  // As many bytes of the alternate digest as the key has.
  method UpdateTiled(ctx: Context, d: Digest16, n: nat)
    requires ctx.Shaped() && ctx.Valid()
    modifies ctx, ctx.state, ctx.buffer
    ensures ctx.Valid() && ctx.message == old(ctx.message) + Tiled(d, n)
  {
    hide Hash, Digest, Padded, Md5.Md5, Context.Valid;
    var i: nat := n;
    ghost var before := ctx.message;
    ghost var done: seq<byte> := [];
    while i > 16
      invariant ctx.Valid() && ctx.message == before + done
      invariant done + Tiled(d, i) == Tiled(d, n)
    {
      ctx.Update(d);
      done := done + d;
      i := i - 16;
    }
    ctx.Update(d[..i]);
  }

  // A NUL or the first byte of the key for each binary digit of the key's length.
  method UpdateDigits(ctx: Context, key: seq<byte>)
    requires ctx.Shaped() && ctx.Valid()
    modifies ctx, ctx.state, ctx.buffer
    ensures ctx.Valid() && ctx.message == old(ctx.message) + Digits(key, |key|)
  {
    hide Hash, Digest, Padded, Md5.Md5, Context.Valid, Digits;
    var i := |key|;
    DigitsStep(key, 0);
    ghost var before := ctx.message;
    ghost var done: seq<byte> := [];
    while i > 0
      invariant ctx.Valid() && 0 <= i <= |key| && ctx.message == before + done
      invariant done + Digits(key, i) == Digits(key, |key|)
    {
      var c: byte := if i % 2 == 1 then 0 else key[0];
      DigitsStep(key, i);
      ctx.Update([c]);
      done := done + [c];
      i := i / 2;
    }
  }

  /** The digest of md5_password before its thousand rounds. */
  method ComputeFirst(ctx: Context, key: seq<byte>, header: seq<byte>, salt: seq<byte>) returns (digest: Digest16)
    requires ctx.Shaped() && |key| < 0x4000_0000 && |header| + |salt| <= MAX_INPUT
    modifies ctx, ctx.state, ctx.buffer
    ensures digest == FirstDigest(key, header, salt)
  {
    hide Hash, Digest, Padded, Md5.Md5, Context.Valid, Digits, Tiled;
    var altResult := ComputeAlternate(ctx, key, salt);
    ctx.Init();
    ctx.Update(key);
    ctx.Update(header + salt);
    UpdateTiled(ctx, altResult, |key|);
    UpdateDigits(ctx, key);
    assert ctx.message == key + header + salt + Tiled(altResult, |key|) + Digits(key, |key|);
    digest := ctx.Final();
    HashIs(ctx.message);
  }

  lemma HashIs(m: seq<byte>)
    ensures Hash(m) == Digest(Padded(m))
  {
  }

  method ComputeDigest(ctx: Context, key: seq<byte>, header: seq<byte>, salt: seq<byte>, rounds: nat)
    returns (digest: Digest16)
    requires ctx.Shaped() && |key| < 0x4000_0000 && |header| + |salt| <= MAX_INPUT
    modifies ctx, ctx.state, ctx.buffer
    ensures digest == CryptDigest(key, header, salt, rounds)
  {
    hide Hash, FirstDigest;
    digest := ComputeFirst(ctx, key, header, salt);
    var i: nat := 0;
    while i < rounds
      invariant i <= rounds
      invariant digest == CryptDigest(key, header, salt, i)
    {
      digest := ComputeRound(ctx, key, salt, i, digest);
      i := i + 1;
    }
  }

  method ComputeRound(ctx: Context, key: seq<byte>, salt: seq<byte>, i: nat, altResult: Digest16)
    returns (digest: Digest16)
    requires ctx.Shaped() && |key| < 0x4000_0000 && |salt| <= MAX_INPUT
    modifies ctx, ctx.state, ctx.buffer
    ensures digest == NextDigest(key, salt, i, altResult)
  {
    hide Hash, Digest, Padded, Md5.Md5, Context.Valid;
    ctx.Init();
    UpdateEither(ctx, i % 2 != 0, key, altResult);
    UpdateWhen(ctx, i % 3 != 0, salt);
    UpdateWhen(ctx, i % 7 != 0, key);
    UpdateEither(ctx, i % 2 != 0, altResult, key);
    digest := ctx.Final();
    assert ctx.message == (if i % 2 != 0 then key else altResult) + (if i % 3 != 0 then salt else [])
                        + (if i % 7 != 0 then key else []) + (if i % 2 != 0 then altResult else key);
    HashIs(ctx.message);
  }

  method UpdateEither(ctx: Context, first: bool, a: seq<byte>, b: seq<byte>)
    requires ctx.Shaped() && ctx.Valid() && |a| <= MAX_INPUT && |b| <= MAX_INPUT
    modifies ctx, ctx.state, ctx.buffer
    ensures ctx.Valid() && ctx.message == old(ctx.message) + (if first then a else b)
  {
    hide Context.Valid;
    if first {
      ctx.Update(a);
    } else {
      ctx.Update(b);
    }
  }

  method UpdateWhen(ctx: Context, condition: bool, a: seq<byte>)
    requires ctx.Shaped() && ctx.Valid() && |a| <= MAX_INPUT
    modifies ctx, ctx.state, ctx.buffer
    ensures ctx.Valid() && ctx.message == old(ctx.message) + (if condition then a else [])
  {
    hide Context.Valid;
    if condition {
      ctx.Update(a);
    }
  }

  // The string in the array: up to the first NUL, which is at `end`.
  ghost predicate EndsAt(a: seq<byte>, end: nat) {
    end < |a| && a[end] == 0 && forall i | 0 <= i < end :: a[i] != 0
  }

  // `data` has been written at p, and nothing else.
  ghost predicate Written(a: seq<byte>, b: seq<byte>, p: nat, data: seq<byte>) {
    p + |data| <= |a| && b == a[..p] + data + a[p + |data|..]
  }

  // `data` stands at p, before the end of the string.
  ghost predicate Matches(a: seq<byte>, end: nat, p: nat, data: seq<byte>) {
    p + |data| <= end <= |a| && a[p..p + |data|] == data
  }

  /** Where md5_password stands after the characters `done`: compared in one mode, written in the other. */
  ghost predicate After(check: bool, a: seq<byte>, b: seq<byte>, end: nat, p: nat, done: seq<byte>) {
    if check then a == b && Matches(a, end, p, done) else Written(a, b, p, done)
  }

  lemma AfterBoth(check: bool, a: seq<byte>, b: seq<byte>, c: seq<byte>, end: nat, p: nat, x: seq<byte>, y: seq<byte>)
    requires After(check, a, b, end, p, x) && After(check, b, c, end, p + |x|, y)
    ensures After(check, a, c, end, p, x + y)
  {
    if check {
      assert a[p..p + |x + y|] == a[p..p + |x|] + a[p + |x|..p + |x| + |y|];
    } else {
      assert c == a[..p] + (x + y) + a[p + |x + y|..];
    }
  }

  lemma MismatchStays(a: seq<byte>, end: nat, p: nat, x: seq<byte>, y: seq<byte>, z: seq<byte>)
    ensures Matches(a, end, p, x + y + z) ==> Matches(a, end, p + |x|, y)
  {
    if Matches(a, end, p, x + y + z) {
      var w := x + y + z;
      forall i | 0 <= i < |y| ensures a[p + |x| + i] == y[i] {
        assert a[p + (|x| + i)] == a[p..p + |w|][|x| + i] == w[|x| + i];
      }
    }
  }

  /** One character written, or compared with what is there. */
  method PutChar(crypted: array<byte>, p: nat, c: byte, check: bool, ghost end: nat) returns (ok: bool)
    requires if check then EndsAt(crypted[..], end) && p <= end else p < crypted.Length
    requires c != 0
    modifies crypted
    ensures ok ==> After(check, old(crypted[..]), crypted[..], end, p, [c])
    ensures !ok ==> check && crypted[..] == old(crypted[..]) && !Matches(crypted[..], end, p, [c])
  {
    if check {
      ok := crypted[p] == c;
    } else {
      crypted[p] := c;
      ok := true;
    }
  }

  /** The characters for a number w; a comparison stops at the first difference and so never passes the end
      of the string. */
  method PutChars(crypted: array<byte>, p0: nat, w0: nat, n0: nat, check: bool, ghost end: nat)
    returns (ok: bool, p: nat)
    requires if check then EndsAt(crypted[..], end) && p0 <= end else p0 + n0 <= crypted.Length
    modifies crypted
    ensures ok ==> p == p0 + n0 && After(check, old(crypted[..]), crypted[..], end, p0, Chars(w0, n0))
    ensures !ok ==> check && crypted[..] == old(crypted[..]) && !Matches(crypted[..], end, p0, Chars(w0, n0))
  {
    hide After, Matches, EndsAt;
    p := p0;
    var w, n := w0, n0;
    ghost var done: seq<byte>, before := [], crypted[..];
    NulInside(before, end, check);
    AfterNothing(check, before, end, p);
    while n > 0
      invariant 0 <= n <= n0 && |done| == n0 - n && p == p0 + |done|
      invariant done + Chars(w, n) == Chars(w0, n0)
      invariant After(check, before, crypted[..], end, p0, done)
    {
      n := n - 1;
      var c := Base64(w % 64);
      ghost var between := crypted[..];
      AfterBounds(check, before, between, end, p0, done);
      ok := PutChar(crypted, p, c, check, end);
      if !ok {
        MismatchStays(before, end, p0, done, [c], Chars(w / 64, n));
        assert done + [c] + Chars(w / 64, n) == Chars(w0, n0);
        return;
      }
      AfterBoth(check, before, between, crypted[..], end, p0, done, [c]);
      p := p + 1;
      done := done + [c];
      w := w / 64;
    }
    assert done + [] == done;
    ok := true;
  }

  lemma AfterNothing(check: bool, a: seq<byte>, end: nat, p: nat)
    requires if check then p <= end <= |a| else p <= |a|
    ensures After(check, a, a, end, p, [])
  {
  }

  lemma AfterBounds(check: bool, a: seq<byte>, b: seq<byte>, end: nat, p: nat, done: seq<byte>)
    requires After(check, a, b, end, p, done)
    ensures |b| == |a| && p + |done| <= |a|
    ensures check ==> a == b && p + |done| <= end
  {
  }

  /** The encoding loops of md5_password. */
  method PutDigest(crypted: array<byte>, p0: nat, digest: Digest16, check: bool, ghost end: nat)
    returns (ok: bool, p: nat)
    requires if check then EndsAt(crypted[..], end) && p0 <= end else p0 + ENCODED <= crypted.Length
    modifies crypted
    ensures ok ==> p == p0 + ENCODED && After(check, old(crypted[..]), crypted[..], end, p0, Encode(digest))
    ensures !ok ==> check && crypted[..] == old(crypted[..]) && !Matches(crypted[..], end, p0, Encode(digest))
  {
    hide After, Matches, EndsAt, Chars, Group, Encode;
    p := p0;
    var i: nat := 0;
    ghost var before := crypted[..];
    NulInside(before, end, check);
    AfterNothing(check, before, end, p);
    while i < 5
      invariant i <= 5 && p == p0 + 4 * i
      invariant After(check, before, crypted[..], end, p0, Groups(digest, i))
    {
      ghost var between := crypted[..];
      AfterBounds(check, before, between, end, p0, Groups(digest, i));
      ghost var rest := EncodePart(digest, i);
      ok, p := PutChars(crypted, p, Group(digest, i), 4, check, end);
      if !ok {
        MismatchStays(before, end, p0, Groups(digest, i), Chars(Group(digest, i), 4), rest);
        return;
      }
      AfterBoth(check, before, between, crypted[..], end, p0, Groups(digest, i), Chars(Group(digest, i), 4));
      i := i + 1;
    }
    ghost var between := crypted[..];
    AfterBounds(check, before, between, end, p0, Groups(digest, 5));
    EncodeEnd(digest);
    ok, p := PutChars(crypted, p, digest[11], 2, check, end);
    if !ok {
      MismatchStays(before, end, p0, Groups(digest, 5), Chars(digest[11], 2), []);
      assert Groups(digest, 5) + Chars(digest[11], 2) + [] == Encode(digest);
    } else {
      AfterBoth(check, before, between, crypted[..], end, p0, Groups(digest, 5), Chars(digest[11], 2));
    }
  }

  lemma NulInside(a: seq<byte>, end: nat, check: bool)
    requires check ==> EndsAt(a, end)
    ensures check ==> end < |a|
  {
  }

  // The encoding splits before and behind each group.
  lemma {:induction false} EncodePart(d: Digest16, i: nat) returns (rest: seq<byte>)
    requires i < 5
    ensures Encode(d) == Groups(d, i) + Chars(Group(d, i), 4) + rest
    decreases 5 - i
  {
    hide Chars, Group;
    if i == 4 {
      rest := Chars(d[11], 2);
    } else {
      var r := EncodePart(d, i + 1);
      rest := Chars(Group(d, i + 1), 4) + r;
    }
  }

  lemma EncodeEnd(d: Digest16)
    ensures Encode(d) == Groups(d, 5) + Chars(d[11], 2)
  {
  }

  /** `md5_password` on the string of `length` characters in `crypted`.  Making an entry needs a salt and
      room for the digest; checking needs a '$' behind the salt.  The result is 0 for an entry that was made
      and for a password that fits. */
  method Md5Password(ctx: Context, key: seq<byte>, crypted: array<byte>, length: nat, check: bool) returns (r: int)
    requires ctx.Shaped() && ctx.buffer != crypted && |key| < 0x4000_0000
    requires EndsAt(crypted[..], length) && HEADER <= length < 0x4000_0000
    requires if check then HasDollar(crypted[HEADER..length])
             else HasSalt(crypted[HEADER..length])
                  && HEADER + SaltLength(crypted[HEADER..length]) + 1 + ENCODED < crypted.Length
    modifies ctx, ctx.state, ctx.buffer, crypted
    ensures check ==> crypted[..] == old(crypted[..])
    ensures check ==> (r == 0 <==> Accepts(key, old(crypted[..length])))
    ensures !check ==> r == 0 && var e := MakeEntry(key, old(crypted[..length]));
      Written(old(crypted[..]), crypted[..], 0, e + [0])
  {
    hide CryptDigest, Encode, After;
    ghost var s, before := crypted[..length], crypted[..];
    var saltlen := FindSalt(crypted[HEADER..length], check);
    SaltInside(before, length, check);
    if !check {
      crypted[HEADER + saltlen] := DOLLAR;
    }
    ghost var marked := crypted[..];
    var header, salt := crypted[..HEADER], crypted[HEADER..HEADER + saltlen];
    MarkedParts(before, marked, length, saltlen);
    var digest := ComputeDigest(ctx, key, header, salt, 1000);
    var p := HEADER + saltlen + 1;
    var ok;
    ok, p := PutDigest(crypted, p, digest, check, length);
    if check && ok {
      AfterBounds(check, marked, crypted[..], length, HEADER + saltlen + 1, Encode(digest));
    }
    if check {
      CheckMeans(before, length, key, digest, saltlen, ok, p);
    } else {
      MakeMeans(before, marked, crypted[..], length, key, digest, saltlen, p);
    }
    if !ok {
      return 1;
    }
    if !check {
      crypted[p] := 0;
    }
    return crypted[p];
  }

  // The dollar behind the salt changes neither the header nor the salt.
  lemma MarkedParts(a: seq<byte>, b: seq<byte>, length: nat, n: nat)
    requires HEADER + n <= length <= |a|
    requires b == a || (HEADER + n < |a| && b == a[HEADER + n := DOLLAR])
    ensures b[..HEADER] == a[..length][..HEADER] && b[HEADER..HEADER + n] == a[..length][HEADER..HEADER + n]
  {
    FrontOf(a, length, HEADER);
    Slice(a, length, HEADER, HEADER + n);
    assert b[..HEADER] == a[..HEADER];
    assert b[HEADER..HEADER + n] == a[HEADER..HEADER + n];
  }

  lemma SaltInside(a: seq<byte>, length: nat, check: bool)
    requires EndsAt(a, length) && HEADER <= length
    ensures a[HEADER..length] == a[..length][HEADER..]
    ensures check && HasDollar(a[HEADER..length]) ==> HEADER + FirstDollar(a[HEADER..length]) < length
    ensures !check && HasSalt(a[HEADER..length]) ==> HEADER + SaltLength(a[HEADER..length]) <= length
  {
  }

  lemma Slice(a: seq<byte>, length: nat, i: nat, j: nat)
    requires i <= j <= length <= |a|
    ensures a[..length][i..j] == a[i..j]
  {
  }

  lemma FrontOf(a: seq<byte>, length: nat, j: nat)
    requires j <= length <= |a|
    ensures a[..length][..j] == a[..j] && a[..length][j..] == a[j..length]
  {
  }

  // What the comparison and the final NUL say about the entry.
  lemma CheckMeans(a: seq<byte>, length: nat, key: seq<byte>, d: Digest16, n: nat, ok: bool, p: nat)
    requires EndsAt(a, length) && HEADER <= length
    requires HasDollar(a[HEADER..length]) && n == FirstDollar(a[HEADER..length])
    requires d == CryptDigest(key, a[..HEADER], a[HEADER..HEADER + n], 1000)
    requires ok ==> p == HEADER + n + 1 + ENCODED && After(true, a, a, length, HEADER + n + 1, Encode(d))
    requires !ok ==> !Matches(a, length, HEADER + n + 1, Encode(d))
    ensures Accepts(key, a[..length]) <==> ok && p < |a| && a[p] == 0
    ensures ok ==> p < |a|
  {
    hide CryptDigest, Encode;
    var q := HEADER + n + 1;
    FrontOf(a, length, HEADER);
    Slice(a, length, HEADER, HEADER + n);
    FrontOf(a, length, q);
    if ok {
      assert a[q..p] == Encode(d);
    }
  }

  // What has been written is the entry, but for the final NUL.
  lemma MakeMeans(a: seq<byte>, b: seq<byte>, c: seq<byte>, length: nat, key: seq<byte>, d: Digest16, n: nat, p: nat)
    requires length <= |a| && HEADER <= length && HasSalt(a[HEADER..length]) && n == SaltLength(a[HEADER..length])
    requires HEADER + n <= length && HEADER + n + 1 + ENCODED < |a| && b == a[HEADER + n := DOLLAR]
    requires d == CryptDigest(key, a[..HEADER], a[HEADER..HEADER + n], 1000)
    requires p == HEADER + n + 1 + ENCODED && After(false, b, c, length, HEADER + n + 1, Encode(d))
    ensures p < |c| && Written(a, c[p := 0], 0, MakeEntry(key, a[..length]) + [0])
  {
    hide CryptDigest, Encode;
    var s := a[..length];
    FrontOf(a, length, HEADER);
    FrontOf(a, length, HEADER + n);
    Slice(a, length, HEADER, HEADER + n);
    var e := MakeEntry(key, s);
    assert e == a[..HEADER + n] + [DOLLAR] + Encode(d);
    assert c == a[..HEADER + n] + [DOLLAR] + Encode(d) + a[p..];
    assert c[p := 0] == e + [0] + a[p + 1..];
  }

  /** An entry is made with one key and then checked with another: the check accepts, that is returns 0, exactly
      when both keys give the same digest, and so always when they are the same. */
  method MakeAndCheck(ctx: Context, key: seq<byte>, other: seq<byte>, crypted: array<byte>, length: nat)
    returns (r: int)
    requires ctx.Shaped() && ctx.buffer != crypted && |key| < 0x4000_0000 && |other| < 0x4000_0000
    requires EndsAt(crypted[..], length) && HEADER <= length < 0x4000_0000 - ENCODED - 1
    requires HasSalt(crypted[HEADER..length])
    requires HEADER + SaltLength(crypted[HEADER..length]) + 1 + ENCODED < crypted.Length
    modifies ctx, ctx.state, ctx.buffer, crypted
    ensures Written(old(crypted[..]), crypted[..], 0, MakeEntry(key, old(crypted[..length])) + [0])
    ensures var s := old(crypted[..length]);
      var n := SaltLength(s[HEADER..]);
      r == 0 <==> CryptDigest(other, s[..HEADER], s[HEADER..HEADER + n], 1000)
                  == CryptDigest(key, s[..HEADER], s[HEADER..HEADER + n], 1000)
    ensures key == other ==> r == 0
  {
    hide CryptDigest, Encode, Accepts;
    ghost var before := crypted[..];
    ghost var s := crypted[..length];
    FrontOf(before, length, HEADER);
    var made := Md5Password(ctx, key, crypted, length, false);
    EntryEnds(before, crypted[..], length, key);
    AcceptedIffSameDigest(key, other, s);
    var end := StrLen(crypted, |MakeEntry(key, s)|);
    r := Md5Password(ctx, other, crypted, end, true);
  }

  method StrLen(a: array<byte>, ghost end: nat) returns (n: nat)
    requires EndsAt(a[..], end)
    ensures n == end
  {
    n := 0;
    while a[n] != 0
      invariant n <= end
      decreases end - n
    {
      n := n + 1;
    }
  }

  // The entry made is the string in the array.
  lemma EntryEnds(a: seq<byte>, b: seq<byte>, length: nat, key: seq<byte>)
    requires EndsAt(a, length) && HEADER <= length && HasSalt(a[..length][HEADER..])
    requires Written(a, b, 0, MakeEntry(key, a[..length]) + [0])
    ensures var e := MakeEntry(key, a[..length]);
      && |e| == HEADER + SaltLength(a[..length][HEADER..]) + 1 + ENCODED
      && EndsAt(b, |e|) && b[..|e|] == e && b[HEADER..|e|] == e[HEADER..]
  {
    hide CryptDigest, Encode;
    var s := a[..length];
    var e := MakeEntry(key, s);
    var n := SaltLength(s[HEADER..]);
    assert forall i | 0 <= i < HEADER + n :: e[i] == s[i] == a[i];
    assert forall i | 0 <= i < |e| :: e[i] != 0;
    assert b[..|e|] == e;
    assert b[|e|] == 0;
  }

  // Where the salt ends, which is looked for in both modes.
  method FindSalt(salt: seq<byte>, check: bool) returns (saltlen: nat)
    requires forall i | 0 <= i < |salt| :: salt[i] != 0
    requires check ==> HasDollar(salt)
    ensures saltlen == if check then FirstDollar(salt) else SaltLength(salt)
  {
    var end := StrStr.StrStr(salt, [DOLLAR]);
    DollarOccurs(salt, end);
    if check {
      saltlen := end;
    } else {
      saltlen := if end != -1 && end < 8 then end else 8;
    }
  }

  lemma DollarOccurs(salt: seq<byte>, end: int)
    requires end == -1 <==> StrStr.Nowhere(salt, [DOLLAR])
    requires end != -1 ==> StrStr.OccursAt(salt, [DOLLAR], end) && StrStr.OccursNowhereBefore(salt, [DOLLAR], end)
    ensures end == if HasDollar(salt) then FirstDollar(salt) else -1
  {
    forall i | 0 <= i < |salt| ensures StrStr.OccursAt(salt, [DOLLAR], i) <==> salt[i] == DOLLAR {
      assert salt[i..i + 1] == [salt[i]];
    }
  }
}
