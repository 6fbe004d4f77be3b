/** `strstr` of lib/strstr.c, whose loops are entered and left by jumps. */
module StrStr {
  import opened Common

  /** The characters of a C string, without the terminating NUL. */
  predicate IsCString(s: seq<byte>) {
    forall i | 0 <= i < |s| :: s[i] != 0
  }

  // What a pointer i characters into the string points to; the terminator is the last such place.
  function At(s: seq<byte>, i: int): byte
    requires 0 <= i <= |s|
  {
    if i < |s| then s[i] else 0
  }

  /** The needle is a prefix of the haystack from position i on. */
  predicate OccursAt(haystack: seq<byte>, needle: seq<byte>, i: int) {
    0 <= i && i + |needle| <= |haystack| && haystack[i..i + |needle|] == needle
  }

  ghost predicate OccursNowhereBefore(haystack: seq<byte>, needle: seq<byte>, n: int) {
    forall i | i < n :: !OccursAt(haystack, needle, i)
  }

  ghost predicate Nowhere(haystack: seq<byte>, needle: seq<byte>) {
    forall i :: !OccursAt(haystack, needle, i)
  }

  // Where a jump enters the search loop: at the top, at the label shloop, or at the label jin.
  datatype Entry = Top | Shloop | Jin

  lemma NoMatch(h: seq<byte>, n: seq<byte>, i: int, k: int)
    requires 0 <= i && 0 <= k < |n| && i + k <= |h|
    requires i + k < |h| ==> h[i + k] != n[k]
    ensures !OccursAt(h, n, i)
  {
    if i + |n| <= |h| {
      assert h[i..i + |n|][k] == h[i + k];
    }
  }

  lemma Skip(h: seq<byte>, n: seq<byte>, i: int, k: int)
    requires 0 <= i && 0 <= k < |n| && i + k <= |h|
    requires i + k < |h| ==> h[i + k] != n[k]
    requires OccursNowhereBefore(h, n, i)
    ensures OccursNowhereBefore(h, n, i + 1)
  {
    NoMatch(h, n, i, k);
  }

  lemma NoRoom(h: seq<byte>, n: seq<byte>, from: int)
    requires OccursNowhereBefore(h, n, from) && |h| < from + |n|
    ensures Nowhere(h, n)
  {
  }

  lemma SkipOne(h: seq<byte>, n: seq<byte>, i: int)
    requires OccursNowhereBefore(h, n, i) && !OccursAt(h, n, i)
    ensures OccursNowhereBefore(h, n, i + 1)
  {
  }

  lemma Somewhere(h: seq<byte>, n: seq<byte>, i: int)
    requires OccursAt(h, n, i)
    ensures !Nowhere(h, n)
  {
  }

  lemma Starts(h: seq<byte>, n: seq<byte>)
    ensures OccursNowhereBefore(h, n, 0)
    ensures |n| == 0 ==> OccursAt(h, n, 0) && !Nowhere(h, n)
  {
    if |n| == 0 {
      assert OccursAt(h, n, 0);
    }
  }

  lemma OneCharacter(h: seq<byte>, n: seq<byte>, i: int)
    requires |n| == 1 && 0 <= i < |h| && h[i] == n[0]
    ensures OccursAt(h, n, i) && !Nowhere(h, n)
  {
    assert h[i..i + 1] == n;
    assert OccursAt(h, n, i);
  }

  /** The least position at which the needle occurs, or -1 (the null pointer) exactly when it occurs nowhere. */
  method StrStr(haystack: seq<byte>, needle: seq<byte>) returns (r: int)
    requires IsCString(haystack) && IsCString(needle)
    ensures r == -1 <==> Nowhere(haystack, needle)
    ensures r != -1 ==> OccursAt(haystack, needle, r) && OccursNowhereBefore(haystack, needle, r)
  {
    hide OccursAt, OccursNowhereBefore, Nowhere;
    Starts(haystack, needle);
    var b := At(needle, 0);
    if b == 0 {
      return 0;
    }
    // Advance to the first character of the needle.
    var h := -1;
    while true
      invariant -1 <= h < |haystack|
      invariant OccursNowhereBefore(haystack, needle, h + 1)
      decreases |haystack| - h
    {
      h := h + 1;
      var c := At(haystack, h);
      if c == 0 {
        NoRoom(haystack, needle, h);
        return -1;
      }
      if c == b {
        break;
      }
      Skip(haystack, needle, h, 0);
    }
    var c := At(needle, 1);
    if c == 0 {
      OneCharacter(haystack, needle, h);
      return h;
    }
    var entry := Jin;
    var a := b;
    while true
      // Top: the characters up to h have been dealt with.
      invariant entry.Top? ==> 0 <= h < |haystack| && OccursNowhereBefore(haystack, needle, h + 1)
      // Shloop: a is the character at h, the next candidate.
      invariant entry.Shloop? ==>
                  0 <= h < |haystack| && a == haystack[h] && OccursNowhereBefore(haystack, needle, h)
      // Jin: the character at h starts a candidate.
      invariant entry.Jin? ==>
                  0 <= h < |haystack| && haystack[h] == b && OccursNowhereBefore(haystack, needle, h)
      decreases |haystack| - h, if entry.Shloop? then 2 else if entry.Top? then 0 else 1
    {
      match entry {
        case Top =>
          h := h + 1;
          a := At(haystack, h);
          if a == 0 {
            NoRoom(haystack, needle, h);
            return -1;
          }
          if a == b {
            entry := Jin;
          } else {
            Skip(haystack, needle, h, 0);
            h := h + 1;
            a := At(haystack, h);
            if a == 0 {
              NoRoom(haystack, needle, h);
              return -1;
            }
            entry := Shloop;
          }
        case Shloop =>
          if a != b {
            Skip(haystack, needle, h, 0);
            entry := Top;
          } else {
            entry := Jin;
          }
        case Jin =>
          h := h + 1;
          a := At(haystack, h);
          if a == 0 {
            NoRoom(haystack, needle, h - 1);
            return -1;
          }
          if a != c {
            Skip(haystack, needle, h - 1, 1);
            entry := Shloop;
          } else {
            h := h - 1;
            var found := MatchRest(haystack, needle, h);
            if found {
              Somewhere(haystack, needle, h);
              return h;
            }
            SkipOne(haystack, needle, h);
            entry := Top;
          }
      }
    }
  }

  // The first n characters of the needle are found at h.
  ghost predicate Agree(haystack: seq<byte>, needle: seq<byte>, h: int, n: int) {
    0 <= h && 0 <= n <= |needle| && h + n <= |haystack| && haystack[h..h + n] == needle[..n]
  }

  lemma TwoAgree(haystack: seq<byte>, needle: seq<byte>, h: int)
    requires 0 <= h && h + 1 < |haystack| && 2 <= |needle|
    requires haystack[h] == needle[0] && haystack[h + 1] == needle[1]
    ensures Agree(haystack, needle, h, 2)
  {
    assert haystack[h..h + 2] == [haystack[h], haystack[h + 1]] && needle[..2] == [needle[0], needle[1]];
  }

  lemma OneMoreAgrees(haystack: seq<byte>, needle: seq<byte>, h: int, n: int)
    requires Agree(haystack, needle, h, n) && n < |needle| && h + n < |haystack| && haystack[h + n] == needle[n]
    ensures Agree(haystack, needle, h, n + 1)
  {
    assert haystack[h..h + n + 1] == haystack[h..h + n] + [haystack[h + n]];
    assert needle[..n + 1] == needle[..n] + [needle[n]];
  }

  lemma AllAgree(haystack: seq<byte>, needle: seq<byte>, h: int)
    requires Agree(haystack, needle, h, |needle|)
    ensures OccursAt(haystack, needle, h)
  {
    assert needle[..|needle|] == needle;
  }

  /** The comparison of the third character and those behind it, two to a turn; `a` is the last needle
      character looked at, and the needle has been matched to its end exactly when it is NUL. */
  method MatchRest(haystack: seq<byte>, needle: seq<byte>, h: int) returns (found: bool)
    requires IsCString(haystack) && IsCString(needle)
    requires 0 <= h && h + 1 < |haystack| && 2 <= |needle|
    requires haystack[h] == needle[0] && haystack[h + 1] == needle[1]
    ensures found <==> OccursAt(haystack, needle, h)
  {
    hide Agree, OccursAt;
    var rhaystack, n := h + 2, 2;
    var a := At(needle, n);
    TwoAgree(haystack, needle, h);
    if At(haystack, rhaystack) == a {
      while true
        invariant 2 <= n <= |needle| && rhaystack == h + n <= |haystack|
        invariant a == At(needle, n) == At(haystack, rhaystack)
        invariant Agree(haystack, needle, h, n)
        decreases |needle| - n
      {
        if a == 0 {
          AllAgree(haystack, needle, h);
          return true;
        }
        OneMoreAgrees(haystack, needle, h, n);
        rhaystack := rhaystack + 1;
        n := n + 1;
        a := At(needle, n);
        if At(haystack, rhaystack) != a {
          break;
        }
        if a == 0 {
          AllAgree(haystack, needle, h);
          return true;
        }
        OneMoreAgrees(haystack, needle, h, n);
        rhaystack := rhaystack + 1;
        n := n + 1;
        a := At(needle, n);
        if At(haystack, rhaystack) != a {
          break;
        }
      }
    }
    if a != 0 {
      NoMatch(haystack, needle, h, n);
    } else {
      AllAgree(haystack, needle, h);
    }
    return a == 0;
  }
}
