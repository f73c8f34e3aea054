/**
 * Substring search of shared/string.c: memmem with the "Not So Naive" skips, memcmp, and strstr.
 * A buffer is the sequence of bytes that may be read through its pointer; NULL is None.
 */
module StringSearch {

  import opened Wrappers
  import opened Bytes

  /** memcmp: difference at the first place where the buffers differ within n bytes, else 0. */
  method MemCmp(s1: seq<nat>, s2: seq<nat>, n: nat) returns (d: int)
    requires n <= |s1| && n <= |s2|
    ensures d == 0 <==> s1[..n] == s2[..n]
    ensures d != 0 ==> exists k :: 0 <= k < n && s1[..k] == s2[..k] && d == s1[k] as int - s2[k] as int
  {
    d := 0;
    var k := 0;
    while k < n
      invariant 0 <= k <= n && d == 0 && s1[..k] == s2[..k]
    {
      d := s1[k] as int - s2[k] as int;
      if d != 0 {
        assert s1[..n][k] != s2[..n][k];
        return;
      }
      k := k + 1;
    }
  }

  ghost predicate OccursAt(y: seq<nat>, x: seq<nat>, j: int) {
    0 <= j <= |y| - |x| && y[j..j + |x|] == x
  }

  ghost predicate NoneBefore(y: seq<nat>, x: seq<nat>, j: int) {
    forall i :: 0 <= i < j ==> !OccursAt(y, x, i)
  }

  /** The value the search must return: the first occurrence, if there is one. */
  ghost predicate IsFirstOccurrence(y: seq<nat>, x: seq<nat>, r: Option<nat>) {
    match r
    case Some(j) => OccursAt(y, x, j) && NoneBefore(y, x, j)
    case None => NoneBefore(y, x, |y| - |x| + 1)
  }

  lemma OccurrenceByte(y: seq<nat>, x: seq<nat>, j: nat, k: nat)
    requires k < |x| && j + |x| <= |y| && y[j + k] != x[k]
    ensures !OccursAt(y, x, j)
  {
    assert y[j..j + |x|][k] == y[j + k];
  }

  /** The second byte does not match here; if the first two bytes are equal it rules out the next place too. */
  lemma SkipOnMismatch(y: seq<nat>, x: seq<nat>, j: nat)
    requires |x| >= 2 && j + |x| <= |y| && x[1] != y[j + 1]
    ensures !OccursAt(y, x, j)
    ensures x[0] == x[1] ==> !OccursAt(y, x, j + 1)
  {
    OccurrenceByte(y, x, j, 1);
    if x[0] == x[1] && j + 1 + |x| <= |y| {
      OccurrenceByte(y, x, j + 1, 0);
    }
  }

  /** The second byte matches but differs from the first: no occurrence begins on it. */
  lemma SkipOnMatch(y: seq<nat>, x: seq<nat>, j: nat)
    requires |x| >= 2 && j + |x| <= |y| && x[1] == y[j + 1] && x[0] != x[1]
    ensures !OccursAt(y, x, j + 1)
  {
    if j + 1 + |x| <= |y| {
      OccurrenceByte(y, x, j + 1, 0);
    }
  }

  /** What memmem compares, out of order, is an occurrence. */
  lemma ComparedParts(y: seq<nat>, x: seq<nat>, j: nat)
    requires |x| >= 2 && j + |x| <= |y| && x[1] == y[j + 1]
    ensures OccursAt(y, x, j) <==> x[2..] == y[j + 2..][..|x| - 2] && x[0] == y[j]
  {
    var w := y[j..j + |x|];
    assert w[2..] == y[j + 2..][..|x| - 2];
    assert w == [w[0], w[1]] + w[2..] && x == [x[0], x[1]] + x[2..];
  }

  /** memmem */
  method MemMem(y: seq<nat>, x: seq<nat>) returns (r: Option<nat>)
    ensures x != [] ==> IsFirstOccurrence(y, x, r)
    ensures x == [] ==> r == None
  {
    var n, m := |y|, |x|;
    if m > n || m == 0 || n == 0 {
      return None;
    }
    if m != 1 {
      var k, l := 1, 2;
      if x[0] == x[1] {
        k, l := 2, 1;
      }
      var j := 0;
      while j <= n - m
        invariant 0 <= j <= n - m + 2 && NoneBefore(y, x, j)
        decreases n - m - j
      {
        if x[1] != y[j + 1] {
          SkipOnMismatch(y, x, j);
          j := j + k;
        } else {
          ComparedParts(y, x, j);
          var d := MemCmp(x[2..], y[j + 2..], m - 2);
          assert x[2..][..m - 2] == x[2..];
          if d == 0 && x[0] == y[j] {
            return Some(j);
          }
          if l == 2 {
            SkipOnMatch(y, x, j);
          }
          j := j + l;
        }
      }
    } else {
      var i := 0;
      while i < n
        invariant 0 <= i <= n && NoneBefore(y, x, i)
      {
        assert OccursAt(y, x, i) <==> y[i] == x[0] by {
          assert y[i..i + 1] == [y[i]];
          assert x == [x[0]];
        }
        if y[i] == x[0] {
          return Some(i);
        }
        i := i + 1;
      }
    }
    return None;
  }

  // ---------------------------------------------------------------- strings

  /** strlen */
  method StrLen(s: seq<nat>) returns (len: nat)
    requires 0 in s
    ensures len == |UpToNul(s)|
  {
    ghost var str := UpToNul(s);
    len := 0;
    while s[len] != 0
      invariant len <= |str| && 0 !in s[..len]
      decreases |str| - len
    {
      assert str[..len] == s[..len];
      len := len + 1;
    }
    assert forall i :: 0 <= i < |str| ==> s[i] == str[i];
  }

  /** strstr */
  method StrStr(haystack: seq<nat>, needle: seq<nat>) returns (r: Option<nat>)
    requires 0 in haystack && 0 in needle
    ensures needle[0] != 0 ==> IsFirstOccurrence(UpToNul(haystack), UpToNul(needle), r)
    ensures needle[0] == 0 ==> r == None
  {
    var n := StrLen(haystack);
    var m := StrLen(needle);
    r := MemMem(haystack[..n], needle[..m]);
  }

  /**
   * What strstr returns is the first occurrence, as section 7.21.5.7 of ISO/IEC 9899:1999 requires,
   * exactly when the needle is not the empty string, for which it returns NULL.
   */
  lemma StrStrConforms(haystack: seq<nat>, needle: seq<nat>, r: Option<nat>)
    requires 0 in haystack && 0 in needle
    requires needle[0] != 0 ==> IsFirstOccurrence(UpToNul(haystack), UpToNul(needle), r)
    requires needle[0] == 0 ==> r == None
    ensures IsFirstOccurrence(UpToNul(haystack), UpToNul(needle), r) <==> needle[0] != 0
  {
    if needle[0] == 0 {
      assert OccursAt(UpToNul(haystack), UpToNul(needle), 0);
    }
  }
}
