/** The string operations the recorder relies on: Python's `str.lower()` and `in`. */
module Text {

  /** Lower-cases an ASCII upper-case letter; every other character is left alone. */
  function LowerChar(c: char): char
  {
    if 'A' <= c <= 'Z' then (c as int + 32) as char else c
  }

  /** `s.lower()`, character by character. */
  function Lower(s: string): (r: string)
    ensures |r| == |s|
    ensures forall i :: 0 <= i < |s| ==> r[i] == LowerChar(s[i])
  {
    seq(|s|, i requires 0 <= i < |s| => LowerChar(s[i]))
  }

  /** Lower-casing works piece by piece: it commutes with slicing. */
  lemma LowerSlice(s: string, i: nat, j: nat)
    requires i <= j <= |s|
    ensures Lower(s[i..j]) == Lower(s)[i..j]
  {
    assert forall k :: 0 <= k < j - i ==> Lower(s[i..j])[k] == Lower(s)[i..j][k];
  }

  /** Lower-casing works piece by piece: it commutes with concatenation. */
  lemma LowerAppend(a: string, b: string)
    ensures Lower(a + b) == Lower(a) + Lower(b)
  {
    assert forall k :: 0 <= k < |a + b| ==> Lower(a + b)[k] == (Lower(a) + Lower(b))[k];
  }

  /** Lower-casing twice is lower-casing once. */
  lemma LowerIdempotent(s: string)
    ensures Lower(Lower(s)) == Lower(s)
  {
    assert forall k :: 0 <= k < |s| ==> Lower(Lower(s))[k] == Lower(s)[k];
  }

  /** `needle in s`: the needle occurs somewhere in s as a contiguous run. */
  predicate Contains(s: string, needle: string)
  {
    exists k :: 0 <= k <= |s| - |needle| && needle <= s[k..]
  }

  /** The `len` characters of s starting at index k. */
  function Window(s: string, k: nat, len: nat): (w: string)
    requires k + len <= |s|
    ensures |w| == len
    ensures forall i :: 0 <= i < len ==> w[i] == s[k + i]
  {
    s[k..k + len]
  }

  /** `needle in s` holds exactly when some window of s, as long as the needle, equals it. */
  lemma ContainsIff(s: string, needle: string)
    ensures Contains(s, needle) <==>
      exists k: nat :: k + |needle| <= |s| && Window(s, k, |needle|) == needle
  {
    if Contains(s, needle) {
      var k :| 0 <= k <= |s| - |needle| && needle <= s[k..];
      assert Window(s, k, |needle|) == s[k..][..|needle|];
    }
    if exists k: nat :: k + |needle| <= |s| && Window(s, k, |needle|) == needle {
      var k: nat :| k + |needle| <= |s| && Window(s, k, |needle|) == needle;
      assert s[k..][..|needle|] == needle;
    }
  }
}
