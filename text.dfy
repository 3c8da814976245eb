/** Prefix, suffix and substring relations on strings, used to state the shape of the
    generated comments. */
module Text {

  predicate StartsWith(s: string, p: string) {
    |p| <= |s| && s[..|p|] == p
  }

  predicate EndsWith(s: string, q: string) {
    |q| <= |s| && s[|s| - |q|..] == q
  }

  /** `t` occurs somewhere in `s` as a contiguous substring. */
  predicate Contains(s: string, t: string) {
    exists i :: 0 <= i <= |s| && StartsWith(s[i..], t)
  }

  lemma ContainsInfix(p: string, t: string, q: string)
    ensures Contains(p + t + q, t)
  {
    assert (p + t + q)[|p|..] == t + q;
    StartsWithConcat(t, q);
  }

  lemma StartsWithConcat(p: string, q: string)
    ensures StartsWith(p + q, p)
  {
    assert (p + q)[..|p|] == p;
  }

  lemma EndsWithConcat(p: string, q: string)
    ensures EndsWith(p + q, q)
  {
    assert (p + q)[|p + q| - |q|..] == q;
  }

  /** A suffix of a suffix is a suffix. */
  lemma EndsWithSuffix(s: string, p: string, q: string)
    requires EndsWith(s, p + q)
    ensures EndsWith(s, q)
  {
    assert s[|s| - |q|..] == s[|s| - |p + q|..][|p|..];
    assert (p + q)[|p|..] == q;
  }

  lemma Assoc3(a: string, b: string, c: string)
    ensures a + (b + c) == (a + b) + c
  {
  }

  lemma Assoc4(a: string, b: string, c: string, d: string)
    ensures a + (b + (c + d)) == ((a + b) + c) + d
  {
  }

  /** Every character of a contained string occurs in the containing one. */
  lemma ContainsChar(s: string, t: string, c: char)
    ensures Contains(s, t) && c in t ==> c in s
  {
    if Contains(s, t) && c in t {
      var i :| 0 <= i <= |s| && StartsWith(s[i..], t);
      var j :| 0 <= j < |t| && t[j] == c;
      assert s[i..][j] == c;
    }
  }
}
