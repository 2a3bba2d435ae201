/** The comparison the listing sorts by: names, lower-cased, compared character by character. */
module NameOrder {

  /** Lower-casing of one character (ASCII letters only). */
  function LowerChar(c: char): (d: char)
    ensures 'A' <= c <= 'Z' ==> 'a' <= d <= 'z' && d as int == c as int + 32
    ensures !('A' <= c <= 'Z') ==> d == c
  {
    if 'A' <= c <= 'Z' then (c as int + 32) as char else c
  }

  /** `toLowerCase` on a name, character by character. */
  function Lower(s: string): (r: string)
    ensures |r| == |s|
    ensures forall i :: 0 <= i < |s| ==> r[i] == LowerChar(s[i])
  {
    if s == [] then [] else [LowerChar(s[0])] + Lower(s[1..])
  }

  /**
   * Lexicographic order on strings: `a` sorts no later than `b` when, after a common
   * prefix of length `n`, either `a` ends or its next character is the smaller one.
   */
  predicate LexLe(a: string, b: string)
  {
    exists n | 0 <= n <= |a| && n <= |b| :: a[..n] == b[..n] && (n == |a| || (n < |b| && a[n] < b[n]))
  }

  lemma LexLeReflexive(a: string)
    ensures LexLe(a, a)
  {
    assert a[..|a|] == a[..|a|];
  }

  lemma LexLeTotal(a: string, b: string)
    ensures LexLe(a, b) || LexLe(b, a)
  {
    var n := 0;
    while n < |a| && n < |b| && a[n] == b[n]
      invariant 0 <= n <= |a| && n <= |b| && a[..n] == b[..n]
    {
      assert a[..n + 1] == a[..n] + [a[n]] && b[..n + 1] == b[..n] + [b[n]];
      n := n + 1;
    }
    if n == |a| || (n < |b| && a[n] < b[n]) {
      assert LexLe(a, b);
    } else {
      assert LexLe(b, a);
    }
  }

  lemma LexLeTransitive(a: string, b: string, c: string)
    requires LexLe(a, b) && LexLe(b, c)
    ensures LexLe(a, c)
  {
    var n1 :| 0 <= n1 <= |a| && n1 <= |b| && a[..n1] == b[..n1] && (n1 == |a| || (n1 < |b| && a[n1] < b[n1]));
    var n2 :| 0 <= n2 <= |b| && n2 <= |c| && b[..n2] == c[..n2] && (n2 == |b| || (n2 < |c| && b[n2] < c[n2]));
    if n1 <= n2 {
      assert b[..n1] == b[..n2][..n1] == c[..n2][..n1] == c[..n1];
      if n1 < |a| && n1 < n2 {
        assert b[n1] == b[..n2][n1] == c[..n2][n1] == c[n1];
      }
      assert a[..n1] == c[..n1] && (n1 == |a| || (n1 < |c| && a[n1] < c[n1]));
    } else {
      assert a[..n2] == a[..n1][..n2] == b[..n1][..n2] == b[..n2];
      assert a[n2] == a[..n1][n2] == b[..n1][n2] == b[n2];
      assert a[..n2] == c[..n2] && n2 < |a| && n2 < |c| && a[n2] < c[n2];
    }
  }

  /** Strings that differ in their first character are ordered by that character. */
  lemma LexLeFirst(a: string, b: string)
    requires a != [] && b != [] && a[0] != b[0]
    ensures LexLe(a, b) <==> a[0] < b[0]
  {
    if a[0] < b[0] {
      assert a[..0] == b[..0];
    }
  }
}
