/** Text comparisons SQLite performs for the store: `LIKE '%k%'` and the BINARY collation
    used by `ORDER BY` on a TEXT column. */
module Text {

  /** SQLite's built-in LIKE folds case for the 26 ASCII letters only. */
  function Lower(c: char): char
  {
    if 'A' <= c <= 'Z' then (c as int + 32) as char else c
  }

  function Fold(s: string): (r: string)
    ensures |r| == |s|
  {
    seq(|s|, i requires 0 <= i < |s| => Lower(s[i]))
  }

  /** `k` occurs in `s` starting at position `i`. */
  predicate OccursAt(s: string, k: string, i: nat)
  {
    i + |k| <= |s| && s[i..i + |k|] == k
  }

  /** `k` occurs in `s` as a contiguous substring. */
  predicate Contains(s: string, k: string)
  {
    exists i: nat :: i <= |s| && OccursAt(s, k, i)
  }

  /** `s LIKE '%' || keyword || '%'` with the keyword taken literally. */
  function Like(s: string, keyword: string): (r: bool)
    ensures keyword == [] ==> r
    ensures |s| < |keyword| ==> !r
  {
    assert keyword == [] ==> OccursAt(Fold(s), Fold(keyword), 0);
    Contains(Fold(s), Fold(keyword))
  }

  /** Case of ASCII letters does not matter to LIKE: a keyword matches its own upper-case spelling. */
  lemma LikeIgnoresAsciiCase(s: string, keyword: string)
    requires |s| == |keyword|
    requires forall i :: 0 <= i < |s| ==> Lower(s[i]) == Lower(keyword[i])
    ensures Like(s, keyword)
  {
    assert Fold(s)[0..|keyword|] == Fold(keyword);
    assert OccursAt(Fold(s), Fold(keyword), 0);
  }

  /** `a <= b` under the BINARY collation: lexicographic comparison of the characters. */
  predicate Le(a: string, b: string)
  {
    a == [] || (b != [] && (a[0] < b[0] || (a[0] == b[0] && Le(a[1..], b[1..]))))
  }

  lemma {:induction false} LeTotal(a: string, b: string)
    ensures Le(a, b) || Le(b, a)
  {
    if a != [] && b != [] && a[0] == b[0] {
      LeTotal(a[1..], b[1..]);
    }
  }

  lemma {:induction false} LeTransitive(a: string, b: string, c: string)
    requires Le(a, b) && Le(b, c)
    ensures Le(a, c)
  {
    if a != [] && a[0] == b[0] && b[0] == c[0] {
      LeTransitive(a[1..], b[1..], c[1..]);
    }
  }
}
