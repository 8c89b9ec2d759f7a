/**
  Text matching for the free-text filter: `str.contains(pattern, case=..., na=False)`
  with the pattern read as a literal substring, and case folding of ASCII letters.
*/
module Text {

  function LowerChar(ch: char): char
  {
    if 'A' <= ch <= 'Z' then (ch as int - 'A' as int + 'a' as int) as char else ch
  }

  function Lower(s: string): string
  {
    seq(|s|, i requires 0 <= i < |s| => LowerChar(s[i]))
  }

  predicate IsPrefix(p: string, s: string)
  {
    |p| <= |s| && s[..|p|] == p
  }

  /** `p` occurs in `s` at some position. */
  predicate IsSubstring(p: string, s: string)
    decreases |s|
  {
    IsPrefix(p, s) || (s != [] && IsSubstring(p, s[1..]))
  }

  /** The match the free-text filter applies; case-insensitive unless `caseSensitive`. */
  predicate Contains(s: string, pattern: string, caseSensitive: bool)
  {
    if caseSensitive then IsSubstring(pattern, s) else IsSubstring(Lower(pattern), Lower(s))
  }

  /** `p` occurs in `s` starting at position `k`. */
  predicate OccursAt(p: string, s: string, k: int)
  {
    0 <= k <= |s| - |p| && s[k..k + |p|] == p
  }

  /** The recursive search finds `p` exactly when `p` occurs at some position of `s`. */
  lemma {:induction false} SubstringAt(p: string, s: string)
    ensures IsSubstring(p, s) <==> exists k :: OccursAt(p, s, k)
    decreases |s|
  {
    if IsPrefix(p, s) {
      assert OccursAt(p, s, 0);
    } else if s != [] {
      SubstringAt(p, s[1..]);
      if IsSubstring(p, s[1..]) {
        var k :| OccursAt(p, s[1..], k);
        assert s[k + 1..k + 1 + |p|] == s[1..][k..k + |p|];
        assert OccursAt(p, s, k + 1);
      }
      if exists k :: OccursAt(p, s, k) {
        var k :| OccursAt(p, s, k);
        assert k != 0;
        assert s[1..][k - 1..k - 1 + |p|] == s[k..k + |p|];
        assert OccursAt(p, s[1..], k - 1);
      }
    }
  }

  lemma LowerSlice(s: string, i: int, j: int)
    requires 0 <= i <= j <= |s|
    ensures Lower(s)[i..j] == Lower(s[i..j])
  {
  }

  lemma LowerIdempotent(s: string)
    ensures Lower(Lower(s)) == Lower(s)
  {
  }

  /** A case-sensitive match is also a case-insensitive one. */
  lemma SensitiveImpliesInsensitive(s: string, pattern: string)
    ensures Contains(s, pattern, true) ==> Contains(s, pattern, false)
  {
    if IsSubstring(pattern, s) {
      SubstringAt(pattern, s);
      var k :| OccursAt(pattern, s, k);
      LowerSlice(s, k, k + |pattern|);
      assert OccursAt(Lower(pattern), Lower(s), k);
      SubstringAt(Lower(pattern), Lower(s));
    }
  }

  /** Without case sensitivity, the case of the pattern and of the text do not matter. */
  lemma InsensitiveIgnoresCase(s: string, pattern: string)
    ensures Contains(s, Lower(pattern), false) == Contains(s, pattern, false)
    ensures Contains(Lower(s), pattern, false) == Contains(s, pattern, false)
  {
    LowerIdempotent(s);
    LowerIdempotent(pattern);
  }
}
