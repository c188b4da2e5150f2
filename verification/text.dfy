/** Strings as Python compares and lowercases them, restricted to what the
    dictionary and the board need: ASCII case folding, prefixes and the
    code-point lexicographic order of `str.__lt__`. */
module Text {

  /** ASCII lowercasing of one character (Python's `str.lower` on ASCII). */
  function LowerChar(c: char): (r: char)
    ensures 'A' <= c <= 'Z' ==> r as int == c as int + 32
    ensures !('A' <= c <= 'Z') ==> r == c
  {
    if 'A' <= c <= 'Z' then (c as int + 32) as char else c
  }

  /** Lowercases every character of `s`. */
  function Lower(s: string): (r: string)
    ensures |r| == |s|
    ensures forall i :: 0 <= i < |s| ==> r[i] == LowerChar(s[i])
  {
    seq(|s|, i requires 0 <= i < |s| => LowerChar(s[i]))
  }

  lemma LowerIdempotent(s: string)
    ensures Lower(Lower(s)) == Lower(s)
  {
  }

  predicate IsPrefixOf(p: string, w: string)
  {
    |p| <= |w| && w[..|p|] == p
  }

  /** Python's `<` on `str`: lexicographic by code point, where a proper
      prefix comes first. */
  predicate LexLess(a: string, b: string)
  {
    if |a| == 0 then |b| > 0
    else |b| > 0 && (a[0] < b[0] || (a[0] == b[0] && LexLess(a[1..], b[1..])))
  }

  lemma {:induction false} LexLessIrreflexive(a: string)
    ensures !LexLess(a, a)
  {
    if |a| > 0 {
      LexLessIrreflexive(a[1..]);
    }
  }

  lemma {:induction false} LexLessAsymmetric(a: string, b: string)
    requires LexLess(a, b)
    ensures !LexLess(b, a)
  {
    if |a| > 0 && a[0] == b[0] {
      LexLessAsymmetric(a[1..], b[1..]);
    }
  }

  /** A proper prefix sorts before the word it starts. */
  lemma {:induction false} LexLessProperPrefix(a: string, b: string)
    requires |a| < |b| && b[..|a|] == a
    ensures LexLess(a, b)
  {
    if |a| > 0 {
      assert a[0] == b[0];
      assert b[1..][..|a[1..]|] == a[1..];
      LexLessProperPrefix(a[1..], b[1..]);
    }
  }

  /** Two strings agreeing on their first `n` characters are ordered by
      their `n`-th character. */
  lemma {:induction false} LexLessFork(a: string, b: string, n: nat)
    requires n < |a| && n < |b| && a[..n] == b[..n] && a[n] < b[n]
    ensures LexLess(a, b)
  {
    if n > 0 {
      assert a[0] == a[..n][0] == b[..n][0] == b[0];
      assert a[1..][..n - 1] == a[..n][1..] == b[..n][1..] == b[1..][..n - 1];
      LexLessFork(a[1..], b[1..], n - 1);
    }
  }

  /** Strictly increasing in the lexicographic order. */
  predicate StrictlySorted(s: seq<string>)
  {
    forall i, j :: 0 <= i < j < |s| ==> LexLess(s[i], s[j])
  }

  lemma SortedConcat(a: seq<string>, b: seq<string>)
    requires StrictlySorted(a) && StrictlySorted(b)
    requires forall x, y :: x in a && y in b ==> LexLess(x, y)
    ensures StrictlySorted(a + b)
  {
    forall i, j | 0 <= i < j < |a + b|
      ensures LexLess((a + b)[i], (a + b)[j])
    {
      if j < |a| {
      } else if i >= |a| {
        assert (a + b)[i] == b[i - |a|] && (a + b)[j] == b[j - |a|];
      } else {
        assert (a + b)[i] in a && (a + b)[j] in b;
      }
    }
  }
}
