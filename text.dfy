/**
 * The ordinal string operations the client relies on: string.Contains(string)
 * and string.IsNullOrWhiteSpace, over strings as sequences of chars.
 */
module Text {

  /** Ordinal substring test, scanning start positions from the left. */
  predicate Contains(s: string, sub: string)
    decreases |s|
  {
    sub <= s || (|s| > 0 && Contains(s[1..], sub))
  }

  /** Contains agrees with the positional definition of a substring. */
  lemma {:induction false} ContainsAt(s: string, sub: string)
    ensures Contains(s, sub) <==> exists i :: 0 <= i <= |s| && sub <= s[i..]
    decreases |s|
  {
    if sub <= s {
      assert s[0..] == s;
    } else if |s| == 0 {
      forall i | 0 <= i <= |s| ensures !(sub <= s[i..]) {
        assert s[i..] == s;
      }
    } else {
      ContainsAt(s[1..], sub);
      if Contains(s[1..], sub) {
        var j :| 0 <= j <= |s[1..]| && sub <= s[1..][j..];
        assert s[1..][j..] == s[j + 1..];
      } else {
        forall i | 0 <= i <= |s| ensures !(sub <= s[i..]) {
          if i == 0 {
            assert s[0..] == s;
          } else {
            assert s[1..][i - 1..] == s[i..];
          }
        }
      }
    }
  }

  /** A substring of a prefix is a substring of the whole. */
  lemma {:induction false} ContainsExtend(a: string, b: string, sub: string)
    requires Contains(a, sub)
    ensures Contains(a + b, sub)
    decreases |a|
  {
    if sub <= a {
      assert sub <= a + b by {
        assert (a + b)[..|a|] == a;
      }
    } else {
      assert (a + b)[1..] == a[1..] + b;
      ContainsExtend(a[1..], b, sub);
    }
  }

  /** Char.IsWhiteSpace: the Unicode space separators, line and paragraph separators and the listed control characters. */
  predicate IsWhiteSpace(c: char)
  {
    ('\U{0009}' <= c <= '\U{000D}') || c == '\U{0020}' || c == '\U{0085}' || c == '\U{00A0}'
    || c == '\U{1680}' || ('\U{2000}' <= c <= '\U{200A}') || c == '\U{2028}' || c == '\U{2029}'
    || c == '\U{202F}' || c == '\U{205F}' || c == '\U{3000}'
  }

  /** string.IsNullOrWhiteSpace for a non-null string: empty, or whitespace only. */
  predicate IsNullOrWhiteSpace(s: string)
  {
    forall i | 0 <= i < |s| :: IsWhiteSpace(s[i])
  }
}
