/** Character classes and positional string primitives shared by the
    hand-written scanners that stand in for the regular expressions of
    `find_video_url`. */
module Text {

  /** Python's `\s` in a `str` pattern: exactly the characters for which
      `str.isspace()` holds. */
  predicate IsSpace(c: char) {
    || ('\t' <= c <= '\r')
    || ('\U{1C}' <= c <= '\U{1F}')
    || c == ' '
    || c == '\U{85}'
    || c == '\U{A0}'
    || c == '\U{1680}'
    || ('\U{2000}' <= c <= '\U{200A}')
    || c == '\U{2028}'
    || c == '\U{2029}'
    || c == '\U{202F}'
    || c == '\U{205F}'
    || c == '\U{3000}'
  }

  /** The character classes that occur in the four patterns:
      `\s`, `[^"]`, `[^']`, `[^\s>]` and `[^'"\s]`. */
  datatype CharClass = Space | NotDoubleQuote | NotSingleQuote | NotSpaceOrGt | NotQuoteOrSpace {
    predicate Allows(c: char) {
      match this
      case Space => IsSpace(c)
      case NotDoubleQuote => c != '"'
      case NotSingleQuote => c != '\''
      case NotSpaceOrGt => !IsSpace(c) && c != '>'
      case NotQuoteOrSpace => c != '\'' && c != '"' && !IsSpace(c)
    }
  }

  /** Every character of `t` belongs to `cls`. */
  predicate AllAllowed(t: string, cls: CharClass) {
    forall c :: c in t ==> cls.Allows(c)
  }

  /** Every character of `s[a..b]` belongs to `cls`. */
  predicate AllowedRange(s: string, a: nat, b: nat, cls: CharClass) {
    a <= b <= |s| && forall k :: a <= k < b ==> cls.Allows(s[k])
  }

  /** Position `k` holds a character of `cls` (false past the end). */
  predicate AllowedAt(s: string, k: nat, cls: CharClass) {
    k < |s| && cls.Allows(s[k])
  }

  /** `lit` occurs in `s` starting at position `i`. */
  predicate HasAt(s: string, i: nat, lit: string) {
    i + |lit| <= |s| && s[i..i + |lit|] == lit
  }

  /** `lit` occurs in `s` ending just before position `e`. */
  predicate EndsAt(s: string, e: nat, lit: string) {
    |lit| <= e <= |s| && s[e - |lit|..e] == lit
  }

  predicate StartsWith(t: string, p: string) {
    |p| <= |t| && t[..|p|] == p
  }

  predicate EndsWith(t: string, p: string) {
    |p| <= |t| && t[|t| - |p|..] == p
  }

  /** The end of the longest run of `cls` characters starting at `i`: what a
      greedy `cls*` consumes from `i` when nothing after it forces a retreat. */
  function RunEnd(s: string, i: nat, cls: CharClass): (j: nat)
    requires i <= |s|
    ensures i <= j <= |s|
    ensures AllowedRange(s, i, j, cls)
    ensures !AllowedAt(s, j, cls)
    decreases |s| - i
  {
    if i == |s| || !cls.Allows(s[i]) then i else RunEnd(s, i + 1, cls)
  }

  /** The run end is the only position with the two properties above. */
  lemma RunEndUnique(s: string, i: nat, j: nat, cls: CharClass)
    requires i <= |s|
    requires AllowedRange(s, i, j, cls) && !AllowedAt(s, j, cls)
    ensures RunEnd(s, i, cls) == j
  {
  }

  /** A prefix of a string found at `i` is found at `i` as well. */
  lemma PrefixAt(s: string, i: nat, g: string, p: string)
    requires HasAt(s, i, g) && StartsWith(g, p)
    ensures HasAt(s, i, p)
  {
    assert s[i..i + |p|] == s[i..i + |g|][..|p|];
  }

  /** A suffix of a string found at `i` ends where it does. */
  lemma SuffixAt(s: string, i: nat, g: string, p: string)
    requires HasAt(s, i, g) && EndsWith(g, p)
    ensures EndsAt(s, i + |g|, p)
  {
    assert s[i + |g| - |p|..i + |g|] == s[i..i + |g|][|g| - |p|..];
  }

  /** The characters of a string found at `i` are those of `s` from `i`. */
  lemma CharsAt(s: string, i: nat, g: string)
    requires HasAt(s, i, g)
    ensures forall k :: 0 <= k < |g| ==> s[i + k] == g[k]
    ensures forall k :: i <= k < i + |g| ==> s[k] == g[k - i]
  {
    forall k | 0 <= k < |g|
      ensures s[i + k] == g[k]
    {
      assert s[i..i + |g|][k] == s[i + k];
    }
  }
}
