/** Character classes and sequence relations shared by the string
    normalisers and the selector predicates. */
module Text {

  /** The characters JavaScript's `\s` matches: WhiteSpace and
      LineTerminator of the current edition of ECMA-262 (sections 12.2 and
      12.3; U+180E is no longer white space). */
  predicate IsJsWhitespace(c: char) {
    || c == '\t' || c == '\n' || c == '\U{000B}' || c == '\U{000C}' || c == '\r'
    || c == ' ' || c == '\U{00A0}' || c == '\U{1680}'
    || ('\U{2000}' <= c <= '\U{200A}')
    || c == '\U{2028}' || c == '\U{2029}' || c == '\U{202F}' || c == '\U{205F}'
    || c == '\U{3000}' || c == '\U{FEFF}'
  }

  /** The separators of a `class` attribute's token list (HTML's ASCII whitespace). */
  predicate IsAsciiWhitespace(c: char) {
    c == '\t' || c == '\n' || c == '\U{000C}' || c == '\r' || c == ' '
  }

  /** `[a-z]` in a regular expression without the `i` flag. */
  predicate IsLowerAscii(c: char) {
    'a' <= c <= 'z'
  }

  /** `String.prototype.toUpperCase` restricted to one ASCII lower-case letter. */
  function ToUpperAscii(c: char): (u: char)
    requires IsLowerAscii(c)
    ensures 'A' <= u <= 'Z'
    ensures u as int + 32 == c as int
  {
    (c as int - 32) as char
  }

  /** `sub` sits in `s` at position `i`. */
  predicate OccursAt(s: string, sub: string, i: int) {
    0 <= i && i + |sub| <= |s| && s[i..i + |sub|] == sub
  }

  /** `s.indexOf(sub) >= 0`. */
  predicate Contains(s: string, sub: string) {
    exists i | 0 <= i <= |s| :: OccursAt(s, sub, i)
  }

  /** Appending text to the right keeps every occurrence where it was. */
  lemma ContainsAppend(s: string, t: string, sub: string)
    requires Contains(s, sub)
    ensures Contains(s + t, sub)
  {
    var i :| 0 <= i <= |s| && OccursAt(s, sub, i);
    assert (s + t)[i..i + |sub|] == s[i..i + |sub|];
    assert OccursAt(s + t, sub, i);
  }

  /** A string contains each of its suffixes. */
  lemma ContainsSuffix(s: string, t: string)
    ensures Contains(s + t, t)
  {
    assert (s + t)[|s|..|s| + |t|] == t;
    assert OccursAt(s + t, t, |s|);
  }

  /** `a` is obtained from `b` by deleting characters. Matching each
      character of `a` against the earliest fitting character of `b` finds a
      way to do so whenever there is one. */
  predicate IsSubsequence(a: string, b: string)
    decreases |b|
  {
    || |a| == 0
    || (|b| > 0 && IsSubsequence(if a[0] == b[0] then a[1..] else a, b[1..]))
  }

  lemma {:induction false} SubsequenceLength(a: string, b: string)
    requires IsSubsequence(a, b)
    ensures |a| <= |b|
    decreases |b|
  {
    if |a| > 0 {
      SubsequenceLength(if a[0] == b[0] then a[1..] else a, b[1..]);
    }
  }

  /** Dropping the first character of the smaller string keeps the relation. */
  lemma {:induction false} SubsequenceDropFirst(a: string, b: string)
    requires IsSubsequence(a, b)
    requires |a| > 0
    ensures IsSubsequence(a[1..], b)
    decreases |b|
  {
    var rest := a[1..];
    if |rest| > 0 {
      if a[0] != b[0] {
        SubsequenceDropFirst(a, b[1..]);
      }
      assert IsSubsequence(rest, b[1..]);
      if rest[0] == b[0] {
        SubsequenceDropFirst(rest, b[1..]);
      }
    }
  }

  /** Deleting a prefix of the larger string can only be undone by deleting more. */
  lemma {:induction false} SubsequenceOfSuffix(a: string, b: string, k: nat)
    requires k <= |b|
    requires IsSubsequence(a, b[k..])
    ensures IsSubsequence(a, b)
    decreases k
  {
    if k > 0 {
      var b' := b[k - 1..];
      assert b'[1..] == b[k..];
      if |a| > 0 && a[0] == b'[0] {
        SubsequenceDropFirst(a, b[k..]);
      }
      assert IsSubsequence(a, b');
      SubsequenceOfSuffix(a, b, k - 1);
    }
  }

  /** Putting a character in front of the larger string keeps the relation. */
  lemma SubsequenceConsRight(a: string, c: char, b: string)
    requires IsSubsequence(a, b)
    ensures IsSubsequence(a, [c] + b)
  {
    var cb := [c] + b;
    assert cb[1..] == b;
    if |a| > 0 && a[0] == c {
      SubsequenceDropFirst(a, b);
    }
  }

  /** Every character of a subsequence occurs in the larger string. */
  lemma {:induction false} SubsequenceChars(a: string, b: string, i: nat)
    requires IsSubsequence(a, b)
    requires i < |a|
    ensures a[i] in b
    decreases |b|
  {
    if a[0] == b[0] {
      if i > 0 {
        SubsequenceChars(a[1..], b[1..], i - 1);
        assert a[1..][i - 1] == a[i];
      }
    } else {
      SubsequenceChars(a, b[1..], i);
    }
  }
}
