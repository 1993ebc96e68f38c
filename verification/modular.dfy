/** The two string normalisers of `src/modular.js`, which turn the JSON text
    a stylesheet publishes into text `JSON.parse` can read.

    `removeQuotes` is `json.replace(/^['"]+|\s+|\\|(;\s?})+|['"]$/g, '')`.
    A global replace scans left to right; at each position the first
    alternative that matches wins, with its greedy length, the matched text is
    dropped and the scan resumes after it; where nothing matches, the
    character is kept and the scan moves on by one. `^` and `$` (no `m` flag)
    are the first and the last position of the whole input.

    `camelCase` is `json.replace(/-([a-z])/g, g => g[1].toUpperCase())`.

    JavaScript strings are UTF-16 code units and Dafny's `char` is a Unicode
    scalar value; neither regular expression matches a surrogate, so a
    character outside the basic plane is kept whole either way.
 */
module Modular {
  import opened Text

  // ---------------------------------------------------------------------
  // removeQuotes
  // ---------------------------------------------------------------------

  predicate IsQuote(c: char) {
    c == '\'' || c == '"'
  }

  /** Greedy length of `['"]+` at position `i` (0 when it does not match). */
  function QuoteRun(s: string, i: nat): (n: nat)
    requires i <= |s|
    ensures i + n <= |s|
    decreases |s| - i
  {
    if i < |s| && IsQuote(s[i]) then 1 + QuoteRun(s, i + 1) else 0
  }

  /** Greedy length of `\s+` at position `i`. */
  function SpaceRun(s: string, i: nat): (n: nat)
    requires i <= |s|
    ensures i + n <= |s|
    decreases |s| - i
  {
    if i < |s| && IsJsWhitespace(s[i]) then 1 + SpaceRun(s, i + 1) else 0
  }

  /** A character `(;\s?})+` can consume. */
  predicate ClosingChar(c: char) {
    c == ';' || c == '}' || IsJsWhitespace(c)
  }

  /** Length of one `;\s?}` at position `i`: the optional whitespace is tried
      first, and when the character after it is not `}` the engine falls back
      to `;}`. */
  function ClosingUnit(s: string, i: nat): (n: nat)
    requires i <= |s|
    ensures n == 0 || n == 2 || n == 3
    ensures i + n <= |s|
    ensures n > 0 ==> s[i] == ';' && s[i + n - 1] == '}'
  {
    if i + 3 <= |s| && s[i] == ';' && IsJsWhitespace(s[i + 1]) && s[i + 2] == '}' then 3
    else if i + 2 <= |s| && s[i] == ';' && s[i + 1] == '}' then 2
    else 0
  }

  /** Greedy length of `(;\s?})+` at position `i`. */
  function ClosingRun(s: string, i: nat): (n: nat)
    requires i <= |s|
    ensures i + n <= |s|
    ensures n > 0 <==> ClosingUnit(s, i) > 0
    decreases |s| - i
  {
    var u := ClosingUnit(s, i);
    if u == 0 then 0 else u + ClosingRun(s, i + u)
  }

  /** Length of the text the regular expression deletes at position `i`,
      trying the five alternatives in their written order; 0 when none
      matches and the character is kept. */
  function MatchAt(s: string, i: nat): (m: nat)
    requires i < |s|
    ensures i + m <= |s|
  {
    if i == 0 && QuoteRun(s, 0) > 0 then QuoteRun(s, 0)
    else if SpaceRun(s, i) > 0 then SpaceRun(s, i)
    else if s[i] == '\\' then 1
    else if ClosingRun(s, i) > 0 then ClosingRun(s, i)
    else if i == |s| - 1 && IsQuote(s[i]) then 1
    else 0
  }

  /** Exactly when no alternative matches at `i`: the character there is
      neither a leading quote, whitespace, a backslash, the start of `;}` or
      `;<space>}`, nor a final quote. */
  predicate KeptAt(s: string, i: nat)
    requires i < |s|
  {
    && !(i == 0 && IsQuote(s[i]))
    && !IsJsWhitespace(s[i])
    && s[i] != '\\'
    && !(s[i] == ';' && i + 1 < |s| && s[i + 1] == '}')
    && !(s[i] == ';' && i + 2 < |s| && IsJsWhitespace(s[i + 1]) && s[i + 2] == '}')
    && !(i == |s| - 1 && IsQuote(s[i]))
  }

  lemma MatchAtZero(s: string, i: nat)
    requires i < |s|
    ensures MatchAt(s, i) == 0 <==> KeptAt(s, i)
  {
  }

  /** No whitespace and no backslash anywhere. */
  predicate Stripped(r: string) {
    forall k :: 0 <= k < |r| ==> !IsJsWhitespace(r[k]) && r[k] != '\\'
  }

  /** The replace loop from position `i` to the end of the input. */
  function Scan(s: string, i: nat): (r: string)
    requires i <= |s|
    ensures Stripped(r)
    decreases |s| - i
  {
    if i == |s| then []
    else
      var m := MatchAt(s, i);
      if m > 0 then Scan(s, i + m) else [s[i]] + Scan(s, i + 1)
  }

  /** The replace loop only deletes. */
  lemma {:induction false} ScanSubsequence(s: string, i: nat)
    requires i <= |s|
    ensures IsSubsequence(Scan(s, i), s[i..])
    decreases |s| - i
  {
    if i < |s| {
      var m := MatchAt(s, i);
      if m > 0 {
        ScanSubsequence(s, i + m);
        assert s[i..][m..] == s[i + m..];
        SubsequenceOfSuffix(Scan(s, i + m), s[i..], m);
      } else {
        ScanSubsequence(s, i + 1);
        var r := Scan(s, i);
        assert r[1..] == Scan(s, i + 1) && s[i..][1..] == s[i + 1..];
      }
    }
  }

  /** `removeQuotes(json)`: deletes characters only, never adds any, and
      leaves neither whitespace nor a backslash behind. */
  function RemoveQuotes(s: string): (r: string)
    ensures IsSubsequence(r, s)
    ensures |r| <= |s|
    ensures forall k :: 0 <= k < |r| ==> !IsJsWhitespace(r[k])
    ensures forall k :: 0 <= k < |r| ==> r[k] != '\\'
  {
    var r := Scan(s, 0);
    ScanSubsequence(s, 0);
    assert s[0..] == s;
    SubsequenceLength(r, s);
    r
  }

  /** A character no alternative can delete: it is not whitespace, a
      backslash, `;` or `}`, it is not in the run of quotes that opens the
      input, and it is not a quote in the last position. */
  predicate Survives(s: string, k: nat)
    requires k < |s|
  {
    && !IsJsWhitespace(s[k])
    && s[k] != '\\'
    && s[k] != ';'
    && s[k] != '}'
    && !(forall j | 0 <= j <= k :: IsQuote(s[j]))
    && !(k == |s| - 1 && IsQuote(s[k]))
  }

  /** The characters from position `i` on that survive, in input order. */
  function Survivors(s: string, i: nat): string
    requires i <= |s|
    decreases |s| - i
  {
    if i == |s| then []
    else (if Survives(s, i) then [s[i]] else []) + Survivors(s, i + 1)
  }

  lemma {:induction false} QuoteRunCovers(s: string, i: nat, k: nat)
    requires i <= |s| && i <= k < i + QuoteRun(s, i)
    ensures IsQuote(s[k])
    decreases k - i
  {
    if i < k {
      QuoteRunCovers(s, i + 1, k);
    }
  }

  lemma {:induction false} SpaceRunCovers(s: string, i: nat, k: nat)
    requires i <= |s| && i <= k < i + SpaceRun(s, i)
    ensures IsJsWhitespace(s[k])
    decreases k - i
  {
    if i < k {
      SpaceRunCovers(s, i + 1, k);
    }
  }

  lemma {:induction false} ClosingRunCovers(s: string, i: nat, k: nat)
    requires i <= |s| && i <= k < i + ClosingRun(s, i)
    ensures ClosingChar(s[k])
    decreases |s| - i
  {
    var u := ClosingUnit(s, i);
    if k >= i + u {
      ClosingRunCovers(s, i + u, k);
    }
  }

  /** Whatever one match deletes was not a survivor. */
  lemma MatchHasNoSurvivor(s: string, i: nat, k: nat)
    requires i < |s| && i <= k < i + MatchAt(s, i)
    ensures !Survives(s, k)
  {
    if i == 0 && QuoteRun(s, 0) > 0 {
      forall j | 0 <= j <= k
        ensures IsQuote(s[j])
      {
        QuoteRunCovers(s, 0, j);
      }
    } else if SpaceRun(s, i) > 0 {
      SpaceRunCovers(s, i, k);
    } else if s[i] == '\\' {
    } else if ClosingRun(s, i) > 0 {
      ClosingRunCovers(s, i, k);
    }
  }

  /** A stretch without survivors adds nothing to `Survivors`. */
  lemma {:induction false} SurvivorsSkip(s: string, i: nat, j: nat)
    requires i <= j <= |s|
    requires forall k | i <= k < j :: !Survives(s, k)
    ensures Survivors(s, i) == Survivors(s, j)
    decreases j - i
  {
    if i < j {
      SurvivorsSkip(s, i + 1, j);
    }
  }

  lemma {:induction false} ScanKeepsSurvivors(s: string, i: nat)
    requires i <= |s|
    ensures IsSubsequence(Survivors(s, i), Scan(s, i))
    decreases |s| - i
  {
    if i < |s| {
      var m := MatchAt(s, i);
      if m > 0 {
        forall k | i <= k < i + m
          ensures !Survives(s, k)
        {
          MatchHasNoSurvivor(s, i, k);
        }
        SurvivorsSkip(s, i, i + m);
        ScanKeepsSurvivors(s, i + m);
      } else {
        ScanKeepsSurvivors(s, i + 1);
        var rest := Survivors(s, i + 1);
        var r := Scan(s, i);
        assert r == [s[i]] + Scan(s, i + 1) && r[1..] == Scan(s, i + 1);
        if Survives(s, i) {
          var a := Survivors(s, i);
          assert a == [s[i]] + rest && a[1..] == rest;
        } else {
          assert Survivors(s, i) == [] + rest == rest;
          SubsequenceConsRight(rest, s[i], Scan(s, i + 1));
        }
      }
    }
  }

  /** `removeQuotes` keeps every survivor, in order: only characters some
      alternative can match are ever removed. */
  lemma RemoveQuotesKeeps(s: string)
    ensures IsSubsequence(Survivors(s, 0), RemoveQuotes(s))
    ensures forall k | 0 <= k < |s| && Survives(s, k) :: s[k] in RemoveQuotes(s)
  {
    ScanKeepsSurvivors(s, 0);
    forall k | 0 <= k < |s| && Survives(s, k)
      ensures s[k] in RemoveQuotes(s)
    {
      SurvivorIn(s, 0, k);
      var a := Survivors(s, 0);
      var n :| 0 <= n < |a| && a[n] == s[k];
      SubsequenceChars(a, RemoveQuotes(s), n);
    }
  }

  /** A survivor at `k` shows up in `Survivors(s, i)` for every `i <= k`. */
  lemma {:induction false} SurvivorIn(s: string, i: nat, k: nat)
    requires i <= k < |s|
    requires Survives(s, k)
    ensures s[k] in Survivors(s, i)
    decreases k - i
  {
    var head := if Survives(s, i) then [s[i]] else [];
    assert Survivors(s, i) == head + Survivors(s, i + 1);
    if i < k {
      SurvivorIn(s, i + 1, k);
    }
  }

  /** The strings `removeQuotes` returns unchanged: no whitespace, no
      backslash, no `;}`, and no quote at either end (a quote in the middle is
      kept). */
  predicate FixedShape(s: string) {
    && (forall k :: 0 <= k < |s| ==> !IsJsWhitespace(s[k]) && s[k] != '\\')
    && (forall k :: 0 <= k < |s| - 1 ==> !(s[k] == ';' && s[k + 1] == '}'))
    && (|s| > 0 ==> !IsQuote(s[0]) && !IsQuote(s[|s| - 1]))
  }

  /** Text a stylesheet would publish with nothing to strip: no quote at all,
      no whitespace, no backslash, no `;}`. */
  predicate Clean(s: string) {
    && (forall k :: 0 <= k < |s| ==> !IsQuote(s[k]) && !IsJsWhitespace(s[k]) && s[k] != '\\')
    && (forall k :: 0 <= k < |s| - 1 ==> !(s[k] == ';' && s[k + 1] == '}'))
  }

  /** One step of the replace loop. */
  lemma ScanStep(s: string, i: nat)
    requires i < |s|
    ensures MatchAt(s, i) > 0 ==> Scan(s, i) == Scan(s, i + MatchAt(s, i))
    ensures MatchAt(s, i) == 0 ==> Scan(s, i) == [s[i]] + Scan(s, i + 1)
  {
  }

  lemma ConsAppend(c: char, a: string, t: string)
    ensures [c] + (a + t) == ([c] + a) + t
  {
  }

  /** No alternative matches anywhere in `[i, j)`. */
  predicate NoMatchBetween(s: string, i: nat, j: nat)
    requires i <= j <= |s|
  {
    forall k :: i <= k < j ==> MatchAt(s, k) == 0
  }

  /** Where nothing matches on `[i, j)`, the scan copies that stretch. */
  lemma {:induction false} ScanCopies(s: string, i: nat, j: nat)
    requires i <= j <= |s|
    requires NoMatchBetween(s, i, j)
    ensures Scan(s, i) == s[i..j] + Scan(s, j)
    decreases j - i
  {
    if i < j {
      assert MatchAt(s, i) == 0;
      ScanStep(s, i);
      ScanCopies(s, i + 1, j);
      var tail := Scan(s, j);
      assert s[i..j] == [s[i]] + s[i + 1..j];
      ConsAppend(s[i], s[i + 1..j], tail);
    }
  }

  /** A scan that deletes nothing met no match on the way. */
  lemma {:induction false} ScanFullLength(s: string, i: nat)
    requires i <= |s|
    requires |Scan(s, i)| == |s| - i
    ensures NoMatchBetween(s, i, |s|)
    decreases |s| - i
  {
    if i < |s| {
      var m := MatchAt(s, i);
      if m > 0 {
        ScanSubsequence(s, i + m);
        SubsequenceLength(Scan(s, i + m), s[i + m..]);
        assert false;
      } else {
        ScanFullLength(s, i + 1);
      }
    }
  }

  /** `removeQuotes` leaves `s` unchanged exactly when `s` has the fixed shape. */
  lemma RemoveQuotesFixedPoints(s: string)
    ensures RemoveQuotes(s) == s <==> FixedShape(s)
  {
    if RemoveQuotes(s) == s {
      ScanFullLength(s, 0);
      forall k | 0 <= k < |s|
        ensures !IsJsWhitespace(s[k]) && s[k] != '\\'
        ensures k < |s| - 1 ==> !(s[k] == ';' && s[k + 1] == '}')
        ensures k == 0 ==> !IsQuote(s[k])
        ensures k == |s| - 1 ==> !IsQuote(s[k])
      {
        MatchAtZero(s, k);
      }
      assert FixedShape(s);
    }
    if FixedShape(s) {
      forall k | 0 <= k < |s|
        ensures MatchAt(s, k) == 0
      {
        assert KeptAt(s, k);
        MatchAtZero(s, k);
      }
      assert NoMatchBetween(s, 0, |s|);
      ScanCopies(s, 0, |s|);
      assert s[0..|s|] == s;
      assert Scan(s, |s|) == [];
      assert RemoveQuotes(s) == Scan(s, 0);
    }
  }

  /** Clean text passes through unchanged. */
  lemma CleanUnchanged(s: string)
    requires Clean(s)
    ensures RemoveQuotes(s) == s
  {
    RemoveQuotesFixedPoints(s);
  }

  lemma {:induction false} QuoteRunOfQuotes(s: string, i: nat, n: nat)
    requires i <= n <= |s|
    requires forall k :: i <= k < n ==> IsQuote(s[k])
    requires n == |s| || !IsQuote(s[n])
    ensures QuoteRun(s, i) == n - i
    decreases n - i
  {
    if i < n {
      QuoteRunOfQuotes(s, i + 1, n);
    }
  }

  /** A leading run of quotes goes as a whole, a trailing run loses only its
      last quote: `""abc""` becomes `abc"`. */
  lemma SurroundingQuotes(lead: string, body: string, trail: string)
    requires |lead| > 0 && forall k :: 0 <= k < |lead| ==> IsQuote(lead[k])
    requires |body| > 0 && Clean(body)
    requires |trail| > 0 && forall k :: 0 <= k < |trail| ==> IsQuote(trail[k])
    ensures RemoveQuotes(lead + body + trail) == body + trail[..|trail| - 1]
  {
    var s := lead + body + trail;
    var a, b, n := |lead|, |lead| + |body|, |s|;
    assert s[a] == body[0];
    QuoteRunOfQuotes(s, 0, a);
    assert MatchAt(s, 0) == a;
    assert Scan(s, 0) == Scan(s, a);
    forall k | a <= k < n - 1
      ensures MatchAt(s, k) == 0
    {
      if k < b {
        assert s[k] == body[k - a];
        if k + 1 < b {
          assert s[k + 1] == body[k + 1 - a];
        } else {
          assert s[k + 1] == trail[0];
        }
      } else {
        assert s[k] == trail[k - b];
      }
      MatchAtZero(s, k);
    }
    ScanCopies(s, a, n - 1);
    assert s[n - 1] == trail[|trail| - 1];
    assert MatchAt(s, n - 1) == 1;
    assert s[a..b] == body;
    assert s[b..n - 1] == trail[..|trail| - 1];
    assert s[a..n - 1] == s[a..b] + s[b..n - 1];
  }

  /** A string of quotes alone is removed entirely by the leading alternative. */
  lemma OnlyQuotes(s: string)
    requires forall k :: 0 <= k < |s| ==> IsQuote(s[k])
    ensures RemoveQuotes(s) == []
  {
    if |s| > 0 {
      QuoteRunOfQuotes(s, 0, |s|);
      assert MatchAt(s, 0) == |s|;
      assert Scan(s, 0) == Scan(s, |s|) == [];
    }
  }

  /** The second half of the sample input: the closing `;}` and the final
      space go, the quote before them stays. */
  lemma RemoveQuotesExampleTail()
    ensures Scan(" \"a\";} ", 3) == "\""
  {
    var s := " \"a\";} ";
    assert MatchAt(s, 6) == 1 && Scan(s, 6) == "";
    assert MatchAt(s, 4) == 2 && Scan(s, 4) == "";
    assert MatchAt(s, 3) == 0;
  }

  /** The quote alternatives are anchored to the very ends of the input, so
      quotes behind whitespace survive, while every `;}` goes. */
  lemma RemoveQuotesExample()
    ensures RemoveQuotes(" \"a\";} ") == "\"a\""
  {
    var s := " \"a\";} ";
    RemoveQuotesExampleTail();
    assert MatchAt(s, 2) == 0 && Scan(s, 2) == "a\"";
    assert MatchAt(s, 1) == 0 && Scan(s, 1) == "\"a\"";
    assert MatchAt(s, 0) == 1;
  }

  /** Deleting whitespace can create a new `;}`, so a second pass changes the
      result again. */
  lemma NotIdempotent()
    ensures RemoveQuotes(";  }") == ";}"
    ensures RemoveQuotes(";}") == []
  {
    var s := ";  }";
    assert MatchAt(s, 3) == 0 && Scan(s, 3) == "}";
    assert MatchAt(s, 1) == 2 && Scan(s, 1) == "}";
    assert MatchAt(s, 0) == 0 && Scan(s, 0) == ";}";
    assert MatchAt(";}", 0) == 2;
  }

  // ---------------------------------------------------------------------
  // camelCase
  // ---------------------------------------------------------------------

  /** `-([a-z])` matches at position `i`. */
  predicate HyphenLowerAt(s: string, i: int) {
    0 <= i && i + 1 < |s| && s[i] == '-' && IsLowerAscii(s[i + 1])
  }

  predicate NoHyphenLower(s: string) {
    forall i :: 0 <= i < |s| ==> !HyphenLowerAt(s, i)
  }

  /** Putting `c` in front of match-free text creates no match unless `c` is a
      hyphen and the text starts with a lower-case letter. */
  lemma NoHyphenLowerCons(c: char, t: string)
    requires NoHyphenLower(t)
    requires c == '-' && |t| > 0 ==> !IsLowerAscii(t[0])
    ensures NoHyphenLower([c] + t)
  {
    var r := [c] + t;
    forall i | 0 <= i < |r|
      ensures !HyphenLowerAt(r, i)
    {
      if i > 0 {
        assert !HyphenLowerAt(t, i - 1);
      }
    }
  }

  /** `camelCase(json)`: its output never holds a hyphen followed by a
      lower-case letter, and its first character is the input's first
      character or, when the input starts with a match, the upper-cased letter. */
  function CamelCase(s: string): (r: string)
    ensures NoHyphenLower(r)
    ensures |s| == 0 <==> |r| == 0
    ensures |s| > 0 ==> r[0] == s[0] || (HyphenLowerAt(s, 0) && r[0] == ToUpperAscii(s[1]))
    decreases |s|
  {
    if |s| == 0 then []
    else if HyphenLowerAt(s, 0) then
      var rest := CamelCase(s[2..]);
      NoHyphenLowerCons(ToUpperAscii(s[1]), rest);
      [ToUpperAscii(s[1])] + rest
    else
      var rest := CamelCase(s[1..]);
      NoHyphenLowerCons(s[0], rest);
      [s[0]] + rest
  }

  /** The number of `-[a-z]` occurrences; two of them never overlap, as the
      second character of one is not a hyphen. */
  function PairCount(s: string): nat
    decreases |s|
  {
    if |s| < 2 then 0
    else (if HyphenLowerAt(s, 0) then 1 else 0) + PairCount(s[1..])
  }

  /** Every match shortens the text by exactly one character. */
  lemma {:induction false} CamelCaseLength(s: string)
    ensures |CamelCase(s)| == |s| - PairCount(s)
    ensures PairCount(s) <= |s| / 2
    decreases |s|
  {
    if |s| >= 2 {
      if HyphenLowerAt(s, 0) {
        assert s[1..][1..] == s[2..];
        assert !HyphenLowerAt(s[1..], 0);
        CamelCaseLength(s[2..]);
        if |s[2..]| >= 2 {
          assert PairCount(s[1..]) == PairCount(s[2..]);
        }
      } else {
        CamelCaseLength(s[1..]);
        if |s[1..]| >= 2 && HyphenLowerAt(s[1..], 0) {
          assert s[1..][1..] == s[2..];
          assert s[1..][2..] == s[3..];
          CamelCaseLength(s[3..]);
        }
      }
    }
  }

  /** What the rewrite makes of the character at position `i`, judged from
      its neighbours alone: a hyphen that starts a match disappears, the letter
      that ends one is upper-cased, anything else is kept. */
  function CamelPiece(s: string, i: nat): string
    requires i < |s|
  {
    if HyphenLowerAt(s, i) then []
    else if HyphenLowerAt(s, i - 1) then [ToUpperAscii(s[i])]
    else [s[i]]
  }

  /** The pieces of positions `i..` concatenated in order. */
  function CamelPieces(s: string, i: nat): string
    requires i <= |s|
    decreases |s| - i
  {
    if i == |s| then [] else CamelPiece(s, i) + CamelPieces(s, i + 1)
  }

  lemma {:induction false} CamelCaseFrom(s: string, i: nat)
    requires i <= |s|
    requires !HyphenLowerAt(s, i - 1)
    ensures CamelCase(s[i..]) == CamelPieces(s, i)
    decreases |s| - i
  {
    if i < |s| {
      var t := s[i..];
      if HyphenLowerAt(s, i) {
        assert HyphenLowerAt(t, 0);
        assert t[2..] == s[i + 2..];
        CamelCaseFrom(s, i + 2);
        assert CamelPiece(s, i + 1) == [ToUpperAscii(s[i + 1])];
      } else {
        assert !HyphenLowerAt(t, 0);
        assert t[1..] == s[i + 1..];
        CamelCaseFrom(s, i + 1);
      }
    }
  }

  /** `camelCase` deletes each hyphen that is directly followed by a
      lower-case ASCII letter, upper-cases that letter, and keeps every other
      character in order. */
  lemma CamelCaseIsPiecewise(s: string)
    ensures CamelCase(s) == CamelPieces(s, 0)
  {
    assert s[0..] == s;
    CamelCaseFrom(s, 0);
  }

  /** Text without a match passes through unchanged. */
  lemma {:induction false} CamelCaseNoMatch(s: string)
    requires NoHyphenLower(s)
    ensures CamelCase(s) == s
    decreases |s|
  {
    if |s| > 0 {
      assert !HyphenLowerAt(s, 0);
      assert NoHyphenLower(s[1..]) by {
        forall i | 0 <= i < |s[1..]|
          ensures !HyphenLowerAt(s[1..], i)
        {
          assert !HyphenLowerAt(s, i + 1);
        }
      }
      CamelCaseNoMatch(s[1..]);
    }
  }

  /** `camelCase` leaves `s` unchanged exactly when `s` has no `-[a-z]`. */
  lemma CamelCaseFixedPoints(s: string)
    ensures CamelCase(s) == s <==> NoHyphenLower(s)
  {
    if NoHyphenLower(s) {
      CamelCaseNoMatch(s);
    }
  }

  lemma CamelCaseIdempotent(s: string)
    ensures CamelCase(CamelCase(s)) == CamelCase(s)
  {
    CamelCaseNoMatch(CamelCase(s));
  }

  /** A sample input: each `-x` becomes `X`. */
  lemma CamelCaseExample()
    ensures CamelCase("a-bc-d") == "aBcD"
  {
    assert CamelCase("-d") == "D";
    assert CamelCase("c-d") == "cD";
    assert CamelCase("-bc-d") == "BcD";
  }

  /** Only a hyphen directly before a lower-case letter is rewritten. */
  lemma CamelCaseEdgeCases()
    ensures CamelCase("--a") == "-A"
    ensures CamelCase("a-B-1") == "a-B-1"
  {
    assert CamelCase("-a") == "A";
    assert CamelCase("-1") == "-1";
    assert CamelCase("-B-1") == "-B-1";
  }
}
