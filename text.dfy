/**
 * The JavaScript string primitives the views rely on: `String.prototype.trim`,
 * `String.prototype.toLowerCase` (ASCII letters only) and
 * `String.prototype.includes`, and the case-insensitive search test built on them.
 */
module Text {

  /**
   * The ECMAScript WhiteSpace and LineTerminator code points, which `trim`
   * strips: TAB, VT, FF, ZWNBSP, the Unicode space separators (category Zs)
   * and LF, CR, LINE SEPARATOR, PARAGRAPH SEPARATOR.
   */
  const WhitespaceChars: seq<char> := [
    '\t', '\U{000B}', '\U{000C}', '\U{FEFF}',
    ' ', '\U{00A0}', '\U{1680}', '\U{2000}', '\U{2001}', '\U{2002}', '\U{2003}', '\U{2004}',
    '\U{2005}', '\U{2006}', '\U{2007}', '\U{2008}', '\U{2009}', '\U{200A}',
    '\U{202F}', '\U{205F}', '\U{3000}',
    '\n', '\r', '\U{2028}', '\U{2029}'
  ]

  /**
   * `c` is one of the code points `trim` strips. The table is walked entry by
   * entry rather than tested with `in`: a membership test on the 25-element
   * display is expanded into one large disjunction at every use, which makes
   * the proofs about `Trim` expensive. `IsWhitespaceIff` recovers the `in`
   * form for concrete characters.
   */
  predicate IsWhitespace(c: char) {
    InTable(c, 0)
  }

  /** `c` is one of the entries of the whitespace table from position `k` on. */
  predicate InTable(c: char, k: nat)
    decreases |WhitespaceChars| - k
  {
    k < |WhitespaceChars| && (WhitespaceChars[k] == c || InTable(c, k + 1))
  }

  lemma {:induction false} InTableIff(c: char, k: nat)
    ensures InTable(c, k) <==> exists j :: k <= j < |WhitespaceChars| && WhitespaceChars[j] == c
    decreases |WhitespaceChars| - k
  {
    if k < |WhitespaceChars| {
      InTableIff(c, k + 1);
    }
  }

  /** The table walk is membership in the whitespace table. */
  lemma IsWhitespaceIff(c: char)
    ensures IsWhitespace(c) <==> c in WhitespaceChars
  {
    InTableIff(c, 0);
  }

  /** Spaces, line breaks and no-break spaces are stripped ... */
  lemma WhitespaceExamples()
    ensures IsWhitespace(' ') && IsWhitespace('\n') && IsWhitespace('\U{00A0}')
  {
    IsWhitespaceIff(' ');
    IsWhitespaceIff('\n');
    IsWhitespaceIff('\U{00A0}');
  }

  /** ... no visible ASCII character is ... */
  lemma VisibleAsciiIsNotWhitespace(c: char)
    requires '!' <= c <= '~'
    ensures !IsWhitespace(c)
  {
    IsWhitespaceIff(c);
  }

  /** ... and neither is the zero-width space, which is not a space separator. */
  lemma ZeroWidthSpaceIsNotWhitespace()
    ensures !IsWhitespace('\U{200B}')
  {
    IsWhitespaceIff('\U{200B}');
  }

  predicate AllWhitespace(s: string) {
    forall i :: 0 <= i < |s| ==> IsWhitespace(s[i])
  }

  /** Number of whitespace characters at the start of `s`. */
  function LeadingWhitespace(s: string): (n: nat)
    ensures n <= |s|
    ensures forall k :: 0 <= k < n ==> IsWhitespace(s[k])
    ensures n < |s| ==> !IsWhitespace(s[n])
    decreases |s|
  {
    if s != [] && IsWhitespace(s[0]) then 1 + LeadingWhitespace(s[1..]) else 0
  }

  /** Number of whitespace characters at the end of `s`. */
  function TrailingWhitespace(s: string): (n: nat)
    ensures n <= |s|
    ensures forall k :: |s| - n <= k < |s| ==> IsWhitespace(s[k])
    ensures n < |s| ==> !IsWhitespace(s[|s| - n - 1])
    decreases |s|
  {
    if s != [] && IsWhitespace(s[|s| - 1]) then 1 + TrailingWhitespace(s[..|s| - 1]) else 0
  }

  /**
   * `s.trim()`: `s` with the whitespace at both ends cut away. It is empty
   * exactly when `s` is all whitespace, and otherwise starts and ends with a
   * non-whitespace character.
   */
  function Trim(s: string): (r: string)
    ensures r == [] <==> AllWhitespace(s)
    ensures r != [] ==> !IsWhitespace(r[0]) && !IsWhitespace(r[|r| - 1])
  {
    var i := LeadingWhitespace(s);
    if i == |s| then
      []
    else
      var j := |s| - TrailingWhitespace(s);
      assert i < j by {
        assert !IsWhitespace(s[i]);
      }
      s[i..j]
  }

  /** What `trim` removes is whitespace, and only from the two ends. */
  lemma TrimIsSlice(s: string)
    ensures exists i :: (0 <= i <= |s| - |Trim(s)| && Trim(s) == s[i..i + |Trim(s)|]
      && AllWhitespace(s[..i]) && AllWhitespace(s[i + |Trim(s)|..]))
  {
    var i := LeadingWhitespace(s);
    var t := Trim(s);
    assert AllWhitespace(s[..i]);
    assert AllWhitespace(s[i + |t|..]);
  }

  /** Trimming an already trimmed string changes nothing. */
  lemma TrimIdempotent(s: string)
    ensures Trim(Trim(s)) == Trim(s)
  {
  }

  function LowerChar(c: char): (r: char)
    ensures !('A' <= r <= 'Z')
    ensures 'A' <= c <= 'Z' ==> r as int == c as int + 32
    ensures 'A' <= c <= 'Z' || r == c
  {
    if 'A' <= c <= 'Z' then (c as int + 32) as char else c
  }

  /** `s.toLowerCase()` restricted to the ASCII letters A-Z. */
  function Lower(s: string): (r: string)
    ensures |r| == |s|
    ensures forall i :: 0 <= i < |r| ==> !('A' <= r[i] <= 'Z')
    ensures forall i :: 0 <= i < |s| && 'A' <= s[i] <= 'Z' ==> r[i] as int == s[i] as int + 32
    ensures forall i :: 0 <= i < |s| && !('A' <= s[i] <= 'Z') ==> r[i] == s[i]
  {
    seq(|s|, i requires 0 <= i < |s| => LowerChar(s[i]))
  }

  /** `needle` occurs in `s` starting at position `i`. */
  predicate OccursAt(s: string, needle: string, i: int) {
    0 <= i && i + |needle| <= |s| && s[i..i + |needle|] == needle
  }

  /** `s.includes(needle)`, by checking each start position in turn. */
  function Includes(s: string, needle: string): (b: bool)
    ensures b <==> exists i :: OccursAt(s, needle, i)
    decreases |s|
  {
    if |needle| <= |s| && s[..|needle|] == needle then
      assert OccursAt(s, needle, 0);
      true
    else if s == [] then
      false
    else
      var b := Includes(s[1..], needle);
      assert forall i :: OccursAt(s[1..], needle, i) ==> OccursAt(s, needle, i + 1) by {
        forall i | OccursAt(s[1..], needle, i) ensures OccursAt(s, needle, i + 1) {
          assert s[1..][i..i + |needle|] == s[i + 1..i + 1 + |needle|];
        }
      }
      assert forall i :: OccursAt(s, needle, i) ==> OccursAt(s[1..], needle, i - 1) by {
        forall i | OccursAt(s, needle, i) ensures OccursAt(s[1..], needle, i - 1) {
          assert i != 0;
          assert s[1..][i - 1..i - 1 + |needle|] == s[i..i + |needle|];
        }
      }
      b
  }

  /**
   * The search test of the list views: the lower-cased `term` occurs in the
   * lower-cased `text`.
   */
  predicate MatchesText(text: string, term: string) {
    Includes(Lower(text), Lower(term))
  }

  /** `term` matches `text` at position `i` letter by letter, ignoring ASCII case. */
  predicate MatchesIgnoringCaseAt(text: string, term: string, i: int) {
    0 <= i && i + |term| <= |text|
    && forall k :: 0 <= k < |term| ==> LowerChar(text[i + k]) == LowerChar(term[k])
  }

  /** At one position, the lowered term occurs in the lowered text iff it matches ignoring case. */
  lemma MatchesAtIff(text: string, term: string, i: int)
    ensures OccursAt(Lower(text), Lower(term), i) <==> MatchesIgnoringCaseAt(text, term, i)
  {
    var lt, lm := Lower(text), Lower(term);
    if 0 <= i && i + |term| <= |text| {
      if MatchesIgnoringCaseAt(text, term, i) {
        assert lt[i..i + |lm|] == lm;
      }
      if OccursAt(lt, lm, i) {
        forall k | 0 <= k < |term| ensures LowerChar(text[i + k]) == LowerChar(term[k]) {
          assert lt[i..i + |lm|][k] == lm[k];
        }
      }
    }
  }

  /** The search test is a case-insensitive substring test. */
  lemma MatchesTextIff(text: string, term: string)
    ensures MatchesText(text, term) <==> exists i :: MatchesIgnoringCaseAt(text, term, i)
  {
    forall i ensures OccursAt(Lower(text), Lower(term), i) <==> MatchesIgnoringCaseAt(text, term, i) {
      MatchesAtIff(text, term, i);
    }
  }

  /** Every string contains the empty search term. */
  lemma EmptyTermMatches(text: string)
    ensures MatchesText(text, "")
  {
  }

  /** `tags.some(tag => MatchesText(tag, term))`. */
  predicate AnyMatches(tags: seq<string>, term: string) {
    exists i :: 0 <= i < |tags| && MatchesText(tags[i], term)
  }
}
