/**
 * The two regular-expression steps of generateQuiz: `escapeRegExp`
 * (script.js:343-345) and the blanking `sentence.replace(new
 * RegExp('\\b' + escapeRegExp(keyword) + '\\b'), '_____')` (script.js:297-300).
 */
module Regex {
  import opened Wrappers

  /** The characters `/[.*+?^${}()|[\]\\]/` matches. */
  predicate IsSyntaxChar(c: char) {
    c in ".*+?^${}()|[]\\"
  }

  /** `escapeRegExp`: a backslash before each syntax character. */
  function EscapeRegExp(s: string): (r: string)
    ensures IsLiteralPattern(r)
  {
    if s == [] then []
    else
      var rest := EscapeRegExp(s[1..]);
      var r := (if IsSyntaxChar(s[0]) then ['\\', s[0]] else [s[0]]) + rest;
      assert if IsSyntaxChar(s[0]) then r[2..] == rest else r[1..] == rest;
      r
  }

  /** A pattern built only of ordinary characters and escaped syntax characters. */
  predicate IsLiteralPattern(p: string)
    decreases |p|
  {
    if p == [] then true
    else if p[0] == '\\' then |p| >= 2 && IsSyntaxChar(p[1]) && IsLiteralPattern(p[2..])
    else !IsSyntaxChar(p[0]) && IsLiteralPattern(p[1..])
  }

  /** The one string a literal pattern matches. */
  function LiteralOf(p: string): string
    requires IsLiteralPattern(p)
    decreases |p|
  {
    if p == [] then []
    else if p[0] == '\\' then [p[1]] + LiteralOf(p[2..])
    else [p[0]] + LiteralOf(p[1..])
  }

  /** The escaped keyword, used as a pattern, matches exactly the keyword. */
  lemma {:induction false} LiteralOfEscape(s: string)
    ensures LiteralOf(EscapeRegExp(s)) == s
  {
    if s != [] {
      LiteralOfEscape(s[1..]);
      var rest := EscapeRegExp(s[1..]);
      if IsSyntaxChar(s[0]) {
        assert (['\\', s[0]] + rest)[2..] == rest;
      } else {
        assert ([s[0]] + rest)[1..] == rest;
      }
    }
  }

  /** Every literal pattern is the escaping of the string it matches. */
  lemma {:induction false} EscapeLiteralOf(p: string)
    requires IsLiteralPattern(p)
    ensures EscapeRegExp(LiteralOf(p)) == p
    decreases |p|
  {
    if p != [] {
      if p[0] == '\\' {
        EscapeLiteralOf(p[2..]);
        assert ([p[1]] + LiteralOf(p[2..]))[1..] == LiteralOf(p[2..]);
        assert p == ['\\', p[1]] + p[2..];
      } else {
        EscapeLiteralOf(p[1..]);
        assert ([p[0]] + LiteralOf(p[1..]))[1..] == LiteralOf(p[1..]);
        assert p == [p[0]] + p[1..];
      }
    }
  }

  /** `\w` without the unicode flag. */
  predicate IsWordChar(c: char) {
    ('A' <= c <= 'Z') || ('a' <= c <= 'z') || ('0' <= c <= '9') || c == '_'
  }

  /** Position `i` of `s` holds a word character; positions outside `s` do not. */
  predicate WordAt(s: string, i: int) {
    0 <= i < |s| && IsWordChar(s[i])
  }

  /** `\b` holds between positions `i - 1` and `i`. */
  predicate IsBoundary(s: string, i: int) {
    WordAt(s, i - 1) != WordAt(s, i)
  }

  /** `kw` occurs in `s` starting at `p`. */
  predicate OccursAt(s: string, kw: string, p: int) {
    0 <= p <= |s| - |kw| && s[p..p + |kw|] == kw
  }

  /** `\bkw\b` matches `s` starting at `p`. */
  predicate WholeWordAt(s: string, kw: string, p: int) {
    && OccursAt(s, kw, p)
    && IsBoundary(s, p)
    && IsBoundary(s, p + |kw|)
  }

  /** The leftmost match of `\bkw\b` at or after `from`, as the regex search finds it. */
  function FindWholeWord(s: string, kw: string, from: nat): (r: Option<nat>)
    requires from <= |s| + 1
    ensures r.None? ==> forall p :: from <= p <= |s| ==> !WholeWordAt(s, kw, p)
    ensures r.Some? ==> from <= r.value && WholeWordAt(s, kw, r.value)
                        && forall p :: from <= p < r.value ==> !WholeWordAt(s, kw, p)
    decreases |s| + 1 - from
  {
    if from > |s| then None
    else if WholeWordAt(s, kw, from) then Some(from)
    else FindWholeWord(s, kw, from + 1)
  }

  /** The replacement text of script.js:299. */
  const Blank: string := "_____"

  /**
   * `sentence.replace(/\bkw\b/, '_____')`: only the leftmost whole-word
   * occurrence is replaced; without one the sentence comes back unchanged.
   */
  function BlankFirst(sentence: string, kw: string): (r: string)
    ensures (forall p :: 0 <= p <= |sentence| ==> !WholeWordAt(sentence, kw, p)) ==> r == sentence
    ensures forall p :: 0 <= p <= |sentence| && WholeWordAt(sentence, kw, p)
                        && (forall q :: 0 <= q < p ==> !WholeWordAt(sentence, kw, q)) ==>
              r == sentence[..p] + Blank + sentence[p + |kw|..]
  {
    match FindWholeWord(sentence, kw, 0)
    case None => sentence
    case Some(p) => sentence[..p] + Blank + sentence[p + |kw|..]
  }

  /**
   * A keyword whose last character is not a word character is never blanked
   * when no word character follows any of its occurrences: the closing `\b`
   * needs a word character on one side.
   */
  lemma NonWordEndingNotBlanked(sentence: string, kw: string)
    requires |kw| > 0 && !IsWordChar(kw[|kw| - 1])
    requires forall p :: OccursAt(sentence, kw, p) ==> !WordAt(sentence, p + |kw|)
    ensures BlankFirst(sentence, kw) == sentence
  {
    forall p | 0 <= p <= |sentence|
      ensures !WholeWordAt(sentence, kw, p)
    {
      if OccursAt(sentence, kw, p) {
        assert sentence[p + |kw| - 1] == sentence[p..p + |kw|][|kw| - 1];
      }
    }
  }
}
