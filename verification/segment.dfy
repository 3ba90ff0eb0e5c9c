/**
 * Segmentation of the note text in generateQuiz (script.js:268-280):
 * sentence splitting, the five-token filter, the corpus of candidate
 * distractor words and the keywords of one sentence.
 */
module Segment {
  import opened Text

  /** The characters after which `/(?<=[.!?])/` cuts. */
  predicate IsDelimiter(c: char) {
    c == '.' || c == '!' || c == '?'
  }

  /** A delimiter can only be the last character. */
  predicate DelimitedOnlyAtEnd(s: string) {
    forall i :: 0 <= i < |s| - 1 ==> !IsDelimiter(s[i])
  }

  function Concat(ps: seq<string>): string {
    if ps == [] then [] else ps[0] + Concat(ps[1..])
  }

  /**
   * `s.split(/(?<=[.!?])/g)`: a cut after every delimiter that is not the
   * final character, so no piece is empty and each keeps its delimiter.
   */
  function SplitAfterDelimiters(s: string): (r: seq<string>)
    ensures |r| >= 1
    ensures forall k :: 0 <= k < |r| ==> DelimitedOnlyAtEnd(r[k])
    ensures forall k :: 0 <= k < |r| - 1 ==> r[k] != [] && IsDelimiter(r[k][|r[k]| - 1])
    ensures s != [] ==> forall k :: 0 <= k < |r| ==> r[k] != []
    decreases |s|
  {
    if |s| <= 1 then [s]
    else if IsDelimiter(s[0]) then [[s[0]]] + SplitAfterDelimiters(s[1..])
    else
      var rest := SplitAfterDelimiters(s[1..]);
      [[s[0]] + rest[0]] + rest[1..]
  }

  /** The sentence pieces put back together are the text that was split. */
  lemma {:induction false} ConcatSplitAfterDelimiters(s: string)
    ensures Concat(SplitAfterDelimiters(s)) == s
    decreases |s|
  {
    if |s| > 1 {
      var rest := SplitAfterDelimiters(s[1..]);
      ConcatSplitAfterDelimiters(s[1..]);
      assert s == [s[0]] + s[1..];
      if IsDelimiter(s[0]) {
        assert ([[s[0]]] + rest)[1..] == rest;
      } else {
        var r := [[s[0]] + rest[0]] + rest[1..];
        assert r[1..] == rest[1..];
        assert rest == [rest[0]] + rest[1..];
        assert Concat(rest) == rest[0] + Concat(rest[1..]);
      }
    } else {
      assert [s][1..] == [];
    }
  }

  lemma {:induction false} SplitLastPiece(x: string)
    requires x != [] && DelimitedOnlyAtEnd(x)
    ensures SplitAfterDelimiters(x) == [x]
    decreases |x|
  {
    if |x| > 1 {
      SplitLastPiece(x[1..]);
      assert [x[0]] + x[1..] == x;
    }
  }

  lemma {:induction false} SplitFirstPiece(x: string, t: string)
    requires x != [] && DelimitedOnlyAtEnd(x) && IsDelimiter(x[|x| - 1]) && t != []
    ensures SplitAfterDelimiters(x + t) == [x] + SplitAfterDelimiters(t)
    decreases |x|
  {
    assert (x + t)[1..] == x[1..] + t;
    if |x| > 1 {
      SplitFirstPiece(x[1..], t);
      var rest := SplitAfterDelimiters(x[1..] + t);
      assert rest[0] == x[1..] && rest[1..] == SplitAfterDelimiters(t);
      assert [x[0]] + x[1..] == x;
    } else {
      assert x == [x[0]];
    }
  }

  /**
   * Conversely, pieces that are non-empty, carry a delimiter only at their
   * end and (all but the last) end with one are exactly what splitting
   * their concatenation gives.
   */
  lemma {:induction false} SplitAfterDelimitersConcat(ps: seq<string>)
    requires |ps| >= 1
    requires forall k :: 0 <= k < |ps| ==> ps[k] != [] && DelimitedOnlyAtEnd(ps[k])
    requires forall k :: 0 <= k < |ps| - 1 ==> IsDelimiter(ps[k][|ps[k]| - 1])
    ensures SplitAfterDelimiters(Concat(ps)) == ps
  {
    if |ps| == 1 {
      assert ps[1..] == [];
      assert Concat(ps) == ps[0] + Concat([]) == ps[0];
      SplitLastPiece(ps[0]);
    } else {
      SplitAfterDelimitersConcat(ps[1..]);
      assert ps[1] != [];
      assert Concat(ps[1..]) == ps[1] + Concat(ps[2..]);
      SplitFirstPiece(ps[0], Concat(ps[1..]));
      assert ps == [ps[0]] + ps[1..];
    }
  }

  /** `s.split(' ').length`. */
  function TokenCount(s: string): nat {
    |SplitOn(s, ' ')|
  }

  /** The `validSentences` test: at least five space-separated tokens. */
  predicate IsCandidate(s: string) {
    TokenCount(s) >= 5
  }

  function TrimAll(ps: seq<string>): (r: seq<string>)
    ensures |r| == |ps|
    ensures forall k :: 0 <= k < |ps| ==> r[k] == Trim(ps[k])
  {
    if ps == [] then [] else [Trim(ps[0])] + TrimAll(ps[1..])
  }

  function FilterCandidates(ts: seq<string>): (r: seq<string>)
    ensures |r| <= |ts|
    ensures |ts| == 1 ==> (r == ts <==> IsCandidate(ts[0])) && (r == [] <==> !IsCandidate(ts[0]))
    ensures forall t :: t in r <==> t in ts && IsCandidate(t)
  {
    if ts == [] then [] else (if IsCandidate(ts[0]) then [ts[0]] else []) + FilterCandidates(ts[1..])
  }

  /** The filter keeps order and multiplicity: it distributes over concatenation. */
  lemma {:induction false} FilterCandidatesAppend(a: seq<string>, b: seq<string>)
    ensures FilterCandidates(a + b) == FilterCandidates(a) + FilterCandidates(b)
  {
    if a == [] {
      assert a + b == b;
    } else {
      assert (a + b)[1..] == a[1..] + b;
      FilterCandidatesAppend(a[1..], b);
    }
  }

  /** The `validSentences` of generateQuiz: the trimmed pieces with five tokens or more. */
  function Candidates(pieces: seq<string>): (r: seq<string>)
    ensures forall t :: t in r <==> t in TrimAll(pieces) && IsCandidate(t)
  {
    FilterCandidates(TrimAll(pieces))
  }

  /** Trimming a piece keeps its delimiters at the end. */
  lemma TrimKeepsDelimitedOnlyAtEnd(s: string)
    requires DelimitedOnlyAtEnd(s)
    ensures DelimitedOnlyAtEnd(Trim(s))
  {
    var r := Trim(s);
    var a := |s| - |TrimStart(s)|;
    assert SpaceAround(s, r, a);
    var mid := s[a..a + |r|];
    assert mid == r;
    forall i | 0 <= i < |r| - 1
      ensures !IsDelimiter(r[i])
    {
      assert r[i] == mid[i] == s[a + i];
      assert a + i < |s| - 1;
    }
  }

  /** The words of one sentence that may be its keyword (script.js:291-293). */
  function Keywords(sentence: string): (r: seq<string>)
    ensures forall w :: w in r <==> w in SplitWs(sentence) && Qualifies(w)
  {
    FilterQualifying(SplitWs(sentence))
  }

  /** `validSentences`: trimmed sentences of five tokens or more, delimiters only at their end. */
  function Sentences(normalized: string): (r: seq<string>)
    ensures forall s :: s in r ==> IsTrimmed(s) && IsCandidate(s) && DelimitedOnlyAtEnd(s)
    ensures forall k :: 0 <= k < |SplitAfterDelimiters(normalized)| ==>
              var t := Trim(SplitAfterDelimiters(normalized)[k]);
              IsCandidate(t) ==> t in r
  {
    var pieces := SplitAfterDelimiters(normalized);
    CandidatesShape(pieces);
    Candidates(pieces)
  }

  /** Every candidate is trimmed and keeps its delimiter at the end. */
  lemma CandidatesShape(pieces: seq<string>)
    requires forall k :: 0 <= k < |pieces| ==> DelimitedOnlyAtEnd(pieces[k])
    ensures forall s :: s in Candidates(pieces) ==> IsTrimmed(s) && DelimitedOnlyAtEnd(s)
  {
    forall s | s in Candidates(pieces)
      ensures IsTrimmed(s) && DelimitedOnlyAtEnd(s)
    {
      var k :| 0 <= k < |pieces| && TrimAll(pieces)[k] == s;
      TrimKeepsDelimitedOnlyAtEnd(pieces[k]);
    }
  }

  /**
   * For text made of sentence pieces (each non-empty, with a delimiter only
   * at its end, and all but the last ending in one), `validSentences` is
   * those pieces trimmed and filtered, in their order and with repeats.
   */
  lemma SentencesOfPieces(ps: seq<string>)
    requires |ps| >= 1
    requires forall k :: 0 <= k < |ps| ==> ps[k] != [] && DelimitedOnlyAtEnd(ps[k])
    requires forall k :: 0 <= k < |ps| - 1 ==> IsDelimiter(ps[k][|ps[k]| - 1])
    ensures Sentences(Concat(ps)) == FilterCandidates(TrimAll(ps))
  {
    SplitAfterDelimitersConcat(ps);
  }

  /** `uniqueWords`: every qualifying token of the text, each once. */
  function Corpus(normalized: string): (r: seq<string>)
    ensures Distinct(r)
    ensures forall w :: w in r <==> w in SplitWs(normalized) && Qualifies(w)
  {
    var words := FilterQualifying(SplitWs(normalized));
    var corpus := Dedup(words);
    assert forall w :: w in corpus <==> w in words by {
      forall w | w in corpus ensures w in words {
        var i :| 0 <= i < |corpus| && corpus[i] == w;
      }
      forall w | w in words ensures w in corpus {
        var i :| 0 <= i < |words| && words[i] == w;
      }
    }
    corpus
  }
}
