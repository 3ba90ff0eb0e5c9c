/**
 * generateQuiz (script.js:261-341) as a pure function of the note text and
 * the stream of `Math.random()` results: keyword choice, blanking,
 * distractor selection, option shuffle and sampling of sentences without
 * replacement.
 */
module Generate {
  import opened Wrappers
  import opened Text
  import opened Segment
  import opened Regex
  import opened Random

  /** The question record pushed at script.js:321-328. */
  datatype Question = Question(
    sentence: string,
    blanked: string,
    options: seq<string>,
    correctIndex: int,
    topicWord: string,
    explanation: string)

  /** At most this many questions per quiz (script.js:282). */
  const MaxQuestions: nat := 8

  /** At most this many distractors per question (script.js:310). */
  const MaxDistractors: nat := 3

  function Explanation(kw: string, sentence: string): string {
    "The correct answer is \"" + kw + "\" because the original sentence is: " + sentence
  }

  /** The option `options[correctIndex]`, i.e. the keyword. */
  function Answer(q: Question): string
    requires 0 <= q.correctIndex < |q.options|
  {
    q.options[q.correctIndex]
  }

  /** What every generated question satisfies, relative to the corpus it drew distractors from. */
  predicate WellFormed(q: Question, corpus: seq<string>) {
    && 1 <= |q.options| <= 1 + MaxDistractors
    && 0 <= q.correctIndex < |q.options|
    && Distinct(q.options)
    && Answer(q) in Keywords(q.sentence)
    && q.topicWord == Lower(Answer(q))
    && q.blanked == BlankFirst(q.sentence, Answer(q))
    && q.explanation == Explanation(Answer(q), q.sentence)
    && forall i :: 0 <= i < |q.options| && i != q.correctIndex ==>
         q.options[i] in corpus && Lower(q.options[i]) != q.topicWord
  }

  /** `available`: the corpus words that differ from the keyword ignoring case (script.js:303). */
  function Available(corpus: seq<string>, kw: string): (r: seq<string>)
    ensures forall w :: w in r <==> w in corpus && Lower(w) != Lower(kw)
    ensures Distinct(corpus) ==> Distinct(r)
  {
    if corpus == [] then []
    else (if Lower(corpus[0]) != Lower(kw) then [corpus[0]] else []) + Available(corpus[1..], kw)
  }

  /** The `for (const w of available)` loop: the first `k` words that are not stop-words. */
  function TakeNonStop(ws: seq<string>, k: nat): (r: seq<string>)
    ensures |r| <= k
    ensures forall w :: w in r ==> w in ws && Lower(w) !in StopWords
    ensures Distinct(ws) ==> Distinct(r)
    ensures (forall i :: 0 <= i < |ws| ==> Lower(ws[i]) !in StopWords) ==> r == ws[..Min(k, |ws|)]
  {
    if k == 0 || ws == [] then []
    else if Lower(ws[0]) in StopWords then TakeNonStop(ws[1..], k)
    else
      var rest := TakeNonStop(ws[1..], k - 1);
      assert ws[..Min(k, |ws|)] == [ws[0]] + ws[1..][..Min(k - 1, |ws| - 1)];
      [ws[0]] + rest
  }

  /**
   * The distractors of script.js:302-312: shuffle `available`, then keep at
   * most three. Each is a corpus word, none equals the keyword ignoring case,
   * no two are equal, and there are exactly `min(3, |available|)` of them.
   */
  function Distractors(corpus: seq<string>, kw: string, rand: Stream, pos: nat): (r: (seq<string>, nat))
    requires Distinct(corpus)
    requires forall w :: w in corpus ==> Qualifies(w)
    ensures |r.0| == Min(MaxDistractors, |Available(corpus, kw)|)
    ensures forall w :: w in r.0 ==> w in corpus && Lower(w) != Lower(kw)
    ensures Distinct(r.0)
    ensures r.1 >= pos
  {
    var available := Available(corpus, kw);
    var (shuffled, next) := FisherYates(available, rand, pos);
    SameElements(shuffled, available);
    assert forall i :: 0 <= i < |shuffled| ==> Lower(shuffled[i]) !in StopWords by {
      forall i | 0 <= i < |shuffled|
        ensures Lower(shuffled[i]) !in StopWords
      {
        assert shuffled[i] in available;
        assert shuffled[i] in corpus;
        assert Qualifies(shuffled[i]);
      }
    }
    (TakeNonStop(shuffled, MaxDistractors), next)
  }

  lemma SameElements(a: seq<string>, b: seq<string>)
    requires multiset(a) == multiset(b)
    ensures forall w :: w in a <==> w in b
  {
    forall w
      ensures w in a <==> w in b
    {
      assert w in a <==> w in multiset(a);
      assert w in b <==> w in multiset(b);
    }
  }

  /** `options.indexOf(x)`. */
  function IndexOf(s: seq<string>, x: string): (i: int)
    ensures x in s ==> 0 <= i < |s| && s[i] == x && forall k :: 0 <= k < i ==> s[k] != x
    ensures x !in s ==> i == -1
  {
    if s == [] then -1
    else if s[0] == x then 0
    else var i := IndexOf(s[1..], x); if i < 0 then -1 else i + 1
  }

  /**
   * Options and correct index (script.js:314-320): the keyword and the
   * distractors, shuffled; `correctIndex` points at the keyword.
   */
  function ShuffleOptions(kw: string, distractors: seq<string>, rand: Stream, pos: nat): (r: (seq<string>, int, nat))
    requires kw !in distractors && Distinct(distractors)
    ensures multiset(r.0) == multiset([kw] + distractors)
    ensures |r.0| == 1 + |distractors| && Distinct(r.0)
    ensures 0 <= r.1 < |r.0| && r.0[r.1] == kw
    ensures r.2 >= pos
  {
    var options := [kw] + distractors;
    assert Distinct(options);
    var (shuffled, next) := FisherYates(options, rand, pos);
    assert kw in multiset(shuffled);
    (shuffled, IndexOf(shuffled, kw), next)
  }

  /**
   * One accepted sentence turned into a question (script.js:291-328); the
   * draws are the keyword position, the shuffle of `available` and the
   * shuffle of the options, in that order.
   */
  function BuildQuestion(sentence: string, corpus: seq<string>, rand: Stream, pos: nat): (r: (Question, nat))
    requires Keywords(sentence) != []
    requires Distinct(corpus)
    requires forall w :: w in corpus ==> Qualifies(w)
    ensures WellFormed(r.0, corpus)
    ensures r.0.sentence == sentence
    ensures |r.0.options| == 1 + Min(MaxDistractors, |Available(corpus, Answer(r.0))|)
    ensures r.1 > pos
  {
    var words := Keywords(sentence);
    var kw := words[Pick(rand(pos), |words|)];
    var blanked := BlankFirst(sentence, LiteralOf(EscapeRegExp(kw)));
    LiteralOfEscape(kw);
    var (distractors, p1) := Distractors(corpus, kw, rand, pos + 1);
    var (options, ci, p2) := ShuffleOptions(kw, distractors, rand, p1);
    var q := Question(sentence, blanked, options, ci, Lower(kw), Explanation(kw, sentence));
    AssembledWellFormed(q, corpus, distractors);
    (q, p2)
  }

  /** The question put together from a keyword, its distractors and their shuffle is well formed. */
  lemma AssembledWellFormed(q: Question, corpus: seq<string>, distractors: seq<string>)
    requires 0 <= q.correctIndex < |q.options|
    requires Answer(q) in Keywords(q.sentence)
    requires q.topicWord == Lower(Answer(q))
    requires q.blanked == BlankFirst(q.sentence, Answer(q))
    requires q.explanation == Explanation(Answer(q), q.sentence)
    requires |distractors| <= MaxDistractors
    requires forall w :: w in distractors ==> w in corpus && Lower(w) != Lower(Answer(q))
    requires multiset(q.options) == multiset([Answer(q)] + distractors) && Distinct(q.options)
    ensures WellFormed(q, corpus)
  {
    assert |q.options| == 1 + |distractors| by {
      assert |multiset(q.options)| == |multiset([Answer(q)] + distractors)|;
    }
    OthersAreDistractors(Answer(q), distractors, q.options, q.correctIndex);
  }

  /** In a permutation of `[kw] + distractors` without repeats, every option other than `kw` is a distractor. */
  lemma OthersAreDistractors(kw: string, distractors: seq<string>, options: seq<string>, ci: int)
    requires multiset(options) == multiset([kw] + distractors) && Distinct(options)
    requires 0 <= ci < |options| && options[ci] == kw
    ensures forall i :: 0 <= i < |options| && i != ci ==> options[i] in distractors
  {
    forall i | 0 <= i < |options| && i != ci
      ensures options[i] in distractors
    {
      assert options[i] in multiset([kw] + distractors);
      assert options[i] != kw;
    }
  }

  /** The state of the sampling loop of script.js:285-329. */
  datatype Sampling = Sampling(questions: seq<Question>, indices: seq<nat>, used: set<nat>, pos: nat)

  /**
   * What the loop keeps: question `k` comes from sentence `indices[k]`, no
   * index is used twice, and a used index without a question is one whose
   * sentence had no keyword.
   */
  predicate SamplingInv(sentences: seq<string>, corpus: seq<string>, st: Sampling) {
    && |st.questions| == |st.indices|
    && Distinct(st.indices)
    && (forall i :: i in st.used ==> i < |sentences|)
    && (forall k :: 0 <= k < |st.indices| ==> st.indices[k] in st.used)
    && (forall k :: 0 <= k < |st.questions| ==>
          st.questions[k].sentence == sentences[st.indices[k]] && WellFormed(st.questions[k], corpus))
    && (forall i :: i in st.used && i !in st.indices ==> Keywords(sentences[i]) == [])
  }

  /** Accepting a fresh index with its question keeps the sampling invariant. */
  lemma AcceptKeepsInv(sentences: seq<string>, corpus: seq<string>, st: Sampling,
                       idx: nat, q: Question, next: nat)
    requires SamplingInv(sentences, corpus, st)
    requires idx < |sentences| && idx !in st.used
    requires q.sentence == sentences[idx] && WellFormed(q, corpus)
    ensures SamplingInv(sentences, corpus,
                        Sampling(st.questions + [q], st.indices + [idx], st.used + {idx}, next))
  {
    var st' := Sampling(st.questions + [q], st.indices + [idx], st.used + {idx}, next);
    assert idx !in st.indices;
    assert forall k :: 0 <= k < |st.indices| ==> st'.indices[k] == st.indices[k];
    assert forall k :: 0 <= k < |st.questions| ==> st'.questions[k] == st.questions[k];
  }

  /** Marking an index without a keyword as used keeps the sampling invariant. */
  lemma SkipKeepsInv(sentences: seq<string>, corpus: seq<string>, st: Sampling, idx: nat)
    requires SamplingInv(sentences, corpus, st)
    requires idx < |sentences| && Keywords(sentences[idx]) == []
    ensures SamplingInv(sentences, corpus, st.(used := st.used + {idx}, pos := st.pos + 1))
  {
  }

  /**
   * One iteration of the loop body (script.js:286-328): draw `idx`; a used
   * index is drawn again, a sentence without keyword is marked used and
   * skipped, any other sentence yields one question.
   */
  function SampleStep(sentences: seq<string>, corpus: seq<string>, rand: Stream, st: Sampling): (r: Sampling)
    requires Distinct(corpus) && forall w :: w in corpus ==> Qualifies(w)
    requires SamplingInv(sentences, corpus, st) && |sentences| > 0
    ensures SamplingInv(sentences, corpus, r)
    ensures st.questions <= r.questions && |r.questions| <= |st.questions| + 1
    ensures st.indices <= r.indices && st.used <= r.used
    ensures r.pos > st.pos
  {
    var idx := Pick(rand(st.pos), |sentences|);
    if idx in st.used then st.(pos := st.pos + 1)
    else if Keywords(sentences[idx]) == [] then
      SkipKeepsInv(sentences, corpus, st, idx);
      st.(used := st.used + {idx}, pos := st.pos + 1)
    else
      var (q, next) := BuildQuestion(sentences[idx], corpus, rand, st.pos + 1);
      AcceptKeepsInv(sentences, corpus, st, idx, q, next);
      Sampling(st.questions + [q], st.indices + [idx], st.used + {idx}, next)
  }

  /**
   * The `while` loop of script.js:285-329: it stops once `target` questions
   * exist or every index is used. It runs for at most `fuel` iterations and
   * returns the unspent fuel.
   */
  function SampleLoop(sentences: seq<string>, corpus: seq<string>, target: nat,
                      rand: Stream, fuel: nat, st: Sampling): (r: (Sampling, nat))
    requires Distinct(corpus) && forall w :: w in corpus ==> Qualifies(w)
    requires SamplingInv(sentences, corpus, st) && |st.questions| <= target
    ensures SamplingInv(sentences, corpus, r.0)
    ensures |r.0.questions| <= target
    ensures st.questions <= r.0.questions && st.indices <= r.0.indices && st.used <= r.0.used
    ensures r.1 == 0 || |r.0.questions| == target || |r.0.used| >= |sentences|
    decreases fuel
  {
    if fuel == 0 || |st.questions| >= target || |st.used| >= |sentences| then (st, fuel)
    else SampleLoop(sentences, corpus, target, rand, fuel - 1, SampleStep(sentences, corpus, rand, st))
  }

  function Range(n: nat): (r: set<nat>)
    ensures forall i: nat :: i in r <==> i < n
    ensures |r| == n
  {
    if n == 0 then {} else
      var r := Range(n - 1) + {n - 1};
      assert n - 1 !in Range(n - 1);
      r
  }

  lemma SubsetSize(a: set<nat>, b: set<nat>)
    requires a <= b
    ensures |a| <= |b|
  {
    if a != {} {
      var x :| x in a;
      SubsetSize(a - {x}, b - {x});
    }
  }

  /** A set of indices below `n` with `n` elements holds every index below `n`. */
  lemma FullIndexSet(used: set<nat>, n: nat)
    requires forall i :: i in used ==> i < n
    requires |used| >= n
    ensures forall i :: 0 <= i < n ==> i in used
  {
    forall i | 0 <= i < n
      ensures i in used
    {
      if i !in used {
        SubsetSize(used, Range(n) - {i});
      }
    }
  }

  /**
   * When the loop stops with fuel left, either the target number of
   * questions exists or every sentence index has been drawn.
   */
  lemma SampleLoopStops(sentences: seq<string>, corpus: seq<string>, target: nat,
                        rand: Stream, fuel: nat, st: Sampling)
    requires Distinct(corpus) && forall w :: w in corpus ==> Qualifies(w)
    requires SamplingInv(sentences, corpus, st) && |st.questions| <= target
    ensures var (r, left) := SampleLoop(sentences, corpus, target, rand, fuel, st);
            left > 0 ==> |r.questions| == target || forall i :: 0 <= i < |sentences| ==> i in r.used
  {
    var (r, left) := SampleLoop(sentences, corpus, target, rand, fuel, st);
    if left > 0 && |r.questions| != target {
      FullIndexSet(r.used, |sentences|);
    }
  }

  /**
   * A keyword that ends with `.`, `!` or `?` is never blanked: inside a
   * sentence such a keyword can only sit at the very end, where the closing
   * `\b` cannot hold. The question then shows its own answer.
   */
  lemma DelimitedAnswerNotBlanked(q: Question, corpus: seq<string>)
    requires WellFormed(q, corpus) && DelimitedOnlyAtEnd(q.sentence)
    requires IsDelimiter(Answer(q)[|Answer(q)| - 1])
    ensures q.blanked == q.sentence
  {
    DelimitedKeywordNotBlanked(q.sentence, Answer(q));
  }

  lemma DelimitedKeywordNotBlanked(s: string, kw: string)
    requires DelimitedOnlyAtEnd(s) && |kw| > 0 && IsDelimiter(kw[|kw| - 1])
    ensures BlankFirst(s, kw) == s
  {
    forall p | OccursAt(s, kw, p)
      ensures !WordAt(s, p + |kw|)
    {
      assert s[p + |kw| - 1] == s[p..p + |kw|][|kw| - 1];
      assert p + |kw| - 1 >= |s| - 1;
    }
    NonWordEndingNotBlanked(s, kw);
  }

  /** The questions of `qs` come from pairwise different positions `idx` of `sentences`. */
  predicate FromDistinctIndices(qs: seq<Question>, sentences: seq<string>, idx: seq<nat>) {
    && |idx| == |qs|
    && Distinct(idx)
    && forall k :: 0 <= k < |qs| ==> idx[k] < |sentences| && qs[k].sentence == sentences[idx[k]]
  }

  /**
   * Why generateQuiz returns without writing a quiz. `OutOfFuel` is not an
   * outcome of script.js: it marks a run whose iteration bound was reached
   * before the sampling loop's own exit condition held.
   */
  datatype GenError =
    | EmptyNotes        // script.js:263-266
    | NotEnoughContent  // script.js:273-276
    | NoQuestions       // script.js:330-333
    | OutOfFuel

  /** The positions of `sentences` whose sentence has a keyword. */
  function KeywordIndices(sentences: seq<string>): (r: set<nat>)
    ensures forall i: nat :: i in r <==> i < |sentences| && Keywords(sentences[i]) != []
    ensures |r| <= |sentences|
  {
    var r := set i: nat | i < |sentences| && Keywords(sentences[i]) != [];
    SubsetSize(r, Range(|sentences|));
    r
  }

  /** The sampling loop's own exit condition (script.js:285). */
  predicate Finished(sentences: seq<string>, target: nat, st: Sampling) {
    |st.questions| >= target || |st.used| >= |sentences|
  }

  lemma {:induction false} DistinctCard(s: seq<nat>)
    requires Distinct(s)
    ensures |set x: nat | x in s| == |s|
  {
    if s != [] {
      var p := s[..|s| - 1];
      DistinctCard(p);
      assert (set x: nat | x in s) == (set x: nat | x in p) + {s[|s| - 1]};
      assert s[|s| - 1] !in p;
    }
  }

  /** Every index that produced a question is the index of a sentence with a keyword. */
  lemma IndicesHaveKeywords(sentences: seq<string>, corpus: seq<string>, st: Sampling)
    requires SamplingInv(sentences, corpus, st)
    ensures (set x: nat | x in st.indices) <= KeywordIndices(sentences)
  {
    forall k | 0 <= k < |st.indices|
      ensures st.indices[k] in KeywordIndices(sentences)
    {
      assert st.indices[k] in st.used;
      var q := st.questions[k];
      assert WellFormed(q, corpus) && q.sentence == sentences[st.indices[k]];
      assert Answer(q) in Keywords(q.sentence);
    }
  }

  /** With every index drawn, every sentence with a keyword produced a question. */
  lemma KeywordsAllFound(sentences: seq<string>, corpus: seq<string>, st: Sampling)
    requires SamplingInv(sentences, corpus, st)
    requires forall i :: 0 <= i < |sentences| ==> i in st.used
    ensures KeywordIndices(sentences) <= (set x: nat | x in st.indices)
  {
  }

  /**
   * When the loop exits on its own, it has collected one question for each
   * sentence with a keyword, up to the maximum of eight.
   */
  lemma FinishedCount(sentences: seq<string>, corpus: seq<string>, st: Sampling)
    requires SamplingInv(sentences, corpus, st)
    requires |st.questions| <= Min(MaxQuestions, |sentences|)
    requires Finished(sentences, Min(MaxQuestions, |sentences|), st)
    ensures |st.questions| == Min(MaxQuestions, |KeywordIndices(sentences)|)
  {
    var kws := KeywordIndices(sentences);
    var found := set x: nat | x in st.indices;
    DistinctCard(st.indices);
    IndicesHaveKeywords(sentences, corpus, st);
    if |st.questions| < Min(MaxQuestions, |sentences|) {
      FullIndexSet(st.used, |sentences|);
      KeywordsAllFound(sentences, corpus, st);
    }
    CountFromSets(found, kws, |st.questions|, |sentences|);
  }

  /** The counting step of FinishedCount, on sets alone. */
  lemma CountFromSets(found: set<nat>, kws: set<nat>, count: nat, n: nat)
    requires |found| == count && found <= kws && |kws| <= n && count <= Min(MaxQuestions, n)
    requires count >= Min(MaxQuestions, n) || kws <= found
    ensures count == Min(MaxQuestions, |kws|)
  {
    SubsetSize(found, kws);
    if kws <= found {
      SubsetSize(kws, found);
    }
  }

  /** The note text normalised as script.js:262 and 268 do it. */
  function Normalized(notes: string): string {
    Collapse(Trim(notes))
  }

  /**
   * The part of generateQuiz after segmentation (script.js:281-333): sample
   * the valid sentences and build the questions.
   */
  function QuizFrom(sentences: seq<string>, corpus: seq<string>, rand: Stream, fuel: nat)
    : (r: Result<seq<Question>, GenError>)
    requires sentences != []
    requires Distinct(corpus) && forall w :: w in corpus ==> Qualifies(w)
    ensures r.Failure? ==> r.error == NoQuestions || r.error == OutOfFuel
    ensures r == Failure(NoQuestions) ==> KeywordIndices(sentences) == {}
    ensures r.Success? ==>
              && |r.value| == Min(MaxQuestions, |KeywordIndices(sentences)|)
              && 1 <= |r.value| <= Min(MaxQuestions, |sentences|)
              && (forall q :: q in r.value ==> WellFormed(q, corpus) && q.sentence in sentences)
              && exists idx :: FromDistinctIndices(r.value, sentences, idx)
  {
    var target := Min(MaxQuestions, |sentences|);
    var (st, _) := SampleLoop(sentences, corpus, target, rand, fuel, Sampling([], [], {}, 0));
    if !Finished(sentences, target, st) then Failure(OutOfFuel)
    else
      FinishedCount(sentences, corpus, st);
      if st.questions == [] then Failure(NoQuestions)
      else
        SampledQuestions(sentences, corpus, st);
        Success(st.questions)
  }

  /**
   * generateQuiz without its DOM and storage effects: the questions it
   * would save, or the reason it stops.
   */
  function GenerateQuiz(notes: string, rand: Stream, fuel: nat): (r: Result<seq<Question>, GenError>)
    ensures r == Failure(EmptyNotes) <==> Trim(notes) == []
    ensures r == Failure(NotEnoughContent) <==> Trim(notes) != [] && Sentences(Normalized(notes)) == []
    ensures r == Failure(NoQuestions) ==> KeywordIndices(Sentences(Normalized(notes))) == {}
    ensures r.Success? ==>
              && |r.value| == Min(MaxQuestions, |KeywordIndices(Sentences(Normalized(notes)))|)
              && 1 <= |r.value| <= Min(MaxQuestions, |Sentences(Normalized(notes))|)
              && (forall q :: q in r.value ==>
                    WellFormed(q, Corpus(Normalized(notes))) && q.sentence in Sentences(Normalized(notes)))
              && exists idx :: FromDistinctIndices(r.value, Sentences(Normalized(notes)), idx)
  {
    if Trim(notes) == [] then Failure(EmptyNotes)
    else
      var normalized := Normalized(notes);
      var sentences := Sentences(normalized);
      if sentences == [] then Failure(NotEnoughContent)
      else QuizFrom(sentences, Corpus(normalized), rand, fuel)
  }

  /** What the sampling invariant says about the questions collected so far. */
  lemma SampledQuestions(sentences: seq<string>, corpus: seq<string>, st: Sampling)
    requires SamplingInv(sentences, corpus, st)
    ensures FromDistinctIndices(st.questions, sentences, st.indices)
    ensures forall q :: q in st.questions ==> WellFormed(q, corpus) && q.sentence in sentences
  {
    forall q | q in st.questions
      ensures WellFormed(q, corpus) && q.sentence in sentences
    {
      var k :| 0 <= k < |st.questions| && st.questions[k] == q;
      assert st.indices[k] in st.used;
    }
  }

  /** One more turn of the loop when it has fuel and has not finished. */
  lemma SampleLoopPlus(sentences: seq<string>, corpus: seq<string>, target: nat,
                       rand: Stream, left: nat, st: Sampling)
    requires Distinct(corpus) && forall w :: w in corpus ==> Qualifies(w)
    requires SamplingInv(sentences, corpus, st) && |st.questions| <= target
    requires !Finished(sentences, target, st)
    ensures SampleLoop(sentences, corpus, target, rand, left + 1, st)
         == SampleLoop(sentences, corpus, target, rand, left, SampleStep(sentences, corpus, rand, st))
  {
  }

  /** The same turn, for a fuel count known to exceed `left` by one. */
  lemma SampleLoopStep(sentences: seq<string>, corpus: seq<string>, target: nat,
                       rand: Stream, fuel: nat, left: nat, st: Sampling)
    requires Distinct(corpus) && forall w :: w in corpus ==> Qualifies(w)
    requires SamplingInv(sentences, corpus, st) && |st.questions| <= target
    requires fuel == left + 1 && !Finished(sentences, target, st)
    ensures SampleLoop(sentences, corpus, target, rand, fuel, st)
         == SampleLoop(sentences, corpus, target, rand, left, SampleStep(sentences, corpus, rand, st))
  {
    SampleLoopPlus(sentences, corpus, target, rand, left, st);
  }

  /** A loop whose state has finished returns that state and all its fuel. */
  lemma SampleLoopDone(sentences: seq<string>, corpus: seq<string>, target: nat,
                       rand: Stream, fuel: nat, st: Sampling)
    requires Distinct(corpus) && forall w :: w in corpus ==> Qualifies(w)
    requires SamplingInv(sentences, corpus, st) && |st.questions| <= target
    requires Finished(sentences, target, st)
    ensures SampleLoop(sentences, corpus, target, rand, fuel, st) == (st, fuel)
  {
  }

  /** A loop that has finished with some fuel finishes the same way with more. */
  lemma {:induction false} SampleLoopMoreFuel(sentences: seq<string>, corpus: seq<string>, target: nat,
                                              rand: Stream, fuel: nat, more: nat, st: Sampling)
    requires Distinct(corpus) && forall w :: w in corpus ==> Qualifies(w)
    requires SamplingInv(sentences, corpus, st) && |st.questions| <= target
    requires fuel <= more
    ensures Finished(sentences, target, SampleLoop(sentences, corpus, target, rand, fuel, st).0) ==>
              SampleLoop(sentences, corpus, target, rand, more, st).0
              == SampleLoop(sentences, corpus, target, rand, fuel, st).0
    decreases fuel
  {
    if Finished(sentences, target, st) {
      SampleLoopDone(sentences, corpus, target, rand, fuel, st);
      SampleLoopDone(sentences, corpus, target, rand, more, st);
    } else if fuel > 0 {
      var next := SampleStep(sentences, corpus, rand, st);
      var f1: nat, m1: nat := fuel - 1, more - 1;
      SampleLoopStep(sentences, corpus, target, rand, fuel, f1, st);
      SampleLoopStep(sentences, corpus, target, rand, more, m1, st);
      SampleLoopMoreFuel(sentences, corpus, target, rand, f1, m1, next);
    }
  }

  /**
   * The iteration bound only cuts runs off: any outcome other than
   * `OutOfFuel` stays the same with more fuel.
   */
  lemma GenerateQuizMoreFuel(notes: string, rand: Stream, fuel: nat, more: nat)
    requires fuel <= more
    requires GenerateQuiz(notes, rand, fuel) != Failure(OutOfFuel)
    ensures GenerateQuiz(notes, rand, more) == GenerateQuiz(notes, rand, fuel)
  {
    var normalized := Normalized(notes);
    var sentences := Sentences(normalized);
    if Trim(notes) != [] && sentences != [] {
      var corpus := Corpus(normalized);
      var target := Min(MaxQuestions, |sentences|);
      assert GenerateQuiz(notes, rand, fuel) == QuizFrom(sentences, corpus, rand, fuel);
      assert GenerateQuiz(notes, rand, more) == QuizFrom(sentences, corpus, rand, more);
      SampleLoopMoreFuel(sentences, corpus, target, rand, fuel, more, Sampling([], [], {}, 0));
    }
  }

  /**
   * Notes whose sentences all lack a keyword produce no quiz, whatever the
   * draws: every question comes from a sentence with a keyword.
   */
  lemma NoKeywordNoQuiz(notes: string, rand: Stream, fuel: nat)
    requires forall s :: s in Sentences(Normalized(notes)) ==> Keywords(s) == []
    ensures GenerateQuiz(notes, rand, fuel).Failure?
    ensures Trim(notes) != [] && Sentences(Normalized(notes)) != [] ==>
              GenerateQuiz(notes, rand, fuel) == Failure(NoQuestions)
              || GenerateQuiz(notes, rand, fuel) == Failure(OutOfFuel)
  {
    var sentences := Sentences(Normalized(notes));
    forall i: nat | i < |sentences|
      ensures Keywords(sentences[i]) == []
    {
      assert sentences[i] in sentences;
    }
    assert KeywordIndices(sentences) == {};
  }

  /**
   * Conversely, once some valid sentence has a keyword, a run that is not
   * cut off by the iteration bound yields a quiz.
   */
  lemma KeywordGivesQuiz(notes: string, rand: Stream, fuel: nat)
    requires exists s :: s in Sentences(Normalized(notes)) && Keywords(s) != []
    ensures GenerateQuiz(notes, rand, fuel) != Failure(OutOfFuel) ==>
              GenerateQuiz(notes, rand, fuel).Success? && |GenerateQuiz(notes, rand, fuel).value| >= 1
  {
    var sentences := Sentences(Normalized(notes));
    var s :| s in sentences && Keywords(s) != [];
    KeywordSentenceIndex(sentences, s);
    if Trim(notes) == [] {
      BlankNotesNoSentences(notes);
    }
    QuizOutcome(notes, rand, fuel);
  }

  /** A sentence with a keyword puts its index among the keyword indices. */
  lemma KeywordSentenceIndex(sentences: seq<string>, s: string)
    requires s in sentences && Keywords(s) != []
    ensures KeywordIndices(sentences) != {}
  {
    var i :| 0 <= i < |sentences| && sentences[i] == s;
    assert i in KeywordIndices(sentences);
  }

  /** Blank notes have no valid sentence. */
  lemma BlankNotesNoSentences(notes: string)
    requires Trim(notes) == []
    ensures Sentences(Normalized(notes)) == []
  {
    assert Normalized(notes) == [];
  }

  /** With content and some keyword, the only failure left is the iteration bound. */
  lemma QuizOutcome(notes: string, rand: Stream, fuel: nat)
    requires Trim(notes) != [] && Sentences(Normalized(notes)) != []
    requires KeywordIndices(Sentences(Normalized(notes))) != {}
    ensures GenerateQuiz(notes, rand, fuel) != Failure(OutOfFuel) ==>
              GenerateQuiz(notes, rand, fuel).Success? && |GenerateQuiz(notes, rand, fuel).value| >= 1
  {
    var r := GenerateQuiz(notes, rand, fuel);
    assert r != Failure(EmptyNotes) && r != Failure(NotEnoughContent) && r != Failure(NoQuestions);
  }
}
