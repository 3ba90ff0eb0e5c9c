/**
 * The quiz session of script.js: the four stored keys `currentQuiz`,
 * `quizProgress`, `quizStats` and `quizWrongQuestions` as one state, changed
 * by generateQuiz, the Submit and Next handlers of loadQuizPage,
 * restartQuiz and focusWrongQuestions.
 */
module Session {
  import opened Wrappers
  import opened Text
  import opened Random
  import opened Segment
  import opened Generate

  datatype Stats = Stats(total: nat, correct: nat, wrong: nat)

  datatype State = State(quiz: seq<Question>, progress: nat, stats: Stats, wrongList: seq<Question>)

  /** The state every (re)start writes: progress 0, stats `{N, 0, 0}`, no wrong questions. */
  function Fresh(quiz: seq<Question>): (r: State)
    ensures r.quiz == quiz && r.progress == 0 && r.wrongList == []
    ensures r.stats == Stats(|quiz|, 0, 0)
  {
    State(quiz, 0, Stats(|quiz|, 0, 0), [])
  }

  /**
   * The counters agree with the answers given so far: one answer per
   * question before `progress`, each either correct or wrong, and one
   * wrong-list entry per wrong answer.
   */
  predicate Consistent(s: State) {
    && s.progress <= |s.quiz|
    && s.stats.total == |s.quiz|
    && s.stats.correct + s.stats.wrong == s.progress
    && |s.wrongList| == s.stats.wrong
    && forall q :: q in s.wrongList ==> q in s.quiz
  }

  /** Rendering shows the summary and runs the analytics fold (script.js:362). */
  predicate IsComplete(s: State) {
    s.progress >= |s.quiz|
  }

  /**
   * generateQuiz's effect on the session (script.js:330-338): on success the
   * four keys hold the new quiz; on any failure nothing is written.
   */
  function StartQuiz(s: State, notes: string, rand: Stream, fuel: nat): (r: (State, Option<GenError>))
    ensures r.1.Some? ==> r.0 == s
    ensures r.1.None? ==> r.0 == Fresh(r.0.quiz) && 1 <= |r.0.quiz| <= MaxQuestions
    ensures r.1.None? ==> Consistent(r.0)
    ensures r.1 == Some(EmptyNotes) <==> Trim(notes) == []
    ensures r.1.None? <==> GenerateQuiz(notes, rand, fuel).Success?
    ensures r.1.None? ==> r.0.quiz == GenerateQuiz(notes, rand, fuel).value
    ensures r.1.Some? ==> r.1.value == GenerateQuiz(notes, rand, fuel).error
  {
    match GenerateQuiz(notes, rand, fuel)
    case Failure(e) => (s, Some(e))
    case Success(qs) => (Fresh(qs), None)
  }

  /** Notes without a valid sentence abort the start and write nothing. */
  lemma NoContentKeepsState(s: State, notes: string, rand: Stream, fuel: nat)
    requires Trim(notes) != [] && Sentences(Normalized(notes)) == []
    ensures StartQuiz(s, notes, rand, fuel) == (s, Some(NotEnoughContent))
  {
  }

  /**
   * Notes with a keyword in some valid sentence start a fresh session over
   * one question per such sentence, up to eight, unless the iteration
   * bound cuts the sampling off.
   */
  lemma KeywordStartsSession(s: State, notes: string, rand: Stream, fuel: nat)
    requires exists t :: t in Sentences(Normalized(notes)) && Keywords(t) != []
    ensures var r := StartQuiz(s, notes, rand, fuel);
            r.1 == Some(OutOfFuel) ||
            (&& r.1.None? && r.0 == Fresh(r.0.quiz) && Consistent(r.0)
             && |r.0.quiz| == Min(MaxQuestions, |KeywordIndices(Sentences(Normalized(notes)))|))
  {
    KeywordGivesQuiz(notes, rand, fuel);
  }

  datatype SubmitResult = NoSelection | Graded(correct: bool)

  /**
   * The Submit handler (script.js:421-455) for the question at `progress`.
   * Without a selection nothing changes. Otherwise `total` becomes the quiz
   * length, exactly one of `correct`/`wrong` grows by one, and the question
   * is appended to the wrong list exactly when the answer is wrong.
   */
  function Submit(s: State, selected: Option<nat>): (r: (State, SubmitResult))
    requires s.progress < |s.quiz|
    ensures selected.None? ==> r == (s, NoSelection)
    ensures selected.Some? ==>
              var ok := selected.value == s.quiz[s.progress].correctIndex;
              && r.1 == Graded(ok)
              && r.0.quiz == s.quiz && r.0.progress == s.progress
              && r.0.stats.total == |s.quiz|
              && r.0.stats.correct == s.stats.correct + (if ok then 1 else 0)
              && r.0.stats.wrong == s.stats.wrong + (if ok then 0 else 1)
              && s.wrongList <= r.0.wrongList
              && |r.0.wrongList| == |s.wrongList| + (if ok then 0 else 1)
              && (!ok ==> r.0.wrongList[|s.wrongList|] == s.quiz[s.progress])
  {
    match selected
    case None => (s, NoSelection)
    case Some(i) =>
      var q := s.quiz[s.progress];
      var ok := i == q.correctIndex;
      var stats := if ok then s.stats.(total := |s.quiz|, correct := s.stats.correct + 1)
                   else s.stats.(total := |s.quiz|, wrong := s.stats.wrong + 1);
      var wrongList := if ok then s.wrongList else s.wrongList + [q];
      (s.(stats := stats, wrongList := wrongList), Graded(ok))
  }

  /** The Next/Finish handler (script.js:458-462): only `progress` moves, by one. */
  function Next(s: State): (r: State)
    ensures r.progress == s.progress + 1
    ensures r.quiz == s.quiz && r.stats == s.stats && r.wrongList == s.wrongList
  {
    s.(progress := s.progress + 1)
  }

  /** A Submit with a selection followed by Next. */
  function AnswerStep(s: State, selected: nat): State
    requires s.progress < |s.quiz|
  {
    Next(Submit(s, Some(selected)).0)
  }

  /** An answered question keeps the counters consistent. */
  lemma AnswerKeepsConsistent(s: State, selected: nat)
    requires Consistent(s) && s.progress < |s.quiz|
    ensures Consistent(AnswerStep(s, selected))
  {
    var r := AnswerStep(s, selected);
    forall q | q in r.wrongList
      ensures q in r.quiz
    {
      var k :| 0 <= k < |r.wrongList| && r.wrongList[k] == q;
      if k < |s.wrongList| {
        assert q == s.wrongList[k];
      }
    }
  }

  /** `selections[k]` is the option chosen for question `k`; the answers are given in order. */
  function Replay(s: State, selections: seq<nat>): (r: State)
    requires s.progress + |selections| <= |s.quiz|
    ensures r.quiz == s.quiz
    ensures r.progress == s.progress + |selections|
    decreases |selections|
  {
    if selections == [] then s
    else
      var prev := Replay(s, selections[..|selections| - 1]);
      AnswerStep(prev, selections[|selections| - 1])
  }

  /** How many of the first `|selections|` questions were answered correctly. */
  function CountCorrect(quiz: seq<Question>, selections: seq<nat>): nat
    requires |selections| <= |quiz|
    decreases |selections|
  {
    if selections == [] then 0
    else
      var k := |selections| - 1;
      CountCorrect(quiz, selections[..k]) + (if selections[k] == quiz[k].correctIndex then 1 else 0)
  }

  /** The questions answered wrongly, in the order they were answered. */
  function Missed(quiz: seq<Question>, selections: seq<nat>): seq<Question>
    requires |selections| <= |quiz|
    decreases |selections|
  {
    if selections == [] then []
    else
      var k := |selections| - 1;
      Missed(quiz, selections[..k]) + (if selections[k] == quiz[k].correctIndex then [] else [quiz[k]])
  }

  /**
   * Answering from a fresh start: `correct` counts the right answers,
   * `wrong` the others, `total` is the quiz length, and the wrong list holds
   * exactly the missed questions in order.
   */
  lemma {:induction false} ReplayFromFresh(quiz: seq<Question>, selections: seq<nat>)
    requires |selections| <= |quiz|
    ensures var r := Replay(Fresh(quiz), selections);
            && r.progress == |selections|
            && r.stats.total == |quiz|
            && r.stats.correct == CountCorrect(quiz, selections)
            && r.stats.wrong == |selections| - CountCorrect(quiz, selections)
            && r.wrongList == Missed(quiz, selections)
    decreases |selections|
  {
    if selections != [] {
      ReplayFromFresh(quiz, selections[..|selections| - 1]);
    }
  }

  lemma {:induction false} CountCorrectBound(quiz: seq<Question>, selections: seq<nat>)
    requires |selections| <= |quiz|
    ensures CountCorrect(quiz, selections) <= |selections|
    ensures CountCorrect(quiz, selections) + |Missed(quiz, selections)| == |selections|
    decreases |selections|
  {
    if selections != [] {
      CountCorrectBound(quiz, selections[..|selections| - 1]);
    }
  }

  /** Answers keep the counters consistent from any consistent start. */
  lemma {:induction false} ReplayKeepsConsistent(s: State, selections: seq<nat>)
    requires Consistent(s) && s.progress + |selections| <= |s.quiz|
    ensures Consistent(Replay(s, selections))
    decreases |selections|
  {
    if selections != [] {
      var prefix := selections[..|selections| - 1];
      ReplayKeepsConsistent(s, prefix);
      AnswerKeepsConsistent(Replay(s, prefix), selections[|selections| - 1]);
    }
  }

  /**
   * Answering every question completes the session with
   * `correct + wrong == total == questions.length`.
   */
  lemma CompletedSessionCounts(quiz: seq<Question>, selections: seq<nat>)
    requires |selections| == |quiz|
    ensures var r := Replay(Fresh(quiz), selections);
            IsComplete(r) && r.stats.correct + r.stats.wrong == r.stats.total == |quiz|
  {
    ReplayKeepsConsistent(Fresh(quiz), selections);
  }

  /** Every answer right: `{total: N, correct: N, wrong: 0}` and an empty wrong list. */
  lemma {:induction false} AllCorrectSession(quiz: seq<Question>, selections: seq<nat>)
    requires |selections| <= |quiz|
    requires forall k :: 0 <= k < |selections| ==> selections[k] == quiz[k].correctIndex
    ensures var r := Replay(Fresh(quiz), selections);
            r.stats == Stats(|quiz|, |selections|, 0) && r.wrongList == []
    decreases |selections|
  {
    ReplayFromFresh(quiz, selections);
    if selections != [] {
      AllCorrectSession(quiz, selections[..|selections| - 1]);
      ReplayFromFresh(quiz, selections[..|selections| - 1]);
    }
  }

  /**
   * restartQuiz (script.js:470-477): the same quiz, progress 0, stats
   * `{N, 0, 0}`, empty wrong list.
   */
  function Restart(s: State): (r: State)
    ensures r.quiz == s.quiz && r.progress == 0 && r.wrongList == []
    ensures r.stats == Stats(|s.quiz|, 0, 0)
    ensures Consistent(r)
  {
    Fresh(s.quiz)
  }

  /**
   * focusWrongQuestions (script.js:479-491): refused with an empty wrong
   * list, which leaves the state as it is; otherwise the K wrong questions
   * become the quiz with progress 0, stats `{K, 0, 0}` and an empty wrong list.
   */
  function FocusWrong(s: State): (r: (State, bool))
    ensures !r.1 <==> s.wrongList == []
    ensures !r.1 ==> r.0 == s
    ensures r.1 ==> && r.0.quiz == s.wrongList && r.0.progress == 0 && r.0.wrongList == []
                    && r.0.stats == Stats(|s.wrongList|, 0, 0) && Consistent(r.0)
  {
    if s.wrongList == [] then (s, false) else (Fresh(s.wrongList), true)
  }

  /**
   * Re-rendering the page after Submit and before Next (a reload reads the
   * same `quizProgress`) lets the same question be graded twice, so the
   * counters run ahead of `progress`.
   */
  lemma RegradeAfterReload(s: State, first: nat, second: nat)
    requires Consistent(s) && s.progress < |s.quiz|
    ensures var once := Submit(s, Some(first)).0;
            var twice := Submit(once, Some(second)).0;
            twice.progress == s.progress
            && twice.stats.correct + twice.stats.wrong == s.progress + 2
  {
  }
}
