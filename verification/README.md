# Quiz engine of the study-notes app, in Dafny

script.js turns a block of study notes into a fill-in-the-blank multiple-choice
quiz, runs the quiz one question at a time, and folds finished sessions into
persistent analytics. This project models that engine as pure functions and
proves what each step guarantees.

- **Text** (`text.dfy`): JavaScript's `\s` class, `trim`, the `/\s+/g`
  collapse, `split` on one character, ASCII lower-casing, the 37 stop-words,
  the token filter and `[...new Set(..)]`. Proved: collapsing yields single
  plain spaces, keeps every other character in order and is idempotent;
  `split` and join are inverse; `split(/\s+/)` cuts exactly at the
  whitespace runs; the token filter keeps order and repeats; deduplication
  keeps first-occurrence order.
- **Segment** (`segment.dfy`): the sentence split `/(?<=[.!?])/`, the
  five-token filter (`validSentences`), the distractor corpus (`uniqueWords`)
  and the keywords of one sentence. Proved: concatenating the pieces gives the
  text back, and splitting the concatenation of well-shaped pieces gives the
  pieces back, so the valid sentences of such text are its pieces, trimmed
  and filtered in order. A word is a keyword exactly when it is a qualifying
  token of its sentence.
- **Regex** (`regex.dfy`): `escapeRegExp` and the first-match `\bkw\b`
  replacement by `_____`. Proved: the escaped keyword matches exactly the
  keyword, and every literal pattern is the escaping of what it matches.
- **Random** (`random.dfy`): every `Math.random()` result is read from an
  explicit stream of reals in [0, 1). `Math.floor(u * k)` is below `k`.
  The Fisher–Yates loop permutes its input and keeps distinct elements
  distinct. It is written both as a recursive function and as a loop whose
  invariant ties it to the function.
- **Generate** (`generate.dfy`): generateQuiz as a function of the notes and
  the draws. It returns the error it stops with (empty notes, no
  five-token sentence, no question) or exactly min(8, k) questions, where k
  is the number of valid sentences that have a keyword. The sampling loop
  runs under an iteration bound; a run cut off by it is reported as a fourth
  outcome, out of fuel, and more fuel never changes any other outcome. No
  question is produced exactly when no valid sentence has a keyword. Each
  question is well formed:
  - 1 to 4 distinct options, and `correctIndex` points at the keyword;
  - the keyword is a qualifying word of its sentence;
  - `topicWord` is the keyword lower-cased;
  - the blanked text is the first whole-word replacement;
  - every distractor is a corpus word that differs from the keyword ignoring case.

  The questions come from pairwise different sentence positions.
- **Session** (`session.dfy`): the four stored quiz keys as one state, changed
  by Submit, Next, restartQuiz and focusWrongQuestions. Proved: after any
  answers from a fresh start, `correct` counts the right answers, `wrong` the
  others, the wrong list holds exactly the missed questions in order, and a
  completed session has `correct + wrong == total`.
- **Analytics** (`analytics.dfy`): updateAnalytics on a key-to-aggregate
  store (global key always, `analytics_<school>_<class>` when both are set,
  nothing else touched), the completion trigger, and the top-five list of
  missed topics.

Three behaviours of the code as written are stated as lemmas rather than
corrected:
- **A keyword ending in `.`, `!` or `?` is never blanked.** The closing `\b`
  cannot hold after it, so that question shows its own answer
  (`Generate.DelimitedAnswerNotBlanked`).
- **A question can be graded twice.** Rendering the page again after Submit
  and before Next grades the same question a second time
  (`Session.RegradeAfterReload`).
- **The analytics fold is not idempotent.** It runs on every render of a
  completed session (`Analytics.RenderTwiceFoldsTwice`).

script.js makes cloze questions only: the keyword is blanked out of its own
sentence. Each question has 1 to 4 options, depending on how many corpus
words are available as distractors.

## Model

| member | source | states |
|---|---|---|
| Text.Trim | script.js:262 | the result has no whitespace at either end and is the input with only whitespace removed before and after it |
| Text.CollapseIsCollapsed | script.js:268 | after `replace(/\s+/g, ' ')` every whitespace character is a plain space and no two spaces are adjacent |
| Text.CollapseKeepsVisible | script.js:268 | collapsing keeps every non-whitespace character, in order |
| Text.CollapseFixesCollapsed | script.js:268 | collapsing already collapsed text changes nothing, so normalisation is idempotent |
| Text.SplitOn | script.js:272 | `split(' ')` yields one more piece than there are separators and no piece contains the separator |
| Text.JoinSplitOn | script.js:272 | joining the pieces of a split with the separator gives back the text |
| Text.SplitOnJoin | script.js:272 | splitting a join of separator-free pieces gives back the pieces |
| Text.FilterQualifying | script.js:277-279 | a word is kept exactly when it is in the input and is longer than 3 and not a stop-word; a one-word list is kept whole or dropped by that test |
| Text.FilterQualifyingAppend | script.js:277-279 | the filter keeps order and repeats: filtering a concatenation is concatenating the filtered parts |
| Text.SplitWs | script.js:277-278 | `split(/\s+/)` of the normalised text gives at least one piece, no piece holds whitespace, and the pieces joined by single spaces are the collapsed text |
| Text.CollapseInterleave | script.js:268 | non-empty words separated by non-empty whitespace runs collapse to the words joined by single spaces |
| Text.SplitWsInterleave | script.js:277-278 | such text splits back into exactly those words, so the cuts fall at the whitespace runs and nowhere else |
| Text.Lower | script.js:279 | lower-casing keeps the length and maps each character on its own |
| Text.Dedup | script.js:280 | `[...new Set(ws)]` has no duplicates and holds exactly the elements of `ws` |
| Text.DedupFirstOccurrenceOrder | script.js:280 | the set's elements come in the order of their first occurrence |
| Segment.SplitAfterDelimiters | script.js:270 | each piece carries a delimiter only at its end, all but the last end with one, none is empty for non-empty text |
| Segment.ConcatSplitAfterDelimiters | script.js:270 | the pieces concatenated are the text that was split |
| Segment.SplitAfterDelimitersConcat | script.js:270 | splitting the concatenation of well-shaped pieces gives those pieces back |
| Segment.TrimKeepsDelimitedOnlyAtEnd | script.js:270 | trimming a piece keeps its delimiter at the end |
| Segment.FilterCandidates | script.js:272 | a sentence is kept exactly when it has at least five space-separated tokens; a one-sentence list is kept whole or dropped by that test |
| Segment.FilterCandidatesAppend | script.js:272 | the five-token filter keeps order and repeats: it distributes over concatenation |
| Segment.Candidates | script.js:270-272 | a sentence is valid exactly when it is a trimmed piece with at least five space-separated tokens |
| Segment.Sentences | script.js:268-272 | every valid sentence is trimmed, has five tokens and delimiters only at its end, and every trimmed piece with five tokens is kept |
| Segment.SentencesOfPieces | script.js:270-272 | for text made of well-shaped sentence pieces, `validSentences` is exactly those pieces trimmed and filtered, in order and with repeats |
| Segment.Corpus | script.js:277-280 | `uniqueWords` is duplicate-free and holds exactly the qualifying tokens of the normalised text |
| Segment.Keywords | script.js:291-293 | a word is a keyword candidate exactly when it is a whitespace-separated token of the sentence that is longer than 3 and not a stop-word |
| Regex.EscapeRegExp | script.js:343-345 | the escaped string is a literal pattern: syntax characters appear only behind a backslash |
| Regex.LiteralOfEscape | script.js:343-345 | the escaped keyword as a pattern matches exactly the keyword |
| Regex.EscapeLiteralOf | script.js:343-345 | every literal pattern is the escaping of the string it matches |
| Regex.FindWholeWord | script.js:298 | the search returns the leftmost position where `\bkw\b` matches, or reports that none exists |
| Regex.BlankFirst | script.js:297-300 | without a whole-word match the sentence is unchanged; otherwise only the leftmost match is replaced by `_____` |
| Regex.NonWordEndingNotBlanked | script.js:297-300 | a keyword ending in a non-word character with no word character after it is never blanked |
| Random.Pick | script.js:306 | `Math.floor(Math.random() * k)` is an index below `k` |
| Random.Swap | script.js:307 | the destructuring swap exchanges two positions and leaves every other position alone |
| Random.ShuffleFromPermutes | script.js:316-319 | the swap loop keeps the multiset of elements and keeps distinct elements distinct |
| Random.FisherYates | script.js:305-308 | a full pass is a permutation that preserves distinctness and reads one draw per index above zero |
| Random.Shuffle | script.js:305-308 | the imperative loop computes the same permutation as the recursive definition and keeps the multiset |
| Generate.Available | script.js:303 | a corpus word is available exactly when it differs from the keyword ignoring case |
| Generate.TakeNonStop | script.js:309-312 | at most `k` non-stop-words are taken from the shuffled list, and with no stop-words present they are its first `min(k, n)` entries |
| Generate.Distractors | script.js:302-312 | exactly `min(3, #available)` distinct corpus words, none equal to the keyword ignoring case |
| Generate.IndexOf | script.js:320 | `indexOf` gives the first position of a present element and -1 for an absent one |
| Generate.ShuffleOptions | script.js:314-320 | the options are a permutation of the keyword and the distractors, pairwise distinct, and `correctIndex` points at the keyword |
| Generate.BuildQuestion | script.js:289-328 | the question built from a sentence with a keyword is well formed |
| Generate.AssembledWellFormed | script.js:314-328 | a keyword of the sentence, at most three distractors from the corpus that differ from it ignoring case, and distinct options that permute them make a well-formed question |
| Generate.SampleStep | script.js:286-329 | one iteration keeps the sampling invariant and adds at most one question |
| Generate.SampleLoop | script.js:282-329 | the loop keeps the invariant, never exceeds the target, and stops only at the target, with every index used, or out of fuel |
| Generate.SampleLoopStops | script.js:285 | when the loop stops with fuel left, the target is reached or every sentence index was drawn |
| Generate.KeywordIndices | script.js:291-294 | the positions that can yield a question are exactly those whose sentence has a keyword |
| Generate.FinishedCount | script.js:282-285 | when the loop exits by its own condition it holds exactly min(8, #sentences with a keyword) questions |
| Generate.QuizFrom | script.js:281-333 | after segmentation, the run fails only with "no questions" (then no sentence has a keyword) or out of fuel; on success it holds min(8, #sentences with a keyword) well-formed questions from distinct positions |
| Generate.GenerateQuiz | script.js:261-341 | empty notes and no five-token sentence are exactly the first two errors; "no questions" implies no sentence has a keyword; on success there are exactly min(8, #sentences with a keyword) well-formed questions from pairwise different sentences |
| Generate.SampleLoopMoreFuel | script.js:285 | once the loop has exited by its own condition, more iterations give the same questions |
| Generate.GenerateQuizMoreFuel | script.js:261-341 | with more fuel every outcome other than out-of-fuel stays the same |
| Generate.NoKeywordNoQuiz | script.js:294 | when no valid sentence has a qualifying word, generation fails whatever the draws; with non-empty notes and some valid sentence the failure is "no questions" or a cut-off run |
| Generate.KeywordGivesQuiz | script.js:285-333 | conversely, when some valid sentence has a keyword, every run that is not cut off yields at least one question |
| Generate.DelimitedAnswerNotBlanked | script.js:297-300 | a keyword ending in `.`, `!` or `?` leaves the sentence unblanked |
| Session.Fresh | script.js:335-338 | the state saved for a new quiz: progress 0, stats `{N, 0, 0}`, no wrong questions |
| Session.StartQuiz | script.js:330-338 | the state is written exactly when generateQuiz succeeds, and then holds its questions as a fresh, consistent session of 1 to 8 questions; a failure writes nothing and reports generateQuiz's error |
| Session.NoContentKeepsState | script.js:273-276 | notes with no five-token sentence leave the stored session as it was and report "not enough content" |
| Session.KeywordStartsSession | script.js:285-338 | when some valid sentence has a keyword, a run that is not cut off writes a fresh, consistent session of min(8, #sentences with a keyword) questions |
| Session.Submit | script.js:421-455 | no selection changes nothing; otherwise `total` is the quiz length, exactly one of `correct`/`wrong` grows, and the question is appended to the wrong list exactly when the answer is wrong |
| Session.Next | script.js:458-462 | Next advances progress by one and changes nothing else |
| Session.Replay | script.js:421-462 | a sequence of answers keeps the quiz and advances progress by the number of answers |
| Session.AnswerKeepsConsistent | script.js:443-461 | answering one question keeps `correct + wrong == progress`, the wrong-list length and its contents within the quiz |
| Session.ReplayKeepsConsistent | script.js:443-461 | any sequence of answers from a consistent state keeps it consistent |
| Session.ReplayFromFresh | script.js:443-455 | from a fresh start, `correct` counts right answers, `wrong` the rest, and the wrong list is exactly the missed questions in order |
| Session.CountCorrectBound | script.js:445-448 | right answers plus missed questions are exactly the answers given |
| Session.CompletedSessionCounts | script.js:362-364 | answering every question completes the session with `correct + wrong == total == questions.length` |
| Session.AllCorrectSession | script.js:444-446 | all answers right gives `{N, N, 0}` and an empty wrong list |
| Session.Restart | script.js:470-477 | restart keeps the quiz and resets progress, stats and wrong list to a consistent fresh state |
| Session.FocusWrong | script.js:479-491 | an empty wrong list is refused and changes nothing; otherwise the wrong questions become a fresh, consistent quiz |
| Session.RegradeAfterReload | script.js:421-462 | two Submits without Next grade the same question twice, so the counters run ahead of progress |
| Analytics.Bump | script.js:510-511 | the topic's count grows by one (from 0 if absent) and every other count is unchanged |
| Analytics.CountTopicsAdds | script.js:508-512 | after the loop each topic's count grows by its number of wrong questions, and no key is lost or invented |
| Analytics.Fold | script.js:504-512 | totals add the session's stats and topic counts add the wrong questions per topic |
| Analytics.ScopedKeyIsNotGlobal | script.js:518 | the per-class key never equals the global key |
| Analytics.UpdateAnalytics | script.js:496-535 | the global aggregate always gets the fold, the class aggregate gets it exactly when school and class are set, and no other key changes |
| Analytics.Render | script.js:356-364 | the fold runs only when a loaded quiz is complete, and then the store is exactly what updateAnalytics makes of it; otherwise the store is unchanged |
| Analytics.RenderTwiceFoldsTwice | script.js:362-364 | rendering a completed session twice adds its totals twice |
| Analytics.InsertPermutes | script.js:548 | inserting into the sorted list adds exactly that entry |
| Analytics.SortByCount | script.js:547-548 | the sorted entries are a permutation of the entries in descending count order |
| Analytics.TopFive | script.js:547-549 | at most five entries, descending, and every entry left out counts no more than any kept one |
| Analytics.BumpAsWritten | script.js:510-511 | on a plain object, a `__proto__` topic changes nothing; any other topic gains a key and leaves the other keys alone |
| Analytics.BumpAsWrittenAgrees | script.js:510-511 | for every topic other than `constructor` and `__proto__`, the object counter agrees with the corrected counter |
| Analytics.CountTopicsAsWrittenAgrees | script.js:508-512 | the whole loop over wrong questions, run on a plain object, agrees with the corrected count when no topic is `constructor` or `__proto__` |
| Analytics.ConstructorTopicCorrupted | script.js:510-511 | the first miss on topic `constructor` stores a string instead of the count 1 |
| Analytics.ProtoTopicDropped | script.js:510-511 | a miss on topic `__proto__` is never recorded |

## Left out

- DOM rendering, alerts, page redirects, file reading and the course
  (school/class) management pages: these are user interface. The school and
  class values are parameters of `UpdateAnalytics`.
- JSON serialisation and `localStorage`: the store is a map, and the session is a
  value, not four stored keys. A `getData` that fails to parse is not
  modelled.
- `Math.random` itself: the draws are an explicit stream parameter.
- The accuracy and score percentages (`Math.round`, floating point): display only.
- Text.Lower: lower-cases ASCII letters only; JavaScript's `toLowerCase` also
  maps other scripts. Beyond the stop-word test this changes two things. It
  changes which corpus words are `available` as distractors (script.js:303):
  the model offers "éclair" as a distractor for the keyword "Éclair", which
  script.js filters out. It also changes `topicWord` (script.js:326), which is
  the analytics key for missed topics.
- String lengths count characters, not UTF-16 code units, so `w.length > 3`
  differs from JavaScript for characters outside the Basic Multilingual Plane.
- Generate.SampleLoop: bounded by a `fuel` count of iterations. The source
  loop has no bound; it ends with probability 1 once the draws cover every
  index. With fuel exhausted, the loop returns the questions found so far and
  no unspent fuel.
- Generate.GenerateQuiz: `OutOfFuel` is not an outcome of script.js. It marks
  a run cut off by the iteration bound. `Generate.GenerateQuizMoreFuel` shows
  that more fuel never changes any other outcome.
- Generate.GenerateQuiz: promises distinct sentence positions, not distinct
  sentence texts. Two identical sentences in the notes can give two questions.
- Analytics.TopFive: the order among entries with equal counts follows
  `Object.entries` order, which is taken as given; the result is stated up to
  the ordering by count.
- Analytics.UpdateAnalytics: a school or class name containing `_` can make
  two different classes share a key; this is modelled as the code does it and
  not stated as a separate lemma.
- Analytics.Render: models the completion branch only; the rest of loadQuizPage
  builds the DOM.

## Findings

| source | as written | input that shows it | evidently intended | confidence | as-written member | corrected member |
|---|---|---|---|---|---|---|
| script.js:510-511 | `wrongTopics` is a plain object, so the topic word `constructor` reads the inherited `Object` function, which is truthy; `+= 1` then makes it a string | one wrong question whose keyword lower-cases to `constructor` | the count 1 | not executed | Analytics.ConstructorTopicCorrupted | Analytics.Bump |
| script.js:510-511 | on a plain object, reading `__proto__` gives `Object.prototype`, so `+= 1` computes the string `"[object Object]1"`; assigning that non-object to `__proto__` is ignored | one wrong question whose keyword is `__proto__` | the count 1 | not executed | Analytics.ProtoTopicDropped | Analytics.CountTopicsAdds |
