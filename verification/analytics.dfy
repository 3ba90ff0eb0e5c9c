/**
 * The analytics fold updateAnalytics (script.js:496-535), the completion
 * check that triggers it (script.js:360-364) and the top-five list of
 * loadAnalyticsPage (script.js:547-549). Storage is a map from key to
 * aggregate; a missing key reads as the empty aggregate.
 */
module Analytics {
  import opened Wrappers
  import opened Generate
  import opened Session

  datatype Aggregate = Aggregate(totalQuestions: int, correct: int, wrong: int, wrongTopics: map<string, nat>)

  type Store = map<string, Aggregate>

  /** The default of `getData` for an aggregate. */
  const Empty: Aggregate := Aggregate(0, 0, 0, map[])

  const GlobalKey: string := "analytics"

  /** `analytics_${school}_${cls}`. */
  function ScopedKey(school: string, cls: string): string {
    GlobalKey + "_" + school + "_" + cls
  }

  /** `getData(key, {...})` on an abstract store. */
  function Read(store: Store, key: string): Aggregate {
    if key in store then store[key] else Empty
  }

  /** A `localStorage.getItem` value that passes `if (school && cls)`: present and not empty. */
  predicate IsSet(v: Option<string>) {
    v.Some? && v.value != ""
  }

  /** How many of the questions carry topic `w`. */
  function TopicCount(qs: seq<Question>, w: string): nat {
    if qs == [] then 0 else (if qs[0].topicWord == w then 1 else 0) + TopicCount(qs[1..], w)
  }

  /** `if (!t[w]) t[w] = 0; t[w] += 1;` on a map that holds only counts. */
  function Bump(topics: map<string, nat>, w: string): (r: map<string, nat>)
    ensures r.Keys == topics.Keys + {w}
    ensures r[w] == (if w in topics then topics[w] else 0) + 1
    ensures forall v :: v in topics && v != w ==> r[v] == topics[v]
  {
    topics[w := (if w in topics then topics[w] else 0) + 1]
  }

  /** The `wrongQuestions.forEach` loop. */
  function CountTopics(topics: map<string, nat>, qs: seq<Question>): map<string, nat>
    decreases |qs|
  {
    if qs == [] then topics else CountTopics(Bump(topics, qs[0].topicWord), qs[1..])
  }

  /** The counts grow by the number of wrong questions on each topic and no key is lost. */
  lemma {:induction false} CountTopicsAdds(topics: map<string, nat>, qs: seq<Question>)
    ensures forall w :: w in CountTopics(topics, qs) <==> w in topics || TopicCount(qs, w) > 0
    ensures forall w :: w in CountTopics(topics, qs) ==>
              CountTopics(topics, qs)[w] == (if w in topics then topics[w] else 0) + TopicCount(qs, w)
    decreases |qs|
  {
    if qs != [] {
      CountTopicsAdds(Bump(topics, qs[0].topicWord), qs[1..]);
    }
  }

  /** One aggregate updated with a finished session (script.js:504-512). */
  function Fold(a: Aggregate, stats: Stats, wrongQs: seq<Question>): (r: Aggregate)
    ensures r.totalQuestions == a.totalQuestions + stats.total
    ensures r.correct == a.correct + stats.correct
    ensures r.wrong == a.wrong + stats.wrong
    ensures forall w :: w in r.wrongTopics <==> w in a.wrongTopics || TopicCount(wrongQs, w) > 0
    ensures forall w :: w in r.wrongTopics ==>
              r.wrongTopics[w] == (if w in a.wrongTopics then a.wrongTopics[w] else 0) + TopicCount(wrongQs, w)
  {
    CountTopicsAdds(a.wrongTopics, wrongQs);
    Aggregate(a.totalQuestions + stats.total, a.correct + stats.correct, a.wrong + stats.wrong,
              CountTopics(a.wrongTopics, wrongQs))
  }

  /** The scoped key never collides with the global one. */
  lemma ScopedKeyIsNotGlobal(school: string, cls: string)
    ensures ScopedKey(school, cls) != GlobalKey
  {
    assert |ScopedKey(school, cls)| > |GlobalKey|;
  }

  /**
   * updateAnalytics: the global aggregate always receives the fold; the
   * class aggregate receives the same fold exactly when school and class
   * are both set; no other key changes.
   */
  function UpdateAnalytics(store: Store, stats: Stats, wrongQs: seq<Question>,
                           school: Option<string>, cls: Option<string>): (r: Store)
    ensures GlobalKey in r && r[GlobalKey] == Fold(Read(store, GlobalKey), stats, wrongQs)
    ensures IsSet(school) && IsSet(cls) ==>
              var key := ScopedKey(school.value, cls.value);
              key in r && r[key] == Fold(Read(store, key), stats, wrongQs)
    ensures forall k :: k != GlobalKey && !(IsSet(school) && IsSet(cls) && k == ScopedKey(school.value, cls.value)) ==>
              (k in r <==> k in store) && (k in store ==> r[k] == store[k])
  {
    var global := store[GlobalKey := Fold(Read(store, GlobalKey), stats, wrongQs)];
    if IsSet(school) && IsSet(cls) then
      var key := ScopedKey(school.value, cls.value);
      ScopedKeyIsNotGlobal(school.value, cls.value);
      global[key := Fold(Read(store, key), stats, wrongQs)]
    else global
  }

  /**
   * One render of the quiz page (script.js:350-364): with a quiz loaded and
   * `progress >= questions.length` the fold runs; otherwise the store is
   * left alone.
   */
  function Render(s: State, store: Store, school: Option<string>, cls: Option<string>): (r: Store)
    ensures (|s.quiz| == 0 || !IsComplete(s)) ==> r == store
    ensures |s.quiz| > 0 && IsComplete(s) ==>
              GlobalKey in r && r[GlobalKey] == Fold(Read(store, GlobalKey), s.stats, s.wrongList)
    ensures |s.quiz| > 0 && IsComplete(s) ==> r == UpdateAnalytics(store, s.stats, s.wrongList, school, cls)
  {
    if |s.quiz| == 0 || !IsComplete(s) then store
    else UpdateAnalytics(store, s.stats, s.wrongList, school, cls)
  }

  /**
   * The fold is not guarded against repetition: rendering a completed
   * session twice (a reload of the summary page) adds its counters twice.
   */
  lemma RenderTwiceFoldsTwice(s: State, store: Store, school: Option<string>, cls: Option<string>)
    requires |s.quiz| > 0 && IsComplete(s)
    ensures var twice := Render(s, Render(s, store, school, cls), school, cls);
            twice[GlobalKey].totalQuestions == Read(store, GlobalKey).totalQuestions + 2 * s.stats.total
  {
  }

  // ----- Top missed topics (script.js:547-549) -----

  predicate SortedDesc(es: seq<(string, nat)>) {
    forall i, j :: 0 <= i < j < |es| ==> es[i].1 >= es[j].1
  }

  /** Places `e` before the first entry whose count is not larger, keeping ties in order. */
  function Insert(e: (string, nat), es: seq<(string, nat)>): (r: seq<(string, nat)>)
    requires SortedDesc(es)
    ensures SortedDesc(r)
    ensures |r| == |es| + 1
    ensures forall x :: x in r <==> x in es || x == e
  {
    if es == [] || es[0].1 <= e.1 then [e] + es
    else
      var rest := Insert(e, es[1..]);
      assert forall x :: x in rest ==> x.1 <= es[0].1;
      [es[0]] + rest
  }

  lemma {:induction false} InsertPermutes(e: (string, nat), es: seq<(string, nat)>)
    requires SortedDesc(es)
    ensures multiset(Insert(e, es)) == multiset(es) + multiset{e}
  {
    if !(es == [] || es[0].1 <= e.1) {
      InsertPermutes(e, es[1..]);
      assert es == [es[0]] + es[1..];
    }
  }

  /** `entries.sort((a, b) => b[1] - a[1])`: a descending permutation of the entries. */
  function SortByCount(es: seq<(string, nat)>): (r: seq<(string, nat)>)
    ensures SortedDesc(r)
    ensures multiset(r) == multiset(es)
    ensures forall x :: x in r <==> x in es
  {
    if es == [] then []
    else
      assert es == [es[0]] + es[1..];
      InsertPermutes(es[0], SortByCount(es[1..]));
      Insert(es[0], SortByCount(es[1..]))
  }

  /**
   * `entries.slice(0, 5)` after the sort: at most five entries, highest
   * counts first, and every entry left out counts no more than any kept.
   */
  function TopFive(es: seq<(string, nat)>): (r: seq<(string, nat)>)
    ensures |r| == (if |es| < 5 then |es| else 5)
    ensures SortedDesc(r)
    ensures forall e :: e in r ==> e in es
    ensures forall e :: e in es && e !in r ==> forall k :: 0 <= k < |r| ==> e.1 <= r[k].1
  {
    var sorted := SortByCount(es);
    var n := if |es| < 5 then |es| else 5;
    var r := sorted[..n];
    assert forall e :: e in es && e !in r ==> forall k :: 0 <= k < |r| ==> e.1 <= r[k].1 by {
      forall e, k | e in es && e !in r && 0 <= k < |r|
        ensures e.1 <= r[k].1
      {
        var i :| 0 <= i < |sorted| && sorted[i] == e;
        assert i >= n;
      }
    }
    r
  }

  // ----- The topic counter as written, on a plain JavaScript object -----

  /** What a `wrongTopics` property can hold after `+= 1`: a number, or a string once a non-number was incremented. */
  datatype JsValue = Num(n: int) | Str(s: string)

  /**
   * `String(Object)` as the V8 engine (Chrome, Node.js) prints it; other
   * engines lay out the text of a native function differently. A plain
   * object inherits `constructor` (the function `Object`, truthy) from
   * `Object.prototype`, and `Object + 1` is this text followed by "1".
   */
  const ObjectSource: string := "function Object() { [native code] }"

  predicate Falsy(v: JsValue) {
    v == Num(0) || v == Str("")
  }

  /** `v + 1` in JavaScript. */
  function PlusOne(v: JsValue): JsValue {
    match v
    case Num(n) => Num(n + 1)
    case Str(t) => Str(t + "1")
  }

  /**
   * `if (!t[w]) t[w] = 0; t[w] += 1;` exactly as script.js:510-511 and
   * 530-531 run it on a plain object. Reading `__proto__` yields
   * `Object.prototype` and assigning a string to `__proto__` is ignored, so
   * that topic is never counted; reading a missing `constructor` yields the
   * inherited function, so that topic becomes a string.
   */
  function BumpAsWritten(topics: map<string, JsValue>, w: string): (r: map<string, JsValue>)
    ensures w == "__proto__" ==> r == topics
    ensures w != "__proto__" ==> r.Keys == topics.Keys + {w}
                                 && forall v :: v in topics && v != w ==> r[v] == topics[v]
  {
    if w == "__proto__" then topics
    else
      var current: Option<JsValue> :=
        if w in topics then Some(topics[w])
        else if w == "constructor" then Some(Str(ObjectSource))
        else None;
      var start := if current.None? || Falsy(current.value) then Num(0) else current.value;
      topics[w := PlusOne(start)]
  }

  /** The counts as the object holds them. */
  function AsObject(topics: map<string, nat>): (r: map<string, JsValue>)
    ensures r.Keys == topics.Keys
    ensures forall w :: w in topics ==> r[w] == Num(topics[w])
  {
    map w | w in topics :: Num(topics[w])
  }

  /** For every other topic word, the code as written and the corrected counter agree. */
  lemma BumpAsWrittenAgrees(topics: map<string, nat>, w: string)
    requires w != "constructor" && w != "__proto__"
    ensures BumpAsWritten(AsObject(topics), w) == AsObject(Bump(topics, w))
  {
  }

  /** The `wrongQuestions.forEach` loop as written, on a plain object. */
  function CountTopicsAsWritten(topics: map<string, JsValue>, qs: seq<Question>): map<string, JsValue>
    decreases |qs|
  {
    if qs == [] then topics else CountTopicsAsWritten(BumpAsWritten(topics, qs[0].topicWord), qs[1..])
  }

  /**
   * When no missed question has topic "constructor" or "__proto__", the
   * loop as written ends with the counts of the corrected one.
   */
  lemma {:induction false} CountTopicsAsWrittenAgrees(topics: map<string, nat>, qs: seq<Question>)
    requires forall q :: q in qs ==> q.topicWord != "constructor" && q.topicWord != "__proto__"
    ensures CountTopicsAsWritten(AsObject(topics), qs) == AsObject(CountTopics(topics, qs))
    decreases |qs|
  {
    if qs != [] {
      assert qs[0] in qs;
      BumpAsWrittenAgrees(topics, qs[0].topicWord);
      assert forall q :: q in qs[1..] ==> q in qs;
      CountTopicsAsWrittenAgrees(Bump(topics, qs[0].topicWord), qs[1..]);
    }
  }

  /** The first missed question on topic "constructor" stores a string, not the count 1. */
  lemma ConstructorTopicCorrupted()
    ensures BumpAsWritten(map[], "constructor")["constructor"].Str?
    ensures BumpAsWritten(map[], "constructor")["constructor"] == Str(ObjectSource + "1")
    ensures Bump(map[], "constructor")["constructor"] == 1
  {
  }

  /** A missed question on topic "__proto__" is never counted. */
  lemma ProtoTopicDropped(topics: map<string, JsValue>)
    ensures "__proto__" !in topics ==> "__proto__" !in BumpAsWritten(topics, "__proto__")
    ensures Bump(map[], "__proto__")["__proto__"] == 1
  {
  }
}
