/**
 * String primitives the quiz engine of script.js relies on: JavaScript's
 * whitespace class, `trim`, the `/\s+/g` collapse, `split` on a single
 * character, ASCII lower-casing, the stop-word list and the token filter.
 * Strings are sequences of characters.
 */
module Text {

  /** JavaScript's `\s` class; `String.prototype.trim` strips exactly these. */
  predicate IsSpace(c: char) {
    || c == ' ' || c == '\t' || c == '\n' || c == '\r' || c == '\U{B}' || c == '\U{C}'
    || c == '\U{A0}' || c == '\U{1680}' || ('\U{2000}' <= c <= '\U{200A}')
    || c == '\U{2028}' || c == '\U{2029}' || c == '\U{202F}' || c == '\U{205F}'
    || c == '\U{3000}' || c == '\U{FEFF}'
  }

  predicate AllSpace(s: string) {
    forall i :: 0 <= i < |s| ==> IsSpace(s[i])
  }

  /** No whitespace at either end. */
  predicate IsTrimmed(s: string) {
    s == [] || (!IsSpace(s[0]) && !IsSpace(s[|s| - 1]))
  }

  function TrimStart(s: string): (r: string)
    ensures |r| <= |s| && r == s[|s| - |r|..]
    ensures AllSpace(s[..|s| - |r|])
    ensures r == [] || !IsSpace(r[0])
  {
    if |s| > 0 && IsSpace(s[0]) then
      var t := s[1..];
      var r := TrimStart(t);
      var k := |s| - |r|;
      assert t[k - 1..] == s[k..];
      assert AllSpace(s[..k]) by {
        assert forall i :: 1 <= i < k ==> s[..k][i] == t[..k - 1][i - 1];
      }
      r
    else s
  }

  function TrimEnd(s: string): (r: string)
    ensures |r| <= |s| && r == s[..|r|]
    ensures AllSpace(s[|r|..])
    ensures r == [] || !IsSpace(r[|r| - 1])
  {
    if |s| > 0 && IsSpace(s[|s| - 1]) then
      var r := TrimEnd(s[..|s| - 1]);
      assert s[..|s| - 1][..|r|] == s[..|r|];
      assert forall i :: |r| <= i < |s| - 1 ==> s[i] == s[..|s| - 1][|r|..][i - |r|];
      r
    else s
  }

  /** `s` is `r` with only whitespace before (the first `a` characters) and after it. */
  predicate SpaceAround(s: string, r: string, a: int) {
    && 0 <= a <= |s| - |r|
    && s[a..a + |r|] == r
    && AllSpace(s[..a])
    && AllSpace(s[a + |r|..])
  }

  /** `s.trim()`. */
  function Trim(s: string): (r: string)
    ensures IsTrimmed(r)
    ensures SpaceAround(s, r, |s| - |TrimStart(s)|)
  {
    TrimAround(s, TrimStart(s));
    TrimEnd(TrimStart(s))
  }

  lemma TrimAround(s: string, t: string)
    requires |t| <= |s| && t == s[|s| - |t|..] && AllSpace(s[..|s| - |t|])
    ensures SpaceAround(s, TrimEnd(t), |s| - |t|)
  {
    var r := TrimEnd(t);
    var a, k := |s| - |t|, |r|;
    SuffixSlices(s, t, k);
    AllSpaceSame(t[k..], s[a + k..]);
  }

  lemma AllSpaceSame(x: string, y: string)
    requires x == y && AllSpace(x)
    ensures AllSpace(y)
  {
  }

  /** Slices of a suffix `t` of `s`, seen as slices of `s`. */
  lemma SuffixSlices<T>(s: seq<T>, t: seq<T>, k: nat)
    requires |t| <= |s| && t == s[|s| - |t|..] && k <= |t|
    ensures s[|s| - |t|..|s| - |t| + k] == t[..k]
    ensures s[|s| - |t| + k..] == t[k..]
  {
  }

  /** The maximal run of whitespace at the front of `s` is removed. */
  function DropSpaces(s: string): (r: string)
    ensures |r| <= |s| && r == s[|s| - |r|..]
    ensures r == [] || !IsSpace(r[0])
  {
    if |s| > 0 && IsSpace(s[0]) then DropSpaces(s[1..]) else s
  }

  /** Every whitespace character is a plain space and no two spaces touch. */
  predicate IsCollapsed(s: string) {
    && (forall i :: 0 <= i < |s| && IsSpace(s[i]) ==> s[i] == ' ')
    && (forall i :: 0 <= i < |s| - 1 ==> !(s[i] == ' ' && s[i + 1] == ' '))
  }

  /** The characters of `s` that are not whitespace, in order. */
  function Visible(s: string): (r: string)
    ensures forall i :: 0 <= i < |r| ==> !IsSpace(r[i])
  {
    if s == [] then [] else (if IsSpace(s[0]) then [] else [s[0]]) + Visible(s[1..])
  }

  /** `s.replace(/\s+/g, ' ')`: each maximal whitespace run becomes one space. */
  function Collapse(s: string): (r: string)
    ensures |r| <= |s|
    ensures r == [] || (r[0] == ' ' <==> IsSpace(s[0]))
    decreases |s|
  {
    if s == [] then []
    else if IsSpace(s[0]) then [' '] + Collapse(DropSpaces(s))
    else [s[0]] + Collapse(s[1..])
  }

  function Min(a: int, b: int): int {
    if a <= b then a else b
  }

  /** Pairwise distinct elements. */
  predicate Distinct<T(==)>(s: seq<T>) {
    forall i, j :: 0 <= i < j < |s| ==> s[i] != s[j]
  }

  /** The pieces joined back together with `sep` between neighbours. */
  function Join(pieces: seq<string>, sep: char): string
    requires |pieces| >= 1
  {
    if |pieces| == 1 then pieces[0] else pieces[0] + [sep] + Join(pieces[1..], sep)
  }

  /** `s.split(sep)` for a one-character separator string. */
  function SplitOn(s: string, sep: char): (r: seq<string>)
    ensures |r| == multiset(s)[sep] + 1
    ensures forall k :: 0 <= k < |r| ==> sep !in r[k]
  {
    if s == [] then [[]]
    else
      var rest := SplitOn(s[1..], sep);
      assert s == [s[0]] + s[1..];
      if s[0] == sep then [[]] + rest
      else PrependFirst([s[0]], rest)
  }

  /** `ps` with `x` glued to the front of its first piece. */
  function PrependFirst(x: string, ps: seq<string>): seq<string>
    requires |ps| >= 1
  {
    [x + ps[0]] + ps[1..]
  }

  /** No whitespace character in `w`. */
  predicate NoSpace(w: string) {
    forall i :: 0 <= i < |w| ==> !IsSpace(w[i])
  }

  /**
   * `s.split(/\s+/)`: splitting on maximal whitespace runs is splitting the
   * collapsed text on single spaces. The pieces hold no whitespace and,
   * joined with single spaces, give the collapsed text.
   */
  function SplitWs(s: string): (r: seq<string>)
    ensures |r| >= 1
    ensures Join(r, ' ') == Collapse(s)
    ensures forall k :: 0 <= k < |r| ==> NoSpace(r[k])
  {
    var t := Collapse(s);
    var r := SplitOn(t, ' ');
    JoinSplitOn(t, ' ');
    CollapseIsCollapsed(s);
    forall k, i | 0 <= k < |r| && 0 <= i < |r[k]|
      ensures !IsSpace(r[k][i])
    {
      JoinContains(r, ' ', k, i);
      assert r[k][i] != ' ';
    }
    r
  }

  lemma {:induction false} JoinContains(ps: seq<string>, sep: char, k: nat, i: nat)
    requires |ps| >= 1 && k < |ps| && i < |ps[k]|
    ensures ps[k][i] in Join(ps, sep)
  {
    if k == 0 {
      if |ps| > 1 {
        assert Join(ps, sep)[i] == ps[0][i];
      }
    } else {
      JoinContains(ps[1..], sep, k - 1, i);
    }
  }

  /** Words `ws` separated by the runs `gs`: `ws[0] + gs[0] + ws[1] + … + ws[n - 1]`. */
  function Interleave(ws: seq<string>, gs: seq<string>): (r: string)
    requires |ws| == |gs| + 1
    ensures |ws[0]| <= |r| && r[..|ws[0]|] == ws[0]
    decreases |gs|
  {
    if gs == [] then ws[0]
    else
      var r := ws[0] + gs[0] + Interleave(ws[1..], gs[1..]);
      assert r[..|ws[0]|] == ws[0];
      r
  }

  lemma {:induction false} DropSpacesRun(g: string, t: string)
    requires AllSpace(g) && (t == [] || !IsSpace(t[0]))
    ensures DropSpaces(g + t) == t
  {
    if g == [] {
      assert g + t == t;
    } else {
      assert (g + t)[1..] == g[1..] + t;
      DropSpacesRun(g[1..], t);
    }
  }

  lemma CollapseCons(c: char, x: string)
    requires !IsSpace(c)
    ensures Collapse([c] + x) == [c] + Collapse(x)
  {
    assert ([c] + x)[1..] == x;
  }

  lemma {:induction false} CollapseWordPrefix(w: string, t: string)
    requires NoSpace(w)
    ensures Collapse(w + t) == w + Collapse(t)
  {
    if w == [] {
      assert w + t == t;
    } else {
      var c, v := w[0], w[1..];
      assert NoSpace(v) by { assert forall i :: 0 <= i < |v| ==> v[i] == w[i + 1]; }
      CollapseWordPrefix(v, t);
      CollapseWordStep(c, v, t);
      assert w == [c] + v;
    }
  }

  /** One step of `CollapseWordPrefix`: a leading non-space is copied through. */
  lemma CollapseWordStep(c: char, v: string, t: string)
    requires !IsSpace(c)
    requires Collapse(v + t) == v + Collapse(t)
    ensures Collapse([c] + v + t) == [c] + v + Collapse(t)
  {
    var x := v + t;
    assert [c] + v + t == [c] + x;
    CollapseCons(c, x);
  }

  lemma {:induction false} CollapseInterleave(ws: seq<string>, gs: seq<string>)
    requires |ws| == |gs| + 1
    requires forall k :: 0 <= k < |ws| ==> ws[k] != [] && NoSpace(ws[k])
    requires forall k :: 0 <= k < |gs| ==> gs[k] != [] && AllSpace(gs[k])
    ensures Collapse(Interleave(ws, gs)) == Join(ws, ' ')
    decreases |gs|
  {
    if gs == [] {
      CollapseWordPrefix(ws[0], []);
      assert ws[0] + [] == ws[0];
    } else {
      var rest := Interleave(ws[1..], gs[1..]);
      CollapseInterleave(ws[1..], gs[1..]);
      assert rest[0] == rest[..|ws[1]|][0] == ws[1][0];
      DropSpacesRun(gs[0], rest);
      assert Collapse(gs[0] + rest) == [' '] + Collapse(rest);
      assert ws[0] + gs[0] + rest == ws[0] + (gs[0] + rest);
      CollapseWordPrefix(ws[0], gs[0] + rest);
    }
  }

  /**
   * `split(/\s+/)` cuts exactly at the whitespace runs: text made of
   * non-empty words separated by non-empty whitespace runs splits back
   * into those words.
   */
  lemma SplitWsInterleave(ws: seq<string>, gs: seq<string>)
    requires |ws| == |gs| + 1
    requires forall k :: 0 <= k < |ws| ==> ws[k] != [] && NoSpace(ws[k])
    requires forall k :: 0 <= k < |gs| ==> gs[k] != [] && AllSpace(gs[k])
    ensures SplitWs(Interleave(ws, gs)) == ws
  {
    CollapseInterleave(ws, gs);
    assert IsSpace(' ');
    SplitOnJoin(ws, ' ');
  }

  function LowerChar(c: char): char {
    if 'A' <= c <= 'Z' then (c as int + 32) as char else c
  }

  /** `toLowerCase` restricted to ASCII letters. */
  function Lower(s: string): (r: string)
    ensures |r| == |s|
    ensures forall i :: 0 <= i < |s| ==> r[i] == LowerChar(s[i])
  {
    seq(|s|, i requires 0 <= i < |s| => LowerChar(s[i]))
  }

  /** The `stopwords` set of script.js. */
  const StopWords: set<string> := {
    "the", "and", "for", "with", "that", "this", "from", "are", "which", "have",
    "has", "were", "was", "is", "a", "an", "in", "on", "of", "to", "as", "at",
    "be", "by", "it", "or", "we", "you", "they", "he", "she", "his", "her",
    "their", "ours", "my", "our"
  }

  /** A token that may become a keyword or a distractor: longer than three and not a stop-word. */
  predicate Qualifies(w: string) {
    |w| > 3 && Lower(w) !in StopWords
  }

  /** `ws.filter(w => w.length > 3 && !stopwords.has(w.toLowerCase()))`. */
  function FilterQualifying(ws: seq<string>): (r: seq<string>)
    ensures |r| <= |ws|
    ensures |ws| == 1 ==> (r == ws <==> Qualifies(ws[0])) && (r == [] <==> !Qualifies(ws[0]))
    ensures forall w :: w in r <==> w in ws && Qualifies(w)
  {
    if ws == [] then []
    else (if Qualifies(ws[0]) then [ws[0]] else []) + FilterQualifying(ws[1..])
  }

  /** The filter keeps order and multiplicity: it distributes over concatenation. */
  lemma {:induction false} FilterQualifyingAppend(a: seq<string>, b: seq<string>)
    ensures FilterQualifying(a + b) == FilterQualifying(a) + FilterQualifying(b)
  {
    if a == [] {
      assert a + b == b;
    } else {
      assert (a + b)[1..] == a[1..] + b;
      FilterQualifyingAppend(a[1..], b);
    }
  }

  /** Position of the first occurrence of `x` in `s`. */
  function FirstIndex<T(==)>(s: seq<T>, x: T): (i: nat)
    requires x in s
    ensures i < |s| && s[i] == x
    ensures forall k :: 0 <= k < i ==> s[k] != x
  {
    if s[0] == x then 0 else 1 + FirstIndex(s[1..], x)
  }

  /** `[...new Set(ws)]`: each element once, in the order of its first occurrence. */
  function Dedup<T(==)>(ws: seq<T>): (r: seq<T>)
    ensures Distinct(r)
    ensures forall i :: 0 <= i < |r| ==> r[i] in ws
    ensures forall i :: 0 <= i < |ws| ==> ws[i] in r
  {
    if ws == [] then []
    else
      var d := Dedup(ws[..|ws| - 1]);
      if ws[|ws| - 1] in d then d else d + [ws[|ws| - 1]]
  }

  lemma {:induction false} FirstIndexPrefix<T>(ws: seq<T>, n: nat, x: T)
    requires n <= |ws| && x in ws[..n]
    ensures FirstIndex(ws, x) == FirstIndex(ws[..n], x)
  {
    var i := FirstIndex(ws[..n], x);
    assert ws[i] == x;
  }

  /** The elements of `[...new Set(ws)]` appear in the order of their first occurrence in `ws`. */
  lemma {:induction false} DedupFirstOccurrenceOrder<T>(ws: seq<T>)
    ensures forall i, j :: 0 <= i < j < |Dedup(ws)| ==>
              FirstIndex(ws, Dedup(ws)[i]) < FirstIndex(ws, Dedup(ws)[j])
  {
    if ws != [] {
      var n := |ws| - 1;
      var p := ws[..n];
      var d := Dedup(p);
      DedupFirstOccurrenceOrder(p);
      forall x | x in d
        ensures FirstIndex(ws, x) == FirstIndex(p, x) < n
      {
        FirstIndexPrefix(ws, n, x);
      }
      if ws[n] in d {
        assert Dedup(ws) == d;
      } else {
        assert ws[n] !in p;
        assert FirstIndex(ws, ws[n]) == n;
        OrderedAppend(ws, d, ws[n]);
        assert Dedup(ws) == d + [ws[n]];
      }
    }
  }

  /** Appending an element that first occurs after every element of `d` keeps `d` ordered by first occurrence. */
  lemma OrderedAppend<T>(ws: seq<T>, d: seq<T>, y: T)
    requires y in ws && forall x :: x in d ==> x in ws
    requires forall i, j :: 0 <= i < j < |d| ==> FirstIndex(ws, d[i]) < FirstIndex(ws, d[j])
    requires forall x :: x in d ==> FirstIndex(ws, x) < FirstIndex(ws, y)
    ensures forall i, j :: 0 <= i < j < |d + [y]| ==>
              FirstIndex(ws, (d + [y])[i]) < FirstIndex(ws, (d + [y])[j])
  {
    var e := d + [y];
    forall i, j | 0 <= i < j < |e|
      ensures FirstIndex(ws, e[i]) < FirstIndex(ws, e[j])
    {
      assert e[i] == d[i] && e[i] in d;
      if j < |d| {
        assert e[j] == d[j];
      } else {
        assert e[j] == y;
      }
    }
  }

  /** Collapsing leaves only single plain spaces. */
  lemma {:induction false} CollapseIsCollapsed(s: string)
    ensures IsCollapsed(Collapse(s))
    decreases |s|
  {
    if s != [] {
      if IsSpace(s[0]) {
        CollapseIsCollapsed(DropSpaces(s));
      } else {
        CollapseIsCollapsed(s[1..]);
      }
    }
  }

  lemma VisibleCons(c: char, x: string)
    ensures Visible([c] + x) == (if IsSpace(c) then [] else [c]) + Visible(x)
  {
    assert ([c] + x)[1..] == x;
  }

  lemma {:induction false} VisibleDropSpaces(s: string)
    ensures Visible(DropSpaces(s)) == Visible(s)
  {
    if |s| > 0 && IsSpace(s[0]) {
      VisibleDropSpaces(s[1..]);
    }
  }

  /** Collapsing whitespace keeps every other character, in order. */
  lemma {:induction false} CollapseKeepsVisible(s: string)
    ensures Visible(Collapse(s)) == Visible(s)
    decreases |s|
  {
    if s != [] {
      if IsSpace(s[0]) {
        CollapseKeepsVisible(DropSpaces(s));
        VisibleDropSpaces(s);
        VisibleCons(' ', Collapse(DropSpaces(s)));
      } else {
        CollapseKeepsVisible(s[1..]);
        VisibleCons(s[0], Collapse(s[1..]));
      }
    }
  }

  /** Collapsing an already collapsed string changes nothing, so collapsing is idempotent. */
  lemma {:induction false} CollapseFixesCollapsed(s: string)
    requires IsCollapsed(s)
    ensures Collapse(s) == s
  {
    if s != [] {
      assert IsCollapsed(s[1..]);
      CollapseFixesCollapsed(s[1..]);
      if IsSpace(s[0]) {
        assert DropSpaces(s) == s[1..];
      }
    }
  }

  lemma JoinPrependFirst(x: string, ps: seq<string>, sep: char)
    requires |ps| >= 1
    ensures Join(PrependFirst(x, ps), sep) == x + Join(ps, sep)
  {
    var qs := PrependFirst(x, ps);
    if |ps| > 1 {
      assert qs[1..] == ps[1..];
    }
  }

  /** Joining the pieces of `s.split(sep)` with `sep` gives back `s`. */
  lemma {:induction false} JoinSplitOn(s: string, sep: char)
    ensures Join(SplitOn(s, sep), sep) == s
  {
    if s != [] {
      var tail := s[1..];
      var rest := SplitOn(tail, sep);
      JoinSplitOn(tail, sep);
      assert s == [s[0]] + tail;
      if s[0] == sep {
        assert SplitOn(s, sep) == [[]] + rest;
        JoinAfterEmpty(rest, sep);
      } else {
        assert SplitOn(s, sep) == PrependFirst([s[0]], rest);
        JoinPrependFirst([s[0]], rest, sep);
      }
    }
  }

  /** An empty first piece contributes just the separator. */
  lemma JoinAfterEmpty(ps: seq<string>, sep: char)
    requires |ps| >= 1
    ensures Join([[]] + ps, sep) == [sep] + Join(ps, sep)
  {
    assert ([[]] + ps)[1..] == ps;
  }

  /** A prefix free of `sep` is glued to the first piece of the split. */
  lemma {:induction false} SplitOnPrefix(x: string, t: string, sep: char)
    requires sep !in x
    ensures SplitOn(x + t, sep) == PrependFirst(x, SplitOn(t, sep))
  {
    if x == [] {
      assert x + t == t;
      SplitOnEmptyPrefix(t, sep);
    } else {
      assert sep !in x[1..];
      SplitOnPrefix(x[1..], t, sep);
      SplitOnPrefixStep(x, t, sep);
    }
  }

  lemma SplitOnEmptyPrefix(t: string, sep: char)
    ensures SplitOn(t, sep) == PrependFirst([], SplitOn(t, sep))
  {
    var ts := SplitOn(t, sep);
    assert [] + ts[0] == ts[0];
    assert ts == [ts[0]] + ts[1..];
  }

  lemma SplitOnPrefixStep(x: string, t: string, sep: char)
    requires x != [] && x[0] != sep
    requires SplitOn(x[1..] + t, sep) == PrependFirst(x[1..], SplitOn(t, sep))
    ensures SplitOn(x + t, sep) == PrependFirst(x, SplitOn(t, sep))
  {
    var c, v := x[0], x[1..];
    assert x + t == [c] + (v + t);
    SplitOnCons(c, v + t, sep);
    PrependFirstTwice([c], v, SplitOn(t, sep));
    assert [c] + v == x;
  }

  lemma PrependFirstTwice(c: string, v: string, ts: seq<string>)
    requires |ts| >= 1
    ensures PrependFirst(c, PrependFirst(v, ts)) == PrependFirst(c + v, ts)
  {
    var p := PrependFirst(v, ts);
    assert p[0] == v + ts[0];
    assert p[1..] == ts[1..];
    assert c + (v + ts[0]) == (c + v) + ts[0];
  }

  /** A leading character other than `sep` joins the first piece. */
  lemma SplitOnCons(c: char, y: string, sep: char)
    requires c != sep
    ensures SplitOn([c] + y, sep) == PrependFirst([c], SplitOn(y, sep))
  {
    assert ([c] + y)[1..] == y;
  }

  /** Splitting on `sep` undoes joining pieces that do not contain `sep`. */
  lemma {:induction false} SplitOnJoin(ps: seq<string>, sep: char)
    requires |ps| >= 1
    requires forall k :: 0 <= k < |ps| ==> sep !in ps[k]
    ensures SplitOn(Join(ps, sep), sep) == ps
  {
    if |ps| == 1 {
      SplitOnPrefix(ps[0], [], sep);
      assert ps[0] + [] == ps[0];
    } else {
      var rest := Join(ps[1..], sep);
      SplitOnJoin(ps[1..], sep);
      assert Join(ps, sep) == ps[0] + ([sep] + rest);
      SplitOnPrefix(ps[0], [sep] + rest, sep);
      assert ([sep] + rest)[1..] == rest;
      var tail := SplitOn([sep] + rest, sep);
      assert tail == [[]] + SplitOn(rest, sep);
      assert ps[0] + tail[0] == ps[0];
      assert tail[1..] == ps[1..];
      assert ps == [ps[0]] + ps[1..];
    }
  }
}
