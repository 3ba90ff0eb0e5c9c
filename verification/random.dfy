/**
 * The random draws of generateQuiz. Every `Math.random()` call is one
 * element of an explicit stream of values in [0, 1), so each draw
 * `Math.floor(Math.random() * k)` is `Pick(rand(pos), k)` and the
 * Fisher–Yates loops of script.js:305-308 and 316-319 become deterministic.
 */
module Random {
  import opened Text

  /** A value `Math.random()` can return. */
  type Unit = r: real | 0.0 <= r < 1.0

  /** The stream of `Math.random()` results, the `pos`-th call reading `rand(pos)`. */
  type Stream = nat -> Unit

  lemma ScaledBelow(u: Unit, x: real)
    requires x > 0.0
    ensures 0.0 <= u * x < x
  {
    assert (1.0 - u) * x > 0.0;
  }

  /** `Math.floor(u * k)`: an index below `k`. */
  function Pick(u: Unit, k: nat): (r: nat)
    requires k > 0
    ensures r < k
  {
    ScaledBelow(u, k as real);
    (u * (k as real)).Floor
  }

  /** `[a[i], a[j]] = [a[j], a[i]]`. */
  function Swap<T>(a: seq<T>, i: nat, j: nat): (r: seq<T>)
    requires i < |a| && j < |a|
    ensures |r| == |a| && r[i] == a[j] && r[j] == a[i]
    ensures forall k :: 0 <= k < |a| && k != i && k != j ==> r[k] == a[k]
  {
    a[i := a[j]][j := a[i]]
  }

  lemma SwapPermutes<T>(a: seq<T>, i: nat, j: nat)
    requires i < |a| && j < |a|
    ensures multiset(Swap(a, i, j)) == multiset(a)
  {
    var b := a[i := a[j]];
    assert multiset(b) == multiset(a) - multiset{a[i]} + multiset{a[j]};
    assert multiset(b[j := a[i]]) == multiset(b) - multiset{b[j]} + multiset{a[i]};
  }

  lemma SwapKeepsDistinct<T>(a: seq<T>, i: nat, j: nat)
    requires i < |a| && j < |a|
    ensures Distinct(a) ==> Distinct(Swap(a, i, j))
  {
    var r := Swap(a, i, j);
    forall x, y | 0 <= x < y < |r| && Distinct(a)
      ensures r[x] != r[y]
    {
      var x' := if x == i then j else if x == j then i else x;
      var y' := if y == i then j else if y == j then i else y;
      assert r[x] == a[x'] && r[y] == a[y'] && x' != y';
    }
  }

  /**
   * The loop `for (let i = top; i > 0; i--) { const j = Math.floor(Math.random() * (i + 1)); swap }`
   * reading its draws from `rand(pos)` on; the result carries the next
   * unread position.
   */
  function ShuffleFrom<T>(a: seq<T>, top: int, rand: Stream, pos: nat): (r: (seq<T>, nat))
    requires top < |a|
    ensures |r.0| == |a|
    ensures r.1 == pos + (if top > 0 then top else 0)
    decreases top
  {
    if top <= 0 then (a, pos)
    else ShuffleFrom(Swap(a, top, Pick(rand(pos), top + 1)), top - 1, rand, pos + 1)
  }

  /** The swap loop rearranges `a`: same multiset, and distinct elements stay distinct. */
  lemma {:induction false} ShuffleFromPermutes<T>(a: seq<T>, top: int, rand: Stream, pos: nat)
    requires top < |a|
    ensures multiset(ShuffleFrom(a, top, rand, pos).0) == multiset(a)
    ensures Distinct(a) ==> Distinct(ShuffleFrom(a, top, rand, pos).0)
    decreases top
  {
    if top > 0 {
      var j := Pick(rand(pos), top + 1);
      SwapPermutes(a, top, j);
      SwapKeepsDistinct(a, top, j);
      ShuffleFromPermutes(Swap(a, top, j), top - 1, rand, pos + 1);
    }
  }

  /**
   * A whole Fisher–Yates pass over `a`, as script.js:305-308 and 316-319 run
   * it: a permutation of `a` that consumes one draw per index above zero.
   */
  function FisherYates<T>(a: seq<T>, rand: Stream, pos: nat): (r: (seq<T>, nat))
    ensures |r.0| == |a| && multiset(r.0) == multiset(a)
    ensures Distinct(a) ==> Distinct(r.0)
    ensures r.1 == pos + (if |a| > 1 then |a| - 1 else 0)
  {
    ShuffleFromPermutes(a, |a| - 1, rand, pos);
    ShuffleFrom(a, |a| - 1, rand, pos)
  }

  /**
   * The Fisher–Yates swap loop itself, written as script.js writes it: it
   * computes the recursive definition, hence a permutation of `a`.
   */
  method Shuffle<T>(a: seq<T>, rand: Stream, pos: nat) returns (r: seq<T>, next: nat)
    ensures (r, next) == ShuffleFrom(a, |a| - 1, rand, pos)
    ensures multiset(r) == multiset(a)
  {
    r := a;
    next := pos;
    var i := |a| - 1;
    while i > 0
      invariant i < |a| && |r| == |a|
      invariant ShuffleFrom(r, i, rand, next) == ShuffleFrom(a, |a| - 1, rand, pos)
    {
      var j := Pick(rand(next), i + 1);
      r := Swap(r, i, j);
      next := next + 1;
      i := i - 1;
    }
    assert ShuffleFrom(r, i, rand, next) == (r, next);
    ShuffleFromPermutes(a, |a| - 1, rand, pos);
  }
}
