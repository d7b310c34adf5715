/**
 * Shared building blocks of the tracker model: an optional value, the two
 * JavaScript array helpers every store leans on (`filter` and `find`), sums
 * over a sequence, and `Math.round` applied to a quotient of integers.
 */
module Common {

  /** A value that may be absent: a missing key, a failed parse, a `find`
      that matched nothing. */
  datatype Option<+T> = None | Some(value: T) {

    /** The value, or `default` when absent (JavaScript's `x ?? d`). */
    function GetOr(default: T): T {
      if Some? then value else default
    }
  }

  /** `a` is `b` with some elements deleted: what is left keeps its order. */
  ghost predicate SubsequenceOf<T>(a: seq<T>, b: seq<T>)
    decreases |b|
  {
    if |a| == 0 then true
    else if |b| == 0 then false
    else (a[0] == b[0] && SubsequenceOf(a[1..], b[1..])) || SubsequenceOf(a, b[1..])
  }

  /** `Array.prototype.filter`: the elements satisfying `p`, kept in their
      original order. */
  function Filter<T(!new)>(xs: seq<T>, p: T -> bool): (r: seq<T>)
    ensures |r| <= |xs|
    ensures SubsequenceOf(r, xs)
    ensures forall i :: 0 <= i < |r| ==> r[i] in xs && p(r[i])
    ensures forall i :: 0 <= i < |xs| && p(xs[i]) ==> xs[i] in r
  {
    if |xs| == 0 then []
    else
      var rest := Filter(xs[1..], p);
      if p(xs[0]) then
        assert ([xs[0]] + rest)[1..] == rest;
        [xs[0]] + rest
      else rest
  }

  /** Each value occurs in the filtered list as often as in the original
      when it passes, and not at all when it fails. */
  lemma {:induction false} FilterMultiset<T(!new)>(xs: seq<T>, p: T -> bool)
    ensures forall x :: multiset(Filter(xs, p))[x] == if p(x) then multiset(xs)[x] else 0
  {
    if |xs| > 0 {
      var tail := xs[1..];
      FilterMultiset(tail, p);
      assert xs == [xs[0]] + tail;
      assert multiset(xs) == multiset{xs[0]} + multiset(tail);
      if p(xs[0]) {
        assert Filter(xs, p) == [xs[0]] + Filter(tail, p);
        assert multiset(Filter(xs, p)) == multiset{xs[0]} + multiset(Filter(tail, p));
      }
    }
  }

  /** Filtering a list looks at its head, then filters the rest. */
  lemma FilterCons<T(!new)>(x: T, xs: seq<T>, p: T -> bool)
    ensures Filter([x] + xs, p) == (if p(x) then [x] else []) + Filter(xs, p)
  {
    assert ([x] + xs)[1..] == xs;
  }

  /** Filtering with a predicate every element satisfies changes nothing. */
  lemma {:induction false} FilterKeepsAll<T(!new)>(xs: seq<T>, p: T -> bool)
    requires forall i :: 0 <= i < |xs| ==> p(xs[i])
    ensures Filter(xs, p) == xs
  {
    if |xs| > 0 {
      FilterKeepsAll(xs[1..], p);
    }
  }

  /** Nothing is dropped exactly when every element passes, and nothing is
      kept exactly when none does. */
  lemma FilterFull<T(!new)>(xs: seq<T>, p: T -> bool)
    ensures |Filter(xs, p)| == |xs| <==> forall i :: 0 <= i < |xs| ==> p(xs[i])
    ensures |Filter(xs, p)| == 0 <==> forall i :: 0 <= i < |xs| ==> !p(xs[i])
  {
    FilterKeepsAllIff(xs, p);
    FilterKeepsNoneIff(xs, p);
  }

  lemma {:induction false} FilterKeepsAllIff<T(!new)>(xs: seq<T>, p: T -> bool)
    ensures |Filter(xs, p)| == |xs| <==> forall i :: 0 <= i < |xs| ==> p(xs[i])
  {
    if |xs| > 0 {
      var tail := xs[1..];
      FilterKeepsAllIff(tail, p);
      assert |Filter(xs, p)| == |Filter(tail, p)| + (if p(xs[0]) then 1 else 0);
      assert forall i :: 1 <= i < |xs| ==> xs[i] == tail[i - 1];
    }
  }

  lemma {:induction false} FilterKeepsNoneIff<T(!new)>(xs: seq<T>, p: T -> bool)
    ensures |Filter(xs, p)| == 0 <==> forall i :: 0 <= i < |xs| ==> !p(xs[i])
  {
    if |xs| > 0 {
      var tail := xs[1..];
      FilterKeepsNoneIff(tail, p);
      assert |Filter(xs, p)| == |Filter(tail, p)| + (if p(xs[0]) then 1 else 0);
      assert forall i :: 1 <= i < |xs| ==> xs[i] == tail[i - 1];
    }
  }

  /** The positions below `n` whose element passes `p`. */
  ghost function Passing<T>(xs: seq<T>, p: T -> bool, n: nat): set<int>
    requires n <= |xs|
  {
    set i | 0 <= i < n && p(xs[i])
  }

  /** The length of a filtered list is the number of positions whose
      element passes. */
  lemma FilterCount<T(!new)>(xs: seq<T>, p: T -> bool)
    ensures |Filter(xs, p)| == |Passing(xs, p, |xs|)|
  {
    FilterCountPrefix(xs, p, |xs|);
    assert xs[..|xs|] == xs;
  }

  lemma {:induction false} FilterCountPrefix<T(!new)>(xs: seq<T>, p: T -> bool, n: nat)
    requires n <= |xs|
    ensures |Filter(xs[..n], p)| == |Passing(xs, p, n)|
  {
    if n == 0 {
      assert Passing(xs, p, n) == {};
    } else {
      FilterCountPrefix(xs, p, n - 1);
      FilterPrefixStep(xs, p, n);
      PassingStep(xs, p, n);
    }
  }

  /** Filtering one more element of a prefix. */
  lemma FilterPrefixStep<T(!new)>(xs: seq<T>, p: T -> bool, n: nat)
    requires 0 < n <= |xs|
    ensures |Filter(xs[..n], p)| == |Filter(xs[..n - 1], p)| + if p(xs[n - 1]) then 1 else 0
  {
    FilterSnoc(xs[..n - 1], xs[n - 1], p);
    assert xs[..n] == xs[..n - 1] + [xs[n - 1]];
  }

  /** Filtering a list with one more element at the end. */
  lemma FilterSnoc<T(!new)>(xs: seq<T>, x: T, p: T -> bool)
    ensures |Filter(xs + [x], p)| == |Filter(xs, p)| + if p(x) then 1 else 0
  {
    FilterConcat(xs, [x], p);
    assert [x][1..] == [];
  }

  /** The passing positions below `n` are those below `n - 1` and possibly
      `n - 1` itself. */
  lemma PassingStep<T>(xs: seq<T>, p: T -> bool, n: nat)
    requires 0 < n <= |xs|
    ensures |Passing(xs, p, n)| == |Passing(xs, p, n - 1)| + if p(xs[n - 1]) then 1 else 0
  {
    var passing := Passing(xs, p, n);
    var earlier := Passing(xs, p, n - 1);
    if p(xs[n - 1]) {
      assert passing == earlier + {n - 1};
    } else {
      assert passing == earlier;
    }
  }

  /** Filtering distributes over concatenation. */
  lemma {:induction false} FilterConcat<T(!new)>(a: seq<T>, b: seq<T>, p: T -> bool)
    ensures Filter(a + b, p) == Filter(a, p) + Filter(b, p)
  {
    if |a| > 0 {
      assert (a + b)[1..] == a[1..] + b;
      FilterConcat(a[1..], b, p);
    } else {
      assert a + b == b;
    }
  }

  /** Filtering again with a stronger predicate is the same as filtering
      once with it. */
  lemma {:induction false} FilterNarrow<T(!new)>(xs: seq<T>, p: T -> bool, q: T -> bool)
    requires forall x :: q(x) ==> p(x)
    ensures Filter(Filter(xs, p), q) == Filter(xs, q)
  {
    if |xs| > 0 {
      FilterNarrow(xs[1..], p, q);
      if p(xs[0]) {
        assert Filter(xs, p) == [xs[0]] + Filter(xs[1..], p);
        assert Filter(xs, p)[1..] == Filter(xs[1..], p);
      } else {
        assert Filter(xs, p) == Filter(xs[1..], p);
      }
    }
  }

  /** Filtering twice with the same predicate is filtering once. */
  lemma FilterIdempotent<T(!new)>(xs: seq<T>, p: T -> bool)
    ensures Filter(Filter(xs, p), p) == Filter(xs, p)
  {
    FilterNarrow(xs, p, p);
  }

  /** The position `Array.prototype.findIndex` reports: the first index whose
      element satisfies `p`, or none. */
  function FindIndex<T>(xs: seq<T>, p: T -> bool): (r: Option<nat>)
    ensures r.None? <==> forall i :: 0 <= i < |xs| ==> !p(xs[i])
    ensures r.Some? ==> r.value < |xs| && p(xs[r.value])
    ensures r.Some? ==> forall j :: 0 <= j < r.value ==> !p(xs[j])
  {
    if |xs| == 0 then None
    else if p(xs[0]) then Some(0)
    else
      match FindIndex(xs[1..], p)
      case None => None
      case Some(k) => Some(k + 1)
  }

  /** `Array.prototype.find`: the first element satisfying `p`, or none. */
  function FindFirst<T>(xs: seq<T>, p: T -> bool): (r: Option<T>)
    ensures r.None? <==> forall i :: 0 <= i < |xs| ==> !p(xs[i])
    ensures r.Some? ==> r.value in xs && p(r.value)
    ensures forall i :: 0 <= i < |xs| && p(xs[i]) && (forall j :: 0 <= j < i ==> !p(xs[j])) ==> r == Some(xs[i])
  {
    match FindIndex(xs, p)
    case None => None
    case Some(i) => Some(xs[i])
  }

  /** `find` looks at the head first, then searches the rest. */
  lemma FindFirstCons<T>(xs: seq<T>, p: T -> bool)
    requires |xs| > 0
    ensures FindFirst(xs, p) == if p(xs[0]) then Some(xs[0]) else FindFirst(xs[1..], p)
  {
    if !p(xs[0]) {
      match FindIndex(xs[1..], p)
      case None =>
      case Some(k) => assert xs[1..][k] == xs[k + 1];
    }
  }

  /** An element that fails `p` is invisible to `find`, wherever it sits. */
  lemma {:induction false} FindIndexSkip<T>(a: seq<T>, x: T, b: seq<T>, p: T -> bool)
    requires !p(x)
    ensures FindFirst(a + [x] + b, p) == FindFirst(a + b, p)
  {
    var left, right := a + [x] + b, a + b;
    if |a| == 0 {
      FindFirstCons(left, p);
      assert left[1..] == b == right;
    } else {
      FindFirstCons(left, p);
      FindFirstCons(right, p);
      assert left[0] == a[0] == right[0];
      assert left[1..] == a[1..] + [x] + b;
      assert right[1..] == a[1..] + b;
      FindIndexSkip(a[1..], x, b, p);
    }
  }

  /** Sum of `f` over a sequence of values (integer version of `reduce`). */
  function SumInt<T>(xs: seq<T>, f: T -> int): int {
    if |xs| == 0 then 0 else f(xs[0]) + SumInt(xs[1..], f)
  }

  /** Sum of `f` over a sequence of values (real version of `reduce`). */
  function SumReal<T>(xs: seq<T>, f: T -> real): real {
    if |xs| == 0 then 0.0 else f(xs[0]) + SumReal(xs[1..], f)
  }

  /** Sums distribute over concatenation. */
  lemma {:induction false} SumIntConcat<T>(a: seq<T>, b: seq<T>, f: T -> int)
    ensures SumInt(a + b, f) == SumInt(a, f) + SumInt(b, f)
  {
    if |a| == 0 {
      assert a + b == b;
    } else {
      assert (a + b)[1..] == a[1..] + b;
      SumIntConcat(a[1..], b, f);
    }
  }

  /** Sums distribute over concatenation. */
  lemma {:induction false} SumRealConcat<T>(a: seq<T>, b: seq<T>, f: T -> real)
    ensures SumReal(a + b, f) == SumReal(a, f) + SumReal(b, f)
  {
    if |a| == 0 {
      assert a + b == b;
    } else {
      assert (a + b)[1..] == a[1..] + b;
      SumRealConcat(a[1..], b, f);
    }
  }

  /** Summing `f` over the elements that pass `p` is summing over all
      elements a function that is zero where `p` fails. */
  lemma {:induction false} SumIntFilter<T(!new)>(xs: seq<T>, p: T -> bool, f: T -> int, g: T -> int)
    requires forall x :: g(x) == if p(x) then f(x) else 0
    ensures SumInt(Filter(xs, p), f) == SumInt(xs, g)
  {
    if |xs| > 0 {
      SumIntFilter(xs[1..], p, f, g);
      SumIntConcat(if p(xs[0]) then [xs[0]] else [], Filter(xs[1..], p), f);
    }
  }

  /** Real version of `SumIntFilter`. */
  lemma {:induction false} SumRealFilter<T(!new)>(xs: seq<T>, p: T -> bool, f: T -> real, g: T -> real)
    requires forall x :: g(x) == if p(x) then f(x) else 0.0
    ensures SumReal(Filter(xs, p), f) == SumReal(xs, g)
  {
    if |xs| > 0 {
      SumRealFilter(xs[1..], p, f, g);
      SumRealConcat(if p(xs[0]) then [xs[0]] else [], Filter(xs[1..], p), f);
    }
  }

  /** `Math.round(p / q)` for a positive divisor: the integer nearest to
      p/q, with halves rounded up (towards positive infinity). */
  function RoundDiv(p: int, q: int): (r: int)
    requires q > 0
    ensures q * (2 * r - 1) <= 2 * p < q * (2 * r + 1)
  {
    var r := (2 * p + q) / (2 * q);
    assert 2 * q * r <= 2 * p + q < 2 * q * r + 2 * q;
    r
  }

  /** Multiplying by a positive number keeps the order. */
  lemma MulMonotone(n: int, a: int, b: int)
    requires n > 0
    ensures a <= b <==> n * a <= n * b
  {
    if a <= b {
      assert n * b - n * a == n * (b - a);
    } else {
      assert n * a - n * b == n * (a - b);
    }
  }
}
