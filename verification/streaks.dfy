/**
 * The two streak figures of the statistics page (`Statistics.tsx`): the
 * current streak counts records with a completion rate of at least 80 from
 * the newest one backwards, the longest streak is the longest unbroken run
 * of such records in chronological order. Both sort a copy of the stats
 * list by the instant each record's date denotes; `time` gives that
 * instant (`new Date(date).getTime()`).
 */
module Streaks {
  import opened Common
  import opened Types

  // ---------------------------------------------------------------------
  // Stable sorting by an integer key
  // ---------------------------------------------------------------------

  /** `a` may precede `b`: ascending or descending by key. */
  predicate InOrder<T>(a: T, b: T, key: T -> int, desc: bool) {
    if desc then key(a) >= key(b) else key(a) <= key(b)
  }

  /** Neighbours are in order. */
  predicate Sorted<T>(xs: seq<T>, key: T -> int, desc: bool) {
    forall i :: 0 <= i < |xs| - 1 ==> InOrder(xs[i], xs[i + 1], key, desc)
  }

  /** Neighbours are in order and have different keys. */
  predicate StrictlySorted<T>(xs: seq<T>, key: T -> int, desc: bool) {
    forall i :: 0 <= i < |xs| - 1 ==> InOrder(xs[i], xs[i + 1], key, desc) && key(xs[i]) != key(xs[i + 1])
  }

  /** No two positions carry the same key. */
  predicate DistinctKeys<T>(xs: seq<T>, key: T -> int) {
    forall i, j :: 0 <= i < j < |xs| ==> key(xs[i]) != key(xs[j])
  }

  /** Inserts `x` before the first element it may precede, so it lands
      before every element with an equal key. */
  function Insert<T>(x: T, xs: seq<T>, key: T -> int, desc: bool): (r: seq<T>)
    ensures |r| == |xs| + 1
    ensures multiset(r) == multiset(xs) + multiset{x}
    ensures r[0] == x || (|xs| > 0 && r[0] == xs[0])
  {
    if |xs| == 0 then [x]
    else if InOrder(x, xs[0], key, desc) then [x] + xs
    else
      var rest := Insert(x, xs[1..], key, desc);
      assert xs == [xs[0]] + xs[1..];
      [xs[0]] + rest
  }

  /** Inserting into a sorted sequence keeps it sorted, and strictly so
      when the new key differs from every key present. */
  lemma {:induction false} InsertSorted<T>(x: T, xs: seq<T>, key: T -> int, desc: bool)
    requires Sorted(xs, key, desc)
    ensures Sorted(Insert(x, xs, key, desc), key, desc)
    ensures StrictlySorted(xs, key, desc) && (forall j :: 0 <= j < |xs| ==> key(xs[j]) != key(x))
            ==> StrictlySorted(Insert(x, xs, key, desc), key, desc)
  {
    if |xs| > 0 && !InOrder(x, xs[0], key, desc) {
      var tail := xs[1..];
      assert forall i :: 0 <= i < |tail| ==> tail[i] == xs[i + 1];
      InsertSorted(x, tail, key, desc);
      var rest := Insert(x, tail, key, desc);
      var r := Insert(x, xs, key, desc);
      assert r == [xs[0]] + rest;
      assert forall i :: 1 <= i < |r| ==> r[i] == rest[i - 1];
    }
  }

  /** The elements of a sequence other than its first have keys different
      from the first's, when all keys are distinct. */
  lemma RestAvoidsHead<T>(xs: seq<T>, rest: seq<T>, key: T -> int)
    requires |xs| > 0 && DistinctKeys(xs, key)
    requires multiset(rest) == multiset(xs[1..])
    ensures forall j :: 0 <= j < |rest| ==> key(rest[j]) != key(xs[0])
  {
    forall j | 0 <= j < |rest|
      ensures key(rest[j]) != key(xs[0])
    {
      assert rest[j] in multiset(xs[1..]);
      var k :| 0 <= k < |xs[1..]| && xs[1..][k] == rest[j];
      assert xs[k + 1] == rest[j];
    }
  }

  /** A stable insertion sort (`Array.prototype.sort` with a numeric
      comparator is stable): a permutation of the input in key order, and
      strictly in key order when the keys are distinct. */
  function Sort<T>(xs: seq<T>, key: T -> int, desc: bool): (r: seq<T>)
    ensures |r| == |xs|
    ensures multiset(r) == multiset(xs)
    ensures Sorted(r, key, desc)
    ensures DistinctKeys(xs, key) ==> StrictlySorted(r, key, desc)
  {
    if |xs| == 0 then []
    else
      var rest := Sort(xs[1..], key, desc);
      assert xs == [xs[0]] + xs[1..];
      InsertSorted(xs[0], rest, key, desc);
      if DistinctKeys(xs, key) then
        assert DistinctKeys(xs[1..], key);
        RestAvoidsHead(xs, rest, key);
        Insert(xs[0], rest, key, desc)
      else
        Insert(xs[0], rest, key, desc)
  }

  /** The elements whose key is `k`. */
  function HasKey<T>(key: T -> int, k: int): T -> bool {
    (x: T) => key(x) == k
  }

  /** `Insert` passes over only elements whose key differs from the new
      one's, so among the elements of one key the new one comes first. */
  lemma {:induction false} InsertKeepsKeyOrder<T(!new)>(x: T, xs: seq<T>, key: T -> int, desc: bool, k: int)
    ensures Filter(Insert(x, xs, key, desc), HasKey(key, k))
            == (if key(x) == k then [x] else []) + Filter(xs, HasKey(key, k))
  {
    var q := HasKey(key, k);
    if |xs| == 0 {
      FilterCons(x, [], q);
    } else if InOrder(x, xs[0], key, desc) {
      FilterCons(x, xs, q);
    } else {
      InsertKeepsKeyOrder(x, xs[1..], key, desc, k);
      InsertPassingOver(x, xs, key, desc, k);
    }
  }

  /** The step of `InsertKeepsKeyOrder` where `x` moves past the head. */
  lemma InsertPassingOver<T(!new)>(x: T, xs: seq<T>, key: T -> int, desc: bool, k: int)
    requires |xs| > 0 && !InOrder(x, xs[0], key, desc)
    requires Filter(Insert(x, xs[1..], key, desc), HasKey(key, k))
             == (if key(x) == k then [x] else []) + Filter(xs[1..], HasKey(key, k))
    ensures Filter(Insert(x, xs, key, desc), HasKey(key, k))
            == (if key(x) == k then [x] else []) + Filter(xs, HasKey(key, k))
  {
    var q, head, tail := HasKey(key, k), xs[0], xs[1..];
    var ins := Insert(x, tail, key, desc);
    var front := if q(head) then [head] else [];
    assert Insert(x, xs, key, desc) == [head] + ins;
    assert xs == [head] + tail;
    FilterCons(head, ins, q);
    FilterCons(head, tail, q);
    assert Filter(Insert(x, xs, key, desc), q) == front + Filter(ins, q);
    assert Filter(xs, q) == front + Filter(tail, q);
    if key(x) == k {
      assert q(x) && key(head) != key(x);
      assert front == [];
    } else {
      assert Filter(ins, q) == Filter(tail, q);
    }
  }

  /** `Sort` is stable: the elements of each key keep their input order. */
  lemma {:induction false} SortStable<T(!new)>(xs: seq<T>, key: T -> int, desc: bool, k: int)
    ensures Filter(Sort(xs, key, desc), HasKey(key, k)) == Filter(xs, HasKey(key, k))
  {
    if |xs| > 0 {
      var tail := xs[1..];
      SortStable(tail, key, desc, k);
      InsertKeepsKeyOrder(xs[0], Sort(tail, key, desc), key, desc, k);
      FilterCons(xs[0], tail, HasKey(key, k));
      assert xs == [xs[0]] + tail;
    }
  }

  /** Strict neighbour order extends to every pair of positions. */
  lemma {:induction false} StrictAscendingPairs<T>(xs: seq<T>, key: T -> int)
    requires StrictlySorted(xs, key, false)
    ensures forall i, j :: 0 <= i < j < |xs| ==> key(xs[i]) < key(xs[j])
  {
    if |xs| > 1 {
      var tail := xs[1..];
      assert StrictlySorted(tail, key, false) by {
        assert forall i :: 0 <= i < |tail| ==> tail[i] == xs[i + 1];
      }
      StrictAscendingPairs(tail, key);
      assert forall j :: 1 <= j < |xs| ==> xs[j] == tail[j - 1];
      assert forall j :: 1 <= j < |xs| ==> key(xs[0]) < key(xs[j]) by {
        assert key(xs[0]) < key(xs[1]);
      }
    }
  }

  /** Two strictly ascending arrangements of the same multiset coincide. */
  lemma {:induction false} StrictAscendingUnique<T>(a: seq<T>, b: seq<T>, key: T -> int)
    requires forall i, j :: 0 <= i < j < |a| ==> key(a[i]) < key(a[j])
    requires forall i, j :: 0 <= i < j < |b| ==> key(b[i]) < key(b[j])
    requires multiset(a) == multiset(b)
    ensures a == b
  {
    assert |a| == |multiset(a)| == |multiset(b)| == |b|;
    if |a| > 0 {
      SameLeast(a, b, key);
      var a', b' := a[1..], b[1..];
      assert multiset(a') == multiset(b') by {
        TailMultiset(a);
        TailMultiset(b);
      }
      AscendingTail(a, key);
      AscendingTail(b, key);
      StrictAscendingUnique(a', b', key);
      assert a == [a[0]] + a';
      assert b == [b[0]] + b';
    }
  }

  /** The tail of a strictly ascending sequence strictly ascends. */
  lemma AscendingTail<T>(a: seq<T>, key: T -> int)
    requires |a| > 0
    requires forall i, j :: 0 <= i < j < |a| ==> key(a[i]) < key(a[j])
    ensures forall i, j :: 0 <= i < j < |a[1..]| ==> key(a[1..][i]) < key(a[1..][j])
  {
    forall i, j | 0 <= i < j < |a[1..]|
      ensures key(a[1..][i]) < key(a[1..][j])
    {
      assert a[1..][i] == a[i + 1] && a[1..][j] == a[j + 1];
    }
  }

  /** Dropping the first element removes one copy of it. */
  lemma TailMultiset<T>(a: seq<T>)
    requires |a| > 0
    ensures multiset(a[1..]) == multiset(a) - multiset{a[0]}
  {
    assert a == [a[0]] + a[1..];
    assert multiset(a) == multiset{a[0]} + multiset(a[1..]);
  }

  /** Two strictly ascending arrangements of the same non-empty multiset
      start with the same element, the one with the least key. */
  lemma SameLeast<T>(a: seq<T>, b: seq<T>, key: T -> int)
    requires |a| > 0 && |b| > 0
    requires forall i, j :: 0 <= i < j < |a| ==> key(a[i]) < key(a[j])
    requires forall i, j :: 0 <= i < j < |b| ==> key(b[i]) < key(b[j])
    requires multiset(a) == multiset(b)
    ensures a[0] == b[0]
  {
    assert a[0] in multiset(b);
    var j :| 0 <= j < |b| && b[j] == a[0];
    assert b[0] in multiset(a);
    var i :| 0 <= i < |a| && a[i] == b[0];
    assert key(a[0]) <= key(a[i]);
    assert key(b[0]) <= key(b[j]);
    assert j == 0;
  }

  /** The sequence read backwards. */
  function Reverse<T>(xs: seq<T>): (r: seq<T>)
    ensures |r| == |xs|
    ensures forall i :: 0 <= i < |xs| ==> r[i] == xs[|xs| - 1 - i]
  {
    seq(|xs|, i requires 0 <= i < |xs| => xs[|xs| - 1 - i])
  }

  /** Reversing keeps the elements with their multiplicities. */
  lemma {:induction false} ReverseMultiset<T>(xs: seq<T>)
    ensures multiset(Reverse(xs)) == multiset(xs)
  {
    if |xs| > 0 {
      ReverseMultiset(xs[1..]);
      assert Reverse(xs) == Reverse(xs[1..]) + [xs[0]];
      assert xs == [xs[0]] + xs[1..];
    }
  }

  /** With distinct keys the descending sort is the ascending sort read
      backwards (with equal keys the two stable sorts can disagree). */
  lemma DescendingIsReversedAscending<T>(xs: seq<T>, key: T -> int)
    requires DistinctKeys(xs, key)
    ensures Sort(xs, key, true) == Reverse(Sort(xs, key, false))
  {
    var asc := Sort(xs, key, false);
    var desc := Sort(xs, key, true);
    StrictAscendingPairs(asc, key);
    ReversedDescendingAscends(desc, key);
    ReverseMultiset(desc);
    StrictAscendingUnique(Reverse(desc), asc, key);
    ReverseTwice(desc);
  }

  /** A strictly descending sequence read backwards strictly ascends. */
  lemma ReversedDescendingAscends<T>(xs: seq<T>, key: T -> int)
    requires StrictlySorted(xs, key, true)
    ensures forall i, j :: 0 <= i < j < |Reverse(xs)| ==> key(Reverse(xs)[i]) < key(Reverse(xs)[j])
  {
    var back := Reverse(xs);
    forall i, j | 0 <= i < j < |back|
      ensures key(back[i]) < key(back[j])
    {
      DescendingPairs(xs, key, |xs| - 1 - j, |xs| - 1 - i);
    }
  }

  /** In a strictly descending sequence an earlier key is larger. */
  lemma {:induction false} DescendingPairs<T>(xs: seq<T>, key: T -> int, i: int, j: int)
    requires StrictlySorted(xs, key, true)
    requires 0 <= i < j < |xs|
    ensures key(xs[i]) > key(xs[j])
    decreases j - i
  {
    if j > i + 1 {
      DescendingPairs(xs, key, i + 1, j);
    }
  }

  lemma ReverseTwice<T>(xs: seq<T>)
    ensures Reverse(Reverse(xs)) == xs
  {
  }

  // ---------------------------------------------------------------------
  // Streaks
  // ---------------------------------------------------------------------

  /** A record counts towards a streak when its rate is at least 80. */
  predicate Qualifies(s: DailyStats) {
    s.completionRate >= 80
  }

  /** Every record in positions [from, to) qualifies. */
  predicate RunAt(xs: seq<DailyStats>, from: int, to: int)
    requires 0 <= from <= to <= |xs|
  {
    forall m :: from <= m < to ==> Qualifies(xs[m])
  }

  /** `n` is the length of the longest qualifying prefix. */
  predicate IsPrefixRun(xs: seq<DailyStats>, n: int) {
    0 <= n <= |xs| && RunAt(xs, 0, n) && (n == |xs| || !Qualifies(xs[n]))
  }

  /** Positions [from, from + n) lie within `xs` and all qualify. */
  predicate RunOfLength(xs: seq<DailyStats>, from: int, n: int) {
    0 <= from && 0 <= n && from + n <= |xs| && RunAt(xs, from, from + n)
  }

  /** `n` is the length of some qualifying run and no run is longer. */
  ghost predicate IsLongestRun(xs: seq<DailyStats>, n: int) {
    0 <= n <= |xs|
    && (exists j :: RunOfLength(xs, j, n))
    && (forall j, k :: 0 <= j <= k <= |xs| && RunAt(xs, j, k) ==> k - j <= n)
  }

  /** The sort key of a record: the instant its date denotes. */
  function TimeKey(time: string -> int): DailyStats -> int {
    (s: DailyStats) => time(s.date)
  }

  /** Newest first, as the current streak reads the records. */
  function NewestFirst(stats: seq<DailyStats>, time: string -> int): (r: seq<DailyStats>)
    ensures |r| == |stats| && multiset(r) == multiset(stats)
    ensures Sorted(r, TimeKey(time), true)
  {
    Sort(stats, TimeKey(time), true)
  }

  /** Oldest first, as the longest streak reads the records. */
  function OldestFirst(stats: seq<DailyStats>, time: string -> int): (r: seq<DailyStats>)
    ensures |r| == |stats| && multiset(r) == multiset(stats)
    ensures Sorted(r, TimeKey(time), false)
  {
    Sort(stats, TimeKey(time), false)
  }

  /** `calculateCurrentStreak`: the number of qualifying records counted
      from the newest, stopping at the first that does not qualify (the
      stats list itself is left as it is; only a sorted copy is read). */
  method CurrentStreak(stats: seq<DailyStats>, time: string -> int) returns (streak: nat)
    ensures |stats| == 0 ==> streak == 0
    ensures IsPrefixRun(NewestFirst(stats, time), streak)
  {
    if |stats| == 0 {
      return 0;
    }
    var sorted := NewestFirst(stats, time);
    streak := 0;
    var i := 0;
    while i < |sorted|
      invariant 0 <= i <= |sorted|
      invariant streak == i
      invariant RunAt(sorted, 0, i)
      decreases |sorted| - i
    {
      if sorted[i].completionRate >= 80 {
        streak := streak + 1;
      } else {
        break;
      }
      i := i + 1;
    }
  }

  /** `calculateLongestStreak`: the longest unbroken run of qualifying
      records, oldest first. */
  method LongestStreak(stats: seq<DailyStats>, time: string -> int) returns (maxStreak: nat)
    ensures |stats| == 0 ==> maxStreak == 0
    ensures IsLongestRun(OldestFirst(stats, time), maxStreak)
  {
    var sorted := OldestFirst(stats, time);
    if |stats| == 0 {
      assert RunOfLength(sorted, 0, 0);
      return 0;
    }
    maxStreak := 0;
    var current := 0;
    ghost var start := 0;
    for i := 0 to |sorted|
      invariant 0 <= current <= i
      invariant current <= maxStreak <= i
      invariant RunAt(sorted, i - current, i)
      invariant current == i || !Qualifies(sorted[i - current - 1])
      invariant 0 <= start <= i - maxStreak && RunAt(sorted, start, start + maxStreak)
      invariant forall j, k :: 0 <= j <= k <= i && RunAt(sorted, j, k) ==> k - j <= maxStreak
    {
      if sorted[i].completionRate >= 80 {
        current := current + 1;
        if current > maxStreak {
          maxStreak := current;
          start := i + 1 - maxStreak;
        }
      } else {
        current := 0;
      }
      forall j, k | 0 <= j <= k <= i + 1 && RunAt(sorted, j, k)
        ensures k - j <= maxStreak
      {
        if k == i + 1 && j < k {
          RunEndingAt(sorted, j, i, current);
        }
      }
    }
    assert RunOfLength(sorted, start, maxStreak);
  }

  /** A run ending just after position `i` starts no earlier than the run
      the loop is tracking. */
  lemma RunEndingAt(xs: seq<DailyStats>, j: int, i: int, current: int)
    requires 0 <= j <= i < |xs| && 0 <= current <= i + 1
    requires RunAt(xs, j, i + 1)
    requires current == i + 1 || !Qualifies(xs[i - current])
    ensures i + 1 - j <= current
  {
  }

  /** Neither streak exceeds the number of records. */
  lemma StreaksBounded(stats: seq<DailyStats>, time: string -> int, current: int, longest: int)
    requires IsPrefixRun(NewestFirst(stats, time), current)
    requires IsLongestRun(OldestFirst(stats, time), longest)
    ensures current <= |stats| && longest <= |stats|
  {
  }

  /** The longest streak covers every record exactly when every record
      qualifies. */
  lemma LongestCoversAllIff(stats: seq<DailyStats>, time: string -> int, longest: int)
    requires IsLongestRun(OldestFirst(stats, time), longest)
    ensures longest == |stats| <==> forall i :: 0 <= i < |stats| ==> Qualifies(stats[i])
  {
    var sorted := OldestFirst(stats, time);
    if forall i :: 0 <= i < |stats| ==> Qualifies(stats[i]) {
      forall m | 0 <= m < |sorted|
        ensures Qualifies(sorted[m])
      {
        assert sorted[m] in multiset(stats);
      }
      assert RunAt(sorted, 0, |sorted|);
    }
    if longest == |stats| {
      var j :| RunOfLength(sorted, j, longest);
      forall i | 0 <= i < |stats|
        ensures Qualifies(stats[i])
      {
        assert j == 0;
        assert stats[i] in multiset(sorted);
        var m :| 0 <= m < |sorted| && sorted[m] == stats[i];
        assert Qualifies(sorted[m]);
      }
    }
  }

  /** With pairwise distinct instants the current streak is one of the
      runs the longest streak considers, so it is never longer. */
  lemma CurrentAtMostLongest(stats: seq<DailyStats>, time: string -> int, current: int, longest: int)
    requires DistinctKeys(stats, TimeKey(time))
    requires IsPrefixRun(NewestFirst(stats, time), current)
    requires IsLongestRun(OldestFirst(stats, time), longest)
    ensures current <= longest
  {
    var oldest := OldestFirst(stats, time);
    DescendingIsReversedAscending(stats, TimeKey(time));
    PrefixRunIsSuffixRun(oldest, current);
    assert RunAt(oldest, |oldest| - current, |oldest|);
  }

  /** A qualifying prefix of the reversed sequence is a qualifying suffix
      of the sequence. */
  lemma PrefixRunIsSuffixRun(xs: seq<DailyStats>, n: int)
    requires 0 <= n <= |xs| && RunAt(Reverse(xs), 0, n)
    ensures RunAt(xs, |xs| - n, |xs|)
  {
    var back := Reverse(xs);
    forall m | |xs| - n <= m < |xs|
      ensures Qualifies(xs[m])
    {
      var k := |xs| - 1 - m;
      assert 0 <= k < n;
      assert Qualifies(back[k]);
      assert back[k] == xs[m];
    }
  }
}
