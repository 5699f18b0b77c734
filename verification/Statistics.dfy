/** Medians over evidence (analytics/common.py). */
module Statistics {
  import opened Text
  import opened Orders
  import opened Sequences

  const MINIMUM_SAMPLE_COUNT := 3

  datatype MedianMetric = MedianMetric(value: Option<real>, usableCount: nat)

  /** The middle of an ascending sample, or the mean of its two middles. */
  function Middle(r: seq<real>): real
    requires r != []
  {
    var n := |r| / 2;
    if |r| % 2 == 1 then r[n] else (r[n - 1] + r[n]) / 2.0
  }

  /** statistics.median */
  function Median(s: seq<real>): real
    requires s != []
  {
    Middle(SortReals(s))
  }

  function MedianOf(values: seq<real>, minimum: int): MedianMetric
    requires minimum >= 1
  {
    if |values| < minimum then MedianMetric(None, |values|) else MedianMetric(Some(Median(values)), |values|)
  }

  lemma MedianPermutation(a: seq<real>, b: seq<real>, minimum: int)
    requires multiset(a) == multiset(b) && minimum >= 1
    ensures MedianOf(a, minimum) == MedianOf(b, minimum)
  {
    SortRealsPermutation(a, b);
    assert |SortReals(a)| == |a| && |SortReals(b)| == |b|;
  }

  lemma {:induction false} CountInsert(p: real -> bool, x: real, s: seq<real>)
    ensures Count(p, Insert(RealLe, x, s)) == (if p(x) then 1 else 0) + Count(p, s)
  {
    if s == [] || RealLe(x, s[0]) {
      assert ([x] + s)[1..] == s;
    } else {
      CountInsert(p, x, s[1..]);
      assert ([s[0]] + Insert(RealLe, x, s[1..]))[1..] == Insert(RealLe, x, s[1..]);
    }
  }

  lemma {:induction false} CountSort(p: real -> bool, s: seq<real>)
    ensures Count(p, SortReals(s)) == Count(p, s)
  {
    if s == [] {
    } else {
      CountSort(p, s[1..]);
      CountInsert(p, s[0], Sort(RealLe, s[1..]));
    }
  }

  /** A prefix all of which satisfies `p` bounds the count from below; a suffix none of which does, from above. */
  lemma {:induction false} CountPrefix(p: real -> bool, r: seq<real>, n: nat)
    requires n <= |r|
    ensures (forall i :: 0 <= i < n ==> p(r[i])) ==> Count(p, r) >= n
    ensures (forall i :: n <= i < |r| ==> !p(r[i])) ==> Count(p, r) <= n
    ensures (forall i :: 0 <= i < n ==> !p(r[i])) ==> Count(p, r) <= |r| - n
    ensures (forall i :: n <= i < |r| ==> p(r[i])) ==> Count(p, r) >= |r| - n
  {
    assert r == r[..n] + r[n..];
    CountAppend(p, r[..n], r[n..]);
    if forall i :: 0 <= i < n ==> p(r[i]) {
      CountAll(p, r[..n]);
    }
    if forall i :: 0 <= i < n ==> !p(r[i]) {
      CountNone(p, r[..n]);
    }
    if forall i :: n <= i < |r| ==> p(r[i]) {
      CountAll(p, r[n..]);
    }
    if forall i :: n <= i < |r| ==> !p(r[i]) {
      CountNone(p, r[n..]);
    }
  }

  lemma MiddlePlace(r: seq<real>)
    requires r != [] && Ascending(r)
    ensures Middle(r) <= r[|r| / 2]
    ensures var k := if |r| % 2 == 1 then |r| / 2 else |r| / 2 - 1; r[k] <= Middle(r)
  {
  }

  lemma {:induction false} MiddleHalves(r: seq<real>, m: real, below: real -> bool, above: real -> bool)
    requires r != [] && Ascending(r) && m == Middle(r)
    requires forall x :: below(x) <==> x <= m
    requires forall x :: above(x) <==> x >= m
    ensures 2 * Count(below, r) >= |r| && 2 * Count(above, r) >= |r|
  {
    MiddlePlace(r);
    var n := |r| / 2;
    var k := if |r| % 2 == 1 then n else n - 1;
    assert forall i :: 0 <= i < k + 1 ==> below(r[i]) by { assert forall i :: 0 <= i < k ==> r[i] <= r[k]; }
    assert forall i :: n <= i < |r| ==> above(r[i]) by { assert forall i :: n < i < |r| ==> r[n] <= r[i]; }
    assert Count(below, r) >= k + 1 by { CountPrefix(below, r, k + 1); }
    assert Count(above, r) >= |r| - n by { CountPrefix(above, r, n); }
  }

  /** At least half the sample lies on each side of its median, the median's own value included. */
  lemma {:induction false} MedianHalves(s: seq<real>)
    requires s != []
    ensures 2 * Count((x: real) => x <= Median(s), s) >= |s|
    ensures 2 * Count((x: real) => x >= Median(s), s) >= |s|
  {
    SortRealsAscending(s);
    var below, above := (x: real) => x <= Median(s), (x: real) => x >= Median(s);
    MiddleHalves(SortReals(s), Median(s), below, above);
    CountSort(below, s);
    CountSort(above, s);
  }

  /** `v` is the middle of the values in ascending order, or halfway between the two middle ones. */
  ghost predicate IsMedian(v: real, values: seq<real>) {
    values != []
    && exists r :: Ascending(r) && multiset(r) == multiset(values) && 2.0 * v == r[(|r| - 1) / 2] + r[|r| / 2]
  }

  lemma AscendingUnique(a: seq<real>, b: seq<real>)
    requires Ascending(a) && Ascending(b) && multiset(a) == multiset(b)
    ensures a == b
  {
    SortedUnique(RealLe, a, b);
  }

  lemma MiddleTwice(r: seq<real>)
    requires r != []
    ensures 2.0 * Middle(r) == r[(|r| - 1) / 2] + r[|r| / 2]
  {
  }

  /** The computed median is the median, and the only one. */
  lemma {:induction false} MedianExactly(values: seq<real>, v: real)
    requires values != []
    ensures Median(values) == v <==> IsMedian(v, values)
  {
    var s := SortReals(values);
    SortRealsAscending(values);
    MiddleTwice(s);
    assert |multiset(s)| == |s| == |values|;
    forall r | Ascending(r) && multiset(r) == multiset(values) ensures r == s {
      AscendingUnique(r, s);
    }
  }

  /** A metric reports the median of `f` over the records of `xs` that carry it: present from `minimum`
      usable records on, exactly the median, with at least half of the records on each side. */
  ghost predicate MedianFor<T(!new)>(metric: MedianMetric, minimum: int, xs: seq<T>, keep: T -> bool, f: T -> real) {
    && metric.usableCount == Count(keep, xs)
    && (metric.value.Some? <==> metric.usableCount >= minimum)
    && (metric.value.Some? ==>
          && IsMedian(metric.value.value, Map(f, Filter(keep, xs)))
          && 2 * Count(x => keep(x) && f(x) <= metric.value.value, xs) >= metric.usableCount
          && 2 * Count(x => keep(x) && f(x) >= metric.value.value, xs) >= metric.usableCount)
  }

  lemma {:induction false} MedianOfKept<T(!new)>(minimum: int, xs: seq<T>, keep: T -> bool, f: T -> real)
    requires minimum >= 1
    ensures MedianFor(MedianOf(Map(f, Filter(keep, xs)), minimum), minimum, xs, keep, f)
  {
    var kept := Filter(keep, xs);
    var values := Map(f, kept);
    FilterCount(keep, xs);
    if |values| >= minimum {
      var v := Median(values);
      MedianExactly(values, v);
      MedianHalves(values);
      CountMap((y: real) => y <= v, f, x => f(x) <= v, kept);
      CountMap((y: real) => y >= v, f, x => f(x) >= v, kept);
      CountFilter(x => f(x) <= v, keep, x => keep(x) && f(x) <= v, xs);
      CountFilter(x => f(x) >= v, keep, x => keep(x) && f(x) >= v, xs);
    }
  }

  lemma {:induction false} HalvesOf<T(!new)>(metric: MedianMetric, minimum: int, xs: seq<T>, keep: T -> bool,
                                           f: T -> real, below: T -> bool, above: T -> bool)
    requires MedianFor(metric, minimum, xs, keep, f) && metric.value.Some?
    requires forall x :: below(x) <==> keep(x) && f(x) <= metric.value.value
    requires forall x :: above(x) <==> keep(x) && f(x) >= metric.value.value
    ensures 2 * Count(below, xs) >= metric.usableCount && 2 * Count(above, xs) >= metric.usableCount
  {
    CountSame(below, x => keep(x) && f(x) <= metric.value.value, xs);
    CountSame(above, x => keep(x) && f(x) >= metric.value.value, xs);
  }

  lemma {:induction false} SameKept<T(!new)>(xs: seq<T>, keep: T -> bool, f: T -> real, keep': T -> bool, f': T -> real)
    requires forall x :: x in xs ==> (keep(x) <==> keep'(x)) && (keep(x) ==> f(x) == f'(x))
    ensures Map(f, Filter(keep, xs)) == Map(f', Filter(keep', xs))
  {
    if xs == [] {
    } else {
      SameKept(xs[1..], keep, f, keep', f');
      var rest, rest' := Filter(keep, xs[1..]), Filter(keep', xs[1..]);
      assert [] + rest == rest && [] + rest' == rest';
      assert ([xs[0]] + rest)[1..] == rest && ([xs[0]] + rest')[1..] == rest';
    }
  }

  /** The same, for a field read in another way. */
  lemma {:induction false} MedianOfField<T(!new)>(minimum: int, xs: seq<T>, keep: T -> bool, f: T -> real,
                                                keep': T -> bool, f': T -> real)
    requires minimum >= 1
    requires forall x :: x in xs ==> (keep(x) <==> keep'(x)) && (keep(x) ==> f(x) == f'(x))
    ensures MedianFor(MedianOf(Map(f, Filter(keep, xs)), minimum), minimum, xs, keep', f')
  {
    SameKept(xs, keep, f, keep', f');
    MedianOfKept(minimum, xs, keep', f');
  }

  lemma MiddleMembers(s: seq<real>) returns (a: real, b: real)
    requires s != []
    ensures a in s && b in s && Median(s) == (a + b) / 2.0
  {
    var r := SortReals(s);
    var n := |r| / 2;
    a, b := if |r| % 2 == 1 then r[n] else r[n - 1], r[n];
    SortRealsMembers(s, a);
    SortRealsMembers(s, b);
  }

  /** The median lies between any bounds of the sample, strictly above a strict lower bound. */
  lemma MedianBetween(s: seq<real>, lo: real, hi: real)
    requires s != [] && forall x :: x in s ==> lo <= x <= hi
    ensures lo <= Median(s) <= hi
  {
    var a, b := MiddleMembers(s);
  }

  lemma MedianAbove(s: seq<real>, lo: real)
    requires s != [] && forall x :: x in s ==> lo < x
    ensures lo < Median(s)
  {
    var a, b := MiddleMembers(s);
  }

  lemma MedianBelow(s: seq<real>, hi: real)
    requires s != [] && forall x :: x in s ==> x < hi
    ensures Median(s) < hi
  {
    var a, b := MiddleMembers(s);
  }

  lemma {:induction false} CountBelow(r: seq<real>, below: real -> bool, x: real, n: nat)
    requires n < |r| && Ascending(r) && forall v :: below(v) <==> v < x
    ensures r[n] >= x ==> Count(below, r) <= n
  {
    CountPrefix(below, r, n);
    assert forall i :: n < i < |r| ==> r[n] <= r[i];
  }

  lemma {:induction false} CountAbove(r: seq<real>, above: real -> bool, x: real, k: nat)
    requires k < |r| && Ascending(r) && forall v :: above(v) <==> v > x
    ensures r[k] <= x ==> Count(above, r) <= |r| - (k + 1)
  {
    CountPrefix(above, r, k + 1);
    assert forall i :: 0 <= i < k ==> r[i] <= r[k];
  }

  lemma {:induction false} MiddleBelow(r: seq<real>, below: real -> bool, x: real)
    requires r != [] && Ascending(r) && forall v :: below(v) <==> v < x
    requires 2 * Count(below, r) > |r|
    ensures Middle(r) < x
  {
    var n := |r| / 2;
    CountBelow(r, below, x, n);
  }

  /** A strict majority below a value pulls the median below it. */
  lemma {:induction false} MajorityBelow(s: seq<real>, x: real)
    requires s != [] && 2 * Count((v: real) => v < x, s) > |s|
    ensures Median(s) < x
  {
    SortRealsAscending(s);
    CountSort((v: real) => v < x, s);
    MiddleBelow(SortReals(s), (v: real) => v < x, x);
  }

  lemma {:induction false} MiddleAbove(r: seq<real>, above: real -> bool, x: real)
    requires r != [] && Ascending(r) && forall v :: above(v) <==> v > x
    requires 2 * Count(above, r) > |r|
    ensures Middle(r) > x
  {
    var k := if |r| % 2 == 1 then |r| / 2 else |r| / 2 - 1;
    CountAbove(r, above, x, k);
  }

  lemma {:induction false} MajorityAbove(s: seq<real>, x: real)
    requires s != [] && 2 * Count((v: real) => v > x, s) > |s|
    ensures Median(s) > x
  {
    SortRealsAscending(s);
    CountSort((v: real) => v > x, s);
    MiddleAbove(SortReals(s), (v: real) => v > x, x);
  }
}
