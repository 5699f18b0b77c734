/** Comprehensions over sequences: map, filter, count. */
module Sequences {
  import opened Orders

  function Map<T, U>(f: T -> U, s: seq<T>): (r: seq<U>)
    ensures |r| == |s|
    ensures forall i :: 0 <= i < |s| ==> r[i] == f(s[i])
  {
    if s == [] then [] else [f(s[0])] + Map(f, s[1..])
  }

  function Filter<T(!new)>(p: T -> bool, s: seq<T>): (r: seq<T>)
    ensures |r| <= |s|
    ensures forall x :: x in r <==> x in s && p(x)
  {
    if s == [] then [] else (if p(s[0]) then [s[0]] else []) + Filter(p, s[1..])
  }

  function Count<T>(p: T -> bool, s: seq<T>): (n: nat)
    ensures n <= |s|
  {
    if s == [] then 0 else (if p(s[0]) then 1 else 0) + Count(p, s[1..])
  }

  lemma {:induction false} MapAppend<T, U>(f: T -> U, a: seq<T>, b: seq<T>)
    ensures Map(f, a + b) == Map(f, a) + Map(f, b)
  {
    if a == [] {
      assert a + b == b;
    } else {
      assert (a + b)[1..] == a[1..] + b;
      MapAppend(f, a[1..], b);
    }
  }

  lemma {:induction false} FilterCount<T(!new)>(p: T -> bool, s: seq<T>)
    ensures |Filter(p, s)| == Count(p, s)
  {
    if s == [] {
    } else {
      FilterCount(p, s[1..]);
    }
  }

  /** Counting what is left by a filter is counting with both conditions. */
  lemma {:induction false} CountFilter<T(!new)>(p: T -> bool, keep: T -> bool, both: T -> bool, s: seq<T>)
    requires forall x :: both(x) <==> keep(x) && p(x)
    ensures Count(p, Filter(keep, s)) == Count(both, s)
  {
    if s == [] {
    } else {
      CountFilter(p, keep, both, s[1..]);
      CountAppend(p, if keep(s[0]) then [s[0]] else [], Filter(keep, s[1..]));
    }
  }

  lemma {:induction false} FilterTwice<T(!new)>(p: T -> bool, keep: T -> bool, both: T -> bool, s: seq<T>)
    requires forall x :: both(x) <==> keep(x) && p(x)
    ensures Filter(p, Filter(keep, s)) == Filter(both, s)
  {
    if s == [] {
    } else {
      FilterTwice(p, keep, both, s[1..]);
      var rest := Filter(keep, s[1..]);
      assert keep(s[0]) ==> ([s[0]] + rest)[1..] == rest;
      assert [] + rest == rest;
    }
  }

  lemma {:induction false} CountAppend<T>(p: T -> bool, a: seq<T>, b: seq<T>)
    ensures Count(p, a + b) == Count(p, a) + Count(p, b)
  {
    if a == [] {
      assert a + b == b;
    } else {
      assert (a + b)[1..] == a[1..] + b;
      CountAppend(p, a[1..], b);
    }
  }

  lemma {:induction false} CountNone<T>(p: T -> bool, s: seq<T>)
    requires forall x :: x in s ==> !p(x)
    ensures Count(p, s) == 0
  {
    if s == [] {
    } else {
      CountNone(p, s[1..]);
    }
  }

  lemma {:induction false} CountAll<T>(p: T -> bool, s: seq<T>)
    requires forall x :: x in s ==> p(x)
    ensures Count(p, s) == |s|
  {
    if s == [] {
    } else {
      CountAll(p, s[1..]);
    }
  }

  /** Predicates that split a third one count up to it. */
  lemma {:induction false} CountSplit<T>(p: T -> bool, q: T -> bool, r: T -> bool, s: seq<T>)
    requires forall x :: x in s ==> (p(x) <==> q(x) || r(x)) && !(q(x) && r(x))
    ensures Count(p, s) == Count(q, s) + Count(r, s)
  {
    if s == [] {
    } else {
      CountSplit(p, q, r, s[1..]);
    }
  }

  /** Counting a mapped sequence is counting the original one through the map. */
  lemma {:induction false} CountMap<T, U>(p: U -> bool, f: T -> U, q: T -> bool, s: seq<T>)
    requires forall x :: x in s ==> (p(f(x)) <==> q(x))
    ensures Count(p, Map(f, s)) == Count(q, s)
  {
    if s == [] {
    } else {
      CountMap(p, f, q, s[1..]);
      assert Map(f, s)[1..] == Map(f, s[1..]);
    }
  }

  lemma {:induction false} CountSame<T>(p: T -> bool, q: T -> bool, s: seq<T>)
    requires forall x :: x in s ==> (p(x) <==> q(x))
    ensures Count(p, s) == Count(q, s)
  {
    if s == [] {
    } else {
      CountSame(p, q, s[1..]);
    }
  }

  // ---- Counting records by their keys ----

  function Select<K(==)>(keys: set<K>, q: K -> bool): set<K> {
    set k | k in keys && q(k)
  }

  lemma SelectCons<K>(keys: seq<K>, q: K -> bool)
    requires keys != [] && Distinct(keys)
    ensures |Select(Elements(keys), q)| == (if q(keys[0]) then 1 else 0) + |Select(Elements(keys[1..]), q)|
  {
    var rest := Select(Elements(keys[1..]), q);
    assert keys[0] !in keys[1..];
    assert forall k :: k in keys <==> k == keys[0] || k in keys[1..];
    assert Select(Elements(keys), q) == (if q(keys[0]) then {keys[0]} else {}) + rest;
  }

  lemma {:induction false} CountIndexed<X, K>(p: X -> bool, q: K -> bool, xs: seq<X>, keys: seq<K>)
    requires |xs| == |keys| && Distinct(keys)
    requires forall i :: 0 <= i < |xs| ==> (p(xs[i]) <==> q(keys[i]))
    ensures Count(p, xs) == |Select(Elements(keys), q)|
  {
    if xs == [] {
    } else {
      CountIndexed(p, q, xs[1..], keys[1..]);
      SelectCons(keys, q);
    }
  }

  // ---- Comprehensions over rearranged sequences ----

  lemma {:induction false} MapPermutation<T, U>(f: T -> U, a: seq<T>, b: seq<T>)
    requires multiset(a) == multiset(b)
    ensures multiset(Map(f, a)) == multiset(Map(f, b))
  {
    if a == [] {
      assert |multiset(b)| == 0;
    } else {
      var p, q := FindHead(a, b);
      MapPermutation(f, a[1..], p + q);
      MapAround(f, p, a[0], q);
    }
  }

  lemma {:induction false} MapAround<T, U>(f: T -> U, p: seq<T>, x: T, q: seq<T>)
    ensures multiset(Map(f, p + [x] + q)) == multiset(Map(f, p + q)) + multiset{f(x)}
  {
    MapAppend(f, p + [x], q);
    MapAppend(f, p, [x]);
    MapAppend(f, p, q);
    MapOne(f, x);
    MultisetAround(Map(f, p), f(x), Map(f, q));
  }

  lemma MapOne<T, U>(f: T -> U, x: T)
    ensures Map(f, [x]) == [f(x)]
  {
  }

  lemma {:induction false} FilterAppend<T(!new)>(p: T -> bool, a: seq<T>, b: seq<T>)
    ensures Filter(p, a + b) == Filter(p, a) + Filter(p, b)
  {
    if a == [] {
      assert a + b == b;
    } else {
      assert (a + b)[1..] == a[1..] + b;
      FilterAppend(p, a[1..], b);
    }
  }

  lemma {:induction false} FilterPermutation<T(!new)>(p: T -> bool, a: seq<T>, b: seq<T>)
    requires multiset(a) == multiset(b)
    ensures multiset(Filter(p, a)) == multiset(Filter(p, b))
  {
    if a == [] {
      assert |multiset(b)| == 0;
    } else {
      var before, after := FindHead(a, b);
      FilterPermutation(p, a[1..], before + after);
      FilterAround(p, before, a[0], after);
    }
  }

  lemma FilterOne<T(!new)>(p: T -> bool, x: T)
    ensures Filter(p, [x]) == if p(x) then [x] else []
  {
  }

  lemma {:induction false} FilterAround<T(!new)>(p: T -> bool, before: seq<T>, x: T, after: seq<T>)
    ensures multiset(Filter(p, before + [x] + after)) ==
            multiset(Filter(p, before + after)) + (if p(x) then multiset{x} else multiset{})
  {
    FilterAppend(p, before + [x], after);
    FilterAppend(p, before, [x]);
    FilterAppend(p, before, after);
    FilterOne(p, x);
    if p(x) {
      MultisetAround(Filter(p, before), x, Filter(p, after));
    } else {
      assert Filter(p, before) + [] == Filter(p, before);
    }
  }
}
