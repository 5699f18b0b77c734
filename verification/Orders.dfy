/** Orders and ordered enumerations: what `sorted(...)` and ORDER BY mean here. */
module Orders {

  ghost predicate TotalPreorder<T(!new)>(le: (T, T) -> bool) {
    && (forall a, b :: le(a, b) || le(b, a))
    && (forall a, b, c :: le(a, b) && le(b, c) ==> le(a, c))
  }

  ghost predicate TotalOrder<T(!new)>(le: (T, T) -> bool) {
    && TotalPreorder(le)
    && (forall a, b :: le(a, b) && le(b, a) ==> a == b)
  }

  ghost predicate Sorted<T>(le: (T, T) -> bool, s: seq<T>) {
    forall i, j :: 0 <= i < j < |s| ==> le(s[i], s[j])
  }

  predicate Distinct<T(==)>(s: seq<T>) {
    forall i, j :: 0 <= i < j < |s| ==> s[i] != s[j]
  }

  function Elements<T>(s: seq<T>): set<T> {
    set x | x in s
  }

  // ---- The orders the system sorts by ----

  predicate IntLe(a: int, b: int) { a <= b }

  predicate RealLe(a: real, b: real) { a <= b }

  /** Code-point order on text: Python's `<` on str, and the storage's byte order. */
  predicate StrLe(a: string, b: string) {
    a == "" || (b != "" && (a[0] < b[0] || (a[0] == b[0] && StrLe(a[1..], b[1..]))))
  }

  predicate StrIntLe(a: (string, int), b: (string, int)) {
    if a.0 == b.0 then a.1 <= b.1 else StrLe(a.0, b.0)
  }

  predicate IntStrLe(a: (int, string), b: (int, string)) {
    if a.0 == b.0 then StrLe(a.1, b.1) else a.0 <= b.0
  }

  lemma {:induction false} StrLeTotal(a: string, b: string)
    ensures StrLe(a, b) || StrLe(b, a)
  {
    if a == "" || b == "" {
    } else {
      StrLeTotal(a[1..], b[1..]);
    }
  }

  lemma {:induction false} StrLeAntisymmetric(a: string, b: string)
    requires StrLe(a, b) && StrLe(b, a)
    ensures a == b
  {
    if a == "" {
    } else {
      StrLeAntisymmetric(a[1..], b[1..]);
      assert a == [a[0]] + a[1..] && b == [b[0]] + b[1..];
    }
  }

  lemma {:induction false} StrLeTransitive(a: string, b: string, c: string)
    requires StrLe(a, b) && StrLe(b, c)
    ensures StrLe(a, c)
  {
    if a == "" || a[0] != b[0] || b[0] != c[0] {
    } else {
      StrLeTransitive(a[1..], b[1..], c[1..]);
    }
  }

  /** `a` and `b` agree on `n` characters, where `a` ends or has the smaller character. */
  predicate DecidedAt(a: string, b: string, n: nat) {
    n <= |a| && n <= |b| && a[..n] == b[..n] && (n == |a| || (n < |b| && a[n] < b[n]))
  }

  lemma DecidedLater(a: string, b: string, n: nat)
    requires a != "" && b != "" && a[0] == b[0]
    ensures DecidedAt(a[1..], b[1..], n) <==> DecidedAt(a, b, n + 1)
    ensures !DecidedAt(a, b, 0)
  {
    if n + 1 <= |a| && n + 1 <= |b| {
      assert a[..n + 1] == [a[0]] + a[1..][..n] && b[..n + 1] == [b[0]] + b[1..][..n];
      assert a[1..][..n] == a[..n + 1][1..] && b[1..][..n] == b[..n + 1][1..];
    }
  }

  lemma {:induction false} DecidedAtOnce(a: string, b: string, n: nat)
    requires a == "" || b == "" || a[0] != b[0]
    ensures DecidedAt(a, b, n) ==> n == 0
    ensures DecidedAt(a, b, 0) <==> StrLe(a, b)
  {
    assert n > 0 && n <= |a| && n <= |b| ==> a[..n][0] == a[0] && b[..n][0] == b[0];
    assert a[..0] == b[..0];
  }

  /** Text order: a prefix comes first, otherwise the first difference decides. */
  lemma {:induction false} StrLeExactly(a: string, b: string)
    ensures StrLe(a, b) <==> exists n: nat :: DecidedAt(a, b, n)
  {
    if a == "" || b == "" || a[0] != b[0] {
      DecidedAtOnce(a, b, 0);
      forall n: nat ensures DecidedAt(a, b, n) ==> n == 0 {
        DecidedAtOnce(a, b, n);
      }
    } else {
      StrLeExactly(a[1..], b[1..]);
      if StrLe(a, b) {
        var n: nat :| DecidedAt(a[1..], b[1..], n);
        DecidedLater(a, b, n);
      }
      if exists n: nat :: DecidedAt(a, b, n) {
        var n: nat :| DecidedAt(a, b, n);
        DecidedLater(a, b, 0);
        DecidedLater(a, b, n - 1);
      }
    }
  }

  lemma OrdersAreTotal()
    ensures TotalOrder(StrLe) && TotalOrder(StrIntLe) && TotalOrder(IntStrLe)
    ensures TotalOrder(IntLe) && TotalOrder(RealLe)
  {
    forall a, b ensures StrLe(a, b) || StrLe(b, a) { StrLeTotal(a, b); }
    forall a, b | StrLe(a, b) && StrLe(b, a) ensures a == b { StrLeAntisymmetric(a, b); }
    forall a, b, c | StrLe(a, b) && StrLe(b, c) ensures StrLe(a, c) { StrLeTransitive(a, b, c); }
  }

  // ---- Sorting a sequence (stable insertion) ----

  function Insert<T>(le: (T, T) -> bool, x: T, s: seq<T>): (r: seq<T>)
    ensures multiset(r) == multiset(s) + multiset{x}
    ensures |r| == |s| + 1
  {
    if s == [] then [x]
    else if le(x, s[0]) then [x] + s
    else
      assert s == [s[0]] + s[1..];
      [s[0]] + Insert(le, x, s[1..])
  }

  function Sort<T>(le: (T, T) -> bool, s: seq<T>): (r: seq<T>)
    ensures multiset(r) == multiset(s)
    ensures |r| == |s|
  {
    if s == [] then []
    else
      assert s == [s[0]] + s[1..];
      Insert(le, s[0], Sort(le, s[1..]))
  }

  lemma {:induction false} InsertSorted<T(!new)>(le: (T, T) -> bool, x: T, s: seq<T>)
    requires TotalPreorder(le) && Sorted(le, s)
    ensures Sorted(le, Insert(le, x, s))
  {
    if s == [] || le(x, s[0]) {
    } else {
      InsertSorted(le, x, s[1..]);
      var r := Insert(le, x, s[1..]);
      forall k | 0 <= k < |r| ensures le(s[0], r[k]) {
        assert r[k] in multiset(r);
        assert r[k] == x || r[k] in s[1..];
      }
    }
  }

  lemma {:induction false} SortSorted<T(!new)>(le: (T, T) -> bool, s: seq<T>)
    requires TotalPreorder(le)
    ensures Sorted(le, Sort(le, s))
  {
    if s == [] {
    } else {
      SortSorted(le, s[1..]);
      InsertSorted(le, s[0], Sort(le, s[1..]));
    }
  }

  /** `le` tells the elements of `s` apart: no two different ones tie. */
  ghost predicate NoTies<T>(le: (T, T) -> bool, s: seq<T>) {
    forall x, y :: x in s && y in s && le(x, y) && le(y, x) ==> x == y
  }

  lemma SortedHead<T>(le: (T, T) -> bool, s: seq<T>, x: T)
    requires Sorted(le, s) && x in s
    ensures x == s[0] || le(s[0], x)
  {
  }

  lemma TailMultiset<T>(s: seq<T>)
    requires s != []
    ensures multiset(s[1..]) == multiset(s) - multiset{s[0]}
  {
    assert s == [s[0]] + s[1..];
  }

  lemma SameHead<T>(le: (T, T) -> bool, a: seq<T>, b: seq<T>)
    requires Sorted(le, a) && Sorted(le, b) && NoTies(le, a)
    requires multiset(a) == multiset(b) && a != []
    ensures b != [] && a[0] == b[0]
  {
    assert a[0] in multiset(b);
    assert b[0] in multiset(a);
    SortedHead(le, a, b[0]);
    SortedHead(le, b, a[0]);
  }

  /** A sorted arrangement is determined by its elements alone. */
  lemma {:induction false} SortedUnique<T>(le: (T, T) -> bool, a: seq<T>, b: seq<T>)
    requires Sorted(le, a) && Sorted(le, b) && NoTies(le, a)
    requires multiset(a) == multiset(b)
    ensures a == b
  {
    if a == [] {
      assert |multiset(b)| == 0;
    } else {
      SameHead(le, a, b);
      assert multiset(a[1..]) == multiset(b[1..]) by {
        TailMultiset(a);
        TailMultiset(b);
      }
      SortedUnique(le, a[1..], b[1..]);
      assert a == [a[0]] + a[1..] && b == [b[0]] + b[1..];
    }
  }

  /** Sorting forgets the order its input came in. */
  lemma {:induction false} SortPermutation<T(!new)>(le: (T, T) -> bool, a: seq<T>, b: seq<T>)
    requires TotalOrder(le)
    requires multiset(a) == multiset(b)
    ensures Sort(le, a) == Sort(le, b)
  {
    SortSorted(le, a);
    SortSorted(le, b);
    SortedUnique(le, Sort(le, a), Sort(le, b));
  }

  // ---- Sorting numbers ----

  function SortReals(s: seq<real>): (r: seq<real>)
    ensures multiset(r) == multiset(s) && |r| == |s|
  {
    Sort(RealLe, s)
  }

  predicate Ascending(r: seq<real>) {
    forall i, j :: 0 <= i < j < |r| ==> r[i] <= r[j]
  }

  lemma RealLeTotal()
    ensures TotalOrder(RealLe)
  {
  }

  lemma SortRealsAscending(s: seq<real>)
    ensures Ascending(SortReals(s))
  {
    RealLeTotal();
    SortSorted(RealLe, s);
    var r := SortReals(s);
    assert forall i, j :: 0 <= i < j < |r| ==> RealLe(r[i], r[j]);
  }

  lemma SortRealsPermutation(a: seq<real>, b: seq<real>)
    requires multiset(a) == multiset(b)
    ensures SortReals(a) == SortReals(b)
  {
    RealLeTotal();
    SortPermutation(RealLe, a, b);
  }

  lemma SortRealsMembers(s: seq<real>, x: real)
    ensures x in SortReals(s) <==> x in s
  {
    assert x in s <==> x in multiset(s);
    assert x in SortReals(s) <==> x in multiset(SortReals(s));
  }

  // ---- Enumerating a finite set of keys in order ----

  lemma {:induction false} LeastExists<T(!new)>(le: (T, T) -> bool, s: set<T>) returns (m: T)
    requires TotalPreorder(le) && s != {}
    ensures m in s && forall x :: x in s ==> le(m, x)
  {
    m :| m in s;
    var rest := s - {m};
    if rest == {} {
      assert s == rest + {m} && le(m, m);
    } else {
      var y := LeastExists(le, rest);
      var z := m;
      m := if le(y, z) then y else z;
      assert le(m, z) && le(m, y);
      forall x | x in s ensures le(m, x) {
        assert x == z || (x in rest && le(y, x));
      }
    }
  }

  function Least<T(!new, ==)>(le: (T, T) -> bool, s: set<T>): (m: T)
    requires TotalOrder(le) && s != {}
    ensures m in s && forall x :: x in s ==> le(m, x)
  {
    assert exists m :: m in s && forall x :: x in s ==> le(m, x) by { var _ := LeastExists(le, s); }
    var m :| m in s && forall x :: x in s ==> le(m, x);
    m
  }

  /** The elements of `s`, each once, in ascending order. */
  function Enumerate<T(!new, ==)>(le: (T, T) -> bool, s: set<T>): (r: seq<T>)
    requires TotalOrder(le)
    ensures Sorted(le, r) && Distinct(r)
    ensures Elements(r) == s && |r| == |s|
    decreases |s|
  {
    if s == {} then []
    else
      var m := Least(le, s);
      var rest := Enumerate(le, s - {m});
      PrependLeast(le, m, rest, s);
      [m] + rest
  }

  lemma PrependLeast<T>(le: (T, T) -> bool, m: T, rest: seq<T>, s: set<T>)
    requires m in s && forall x :: x in s ==> le(m, x)
    requires Sorted(le, rest) && Distinct(rest)
    requires Elements(rest) == s - {m} && |rest| == |s| - 1
    ensures Sorted(le, [m] + rest) && Distinct([m] + rest)
    ensures Elements([m] + rest) == s && |[m] + rest| == |s|
  {
    assert forall k :: 0 <= k < |rest| ==> rest[k] in Elements(rest);
    assert Elements([m] + rest) == {m} + Elements(rest);
  }

  /** Any duplicate-free ascending arrangement of a set is its enumeration. */
  lemma {:induction false} EnumerateUnique<T(!new)>(le: (T, T) -> bool, s: set<T>, r: seq<T>)
    requires TotalOrder(le)
    requires Sorted(le, r) && Distinct(r) && Elements(r) == s
    ensures r == Enumerate(le, s)
  {
    var e := Enumerate(le, s);
    DistinctMultiset(r);
    DistinctMultiset(e);
    SortedUnique(le, r, e);
  }

  lemma {:induction false} DistinctMultiset<T>(s: seq<T>)
    requires Distinct(s)
    ensures multiset(s) == multiset(Elements(s))
  {
    if s == [] {
    } else {
      DistinctMultiset(s[1..]);
      assert s == [s[0]] + s[1..];
      assert Elements(s) == Elements(s[1..]) + {s[0]};
      assert s[0] !in s[1..];
    }
  }

  // ---- The enumerations the system uses ----

  function SortedIds(s: set<string>): (r: seq<string>)
    ensures Sorted(StrLe, r) && Distinct(r) && Elements(r) == s && |r| == |s|
  {
    OrdersAreTotal();
    Enumerate(StrLe, s)
  }

  function SortedInts(s: set<int>): (r: seq<int>)
    ensures Sorted(IntLe, r) && Distinct(r) && Elements(r) == s && |r| == |s|
  {
    OrdersAreTotal();
    Enumerate(IntLe, s)
  }

  function SortedKeys(s: set<(string, int)>): (r: seq<(string, int)>)
    ensures Sorted(StrIntLe, r) && Distinct(r) && Elements(r) == s && |r| == |s|
  {
    OrdersAreTotal();
    Enumerate(StrIntLe, s)
  }

  function SortedRecency(s: set<(int, string)>): (r: seq<(int, string)>)
    ensures Sorted(IntStrLe, r) && Distinct(r) && Elements(r) == s && |r| == |s|
  {
    OrdersAreTotal();
    Enumerate(IntStrLe, s)
  }

  /** The identifiers of recency keys, in their order. */
  function Ids(recency: seq<(int, string)>): (r: seq<string>)
    ensures |r| == |recency|
    ensures forall i :: 0 <= i < |r| ==> r[i] == recency[i].1
  {
    seq(|recency|, i requires 0 <= i < |recency| => recency[i].1)
  }

  /** The rows of a keyed table, in the order of the given keys. */
  function Rows<K, V>(table: map<K, V>, keys: seq<K>): (r: seq<V>)
    requires forall k :: k in keys ==> k in table
    ensures |r| == |keys|
    ensures forall i :: 0 <= i < |keys| ==> r[i] == table[keys[i]]
  {
    if keys == [] then [] else [table[keys[0]]] + Rows(table, keys[1..])
  }

  lemma {:induction false} DistinctCardinality<T>(s: seq<T>)
    requires Distinct(s)
    ensures |Elements(s)| == |s|
  {
    if s == [] {
    } else {
      DistinctCardinality(s[1..]);
      assert s == [s[0]] + s[1..];
      assert Elements(s) == Elements(s[1..]) + {s[0]};
      assert s[0] !in s[1..];
    }
  }

  lemma ElementsAre<T(!new)>(s: seq<T>, xs: set<T>)
    requires forall x :: x in s <==> x in xs
    ensures Elements(s) == xs
  {
  }

  lemma SameMembers<T(!new)>(a: seq<T>, b: seq<T>)
    requires multiset(a) == multiset(b)
    ensures forall x :: x in a <==> x in b
  {
    assert forall x :: x in a <==> x in multiset(a);
    assert forall x :: x in b <==> x in multiset(b);
  }

  lemma MultisetAround<T>(p: seq<T>, x: T, q: seq<T>)
    ensures multiset(p + [x] + q) == multiset(p + q) + multiset{x}
  {
  }

  lemma PrefixGrows<T>(s: seq<T>, i: nat)
    requires i < |s|
    ensures multiset(s[..i + 1]) == multiset(s[..i]) + multiset{s[i]}
  {
    assert s[..i + 1] == s[..i] + [s[i]];
  }

  lemma CountedTwice<T>(s: seq<T>, i: nat, j: nat)
    requires i < j < |s| && s[i] == s[j]
    ensures multiset(s)[s[i]] >= 2
  {
    var p, q := s[..j], s[j + 1..];
    assert s == p + [s[j]] + q;
    assert p[i] in multiset(p + q);
    MultisetAround(p, s[j], q);
  }

  lemma DistinctPermutation<T>(a: seq<T>, b: seq<T>)
    requires multiset(a) == multiset(b) && Distinct(b)
    ensures Distinct(a)
  {
    DistinctMultiset(b);
    forall i, j | 0 <= i < j < |a| ensures a[i] != a[j] {
      if a[i] == a[j] {
        CountedTwice(a, i, j);
      }
    }
  }

  lemma SplitAround<T>(s: seq<T>, i: nat)
    requires i < |s|
    ensures s == s[..i] + [s[i]] + s[i + 1..]
    ensures multiset(s[..i] + s[i + 1..]) == multiset(s) - multiset{s[i]}
  {
    assert s == s[..i] + [s[i]] + s[i + 1..];
    MultisetAround(s[..i], s[i], s[i + 1..]);
  }

  /** A rearrangement holds the head of the original somewhere, and the tail around it. */
  lemma FindHead<T>(a: seq<T>, b: seq<T>) returns (p: seq<T>, q: seq<T>)
    requires multiset(a) == multiset(b) && a != []
    ensures b == p + [a[0]] + q && multiset(a[1..]) == multiset(p + q)
  {
    assert a[0] in multiset(b);
    var i :| 0 <= i < |b| && b[i] == a[0];
    SplitAround(b, i);
    TailMultiset(a);
    p, q := b[..i], b[i + 1..];
  }
}
